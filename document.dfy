/** From markdown to the HTML node tree (src/markdown.py:153-247): every
    text node becomes a leaf, every block a parent node, and the document
    a `div` holding one node per block; the title is the first `# ` line. */
module Document {
  import opened Wrappers
  import opened Strings
  import opened TextNodes
  import opened HtmlNodes
  import opened Inline
  import opened Blocks

  // ---------------------------------------------------------------------
  // text_node_to_html_node, text_to_children
  // ---------------------------------------------------------------------

  /** `text_node_to_html_node`: one leaf per text node; a link carries its
      url as `href`, an image is an empty `img` with `src` and `alt`; an
      UNDERLINE node has no case and raises. */
  function TextNodeToHtmlNode(n: TextNode): Result<HtmlNode, MarkdownError>
  {
    match n.textType
    case Text => Ok(Leaf(None, Some(n.text)))
    case Bold => Ok(Leaf(Some("b"), Some(n.text)))
    case Italic => Ok(Leaf(Some("i"), Some(n.text)))
    case Code => Ok(Leaf(Some("code"), Some(n.text)))
    case Link => Ok(Leaf(Some("a"), Some(n.text), [("href", Show(n.url))]))
    case Image => Ok(Leaf(Some("img"), Some(""), [("src", Show(n.url)), ("alt", n.text)]))
    case Underline => Err(UnknownTextType(n.textType))
  }

  /** The conversion fails exactly on UNDERLINE; otherwise it gives a leaf
      that renders, holding the node's text (an image holds it as `alt`). */
  lemma TextNodeConversion(n: TextNode)
    ensures TextNodeToHtmlNode(n).Ok? <==> n.textType != Underline
    ensures TextNodeToHtmlNode(n).Err? ==> TextNodeToHtmlNode(n).error == UnknownTextType(Underline)
    ensures TextNodeToHtmlNode(n).Ok? ==>
              var h := TextNodeToHtmlNode(n).value;
              && h.Leaf? && Renderable(h)
              && (n.textType == Image ==> h.value == Some("") && h.props == [("src", Show(n.url)), ("alt", n.text)])
              && (n.textType != Image ==> h.value == Some(n.text))
  {
  }

  /** The legacy `TextNode.render` and the pipeline produce the same HTML
      for TEXT, BOLD, ITALIC and LINK nodes, and different HTML for CODE
      (the legacy render leaves it bare) and IMAGE (the legacy render
      always says `alt="Image"` and closes with `/>`). */
  lemma LegacyRenderAgreement(n: TextNode)
    requires n.textType != Underline
    ensures n.textType in {Text, Bold, Italic, Link} ==> ToHtml(TextNodeToHtmlNode(n).value) == Ok(Render(n))
    ensures n.textType in {Code, Image} ==> ToHtml(TextNodeToHtmlNode(n).value) != Ok(Render(n))
  {
    match n.textType
    case Image => ImageRendersApart(n);
    case Code => assert |ToHtml(TextNodeToHtmlNode(n).value).value| == |n.text| + 13;
    case Link => LinkRendersAlike(n);
    case Bold => WrapRendersAlike(n, "b");
    case Italic => WrapRendersAlike(n, "i");
    case Text =>
  }

  lemma ImageRendersApart(n: TextNode)
    requires n.textType == Image
    ensures ToHtml(TextNodeToHtmlNode(n).value) != Ok(Render(n))
  {
    var html := ToHtml(TextNodeToHtmlNode(n).value).value;
    var legacy := Render(n);
    assert html[|html| - 2] == 'g';
    assert legacy[|legacy| - 2] == '/';
  }

  lemma LinkRendersAlike(n: TextNode)
    requires n.textType == Link
    ensures ToHtml(TextNodeToHtmlNode(n).value) == Ok(Render(n))
  {
    var p := ("href", Show(n.url));
    assert Attributes([p]) == [Attribute(p)];
    assert Join([Attribute(p)], " ") == Attribute(p);
    assert PropsToHtml([p]) == " " + Attribute(p);
    var html := "<" + "a" + (" " + Attribute(p)) + ">" + n.text + "</" + "a" + ">";
    assert ToHtml(TextNodeToHtmlNode(n).value) == Ok(html);
    assert html == Render(n);
  }

  lemma WrapRendersAlike(n: TextNode, tag: string)
    requires (n.textType == Bold && tag == "b") || (n.textType == Italic && tag == "i")
    ensures ToHtml(TextNodeToHtmlNode(n).value) == Ok(Render(n))
  {
    assert ToHtml(TextNodeToHtmlNode(n).value) == Ok("<" + tag + "" + ">" + n.text + "</" + tag + ">");
    assert "<" + tag + "" + ">" == "<" + tag + ">";
    assert Render(n) == "<" + tag + ">" + n.text + "</" + tag + ">";
  }

  /** What each converted node renders as: TEXT bare, BOLD, ITALIC and
      CODE inside `b`, `i` and `code`, a LINK as an anchor with its url as
      `href`, and an IMAGE as an `img` element with `src` then `alt`, closed
      by a separate `</img>` tag since `LeafNode` has no void elements. */
  lemma TextNodeHtml(n: TextNode)
    requires n.textType != Underline
    ensures n.textType == Text ==> ToHtml(TextNodeToHtmlNode(n).value) == Ok(n.text)
    ensures n.textType == Bold ==> ToHtml(TextNodeToHtmlNode(n).value) == Ok("<b>" + n.text + "</b>")
    ensures n.textType == Italic ==> ToHtml(TextNodeToHtmlNode(n).value) == Ok("<i>" + n.text + "</i>")
    ensures n.textType == Code ==> ToHtml(TextNodeToHtmlNode(n).value) == Ok("<code>" + n.text + "</code>")
    ensures n.textType == Link ==>
              ToHtml(TextNodeToHtmlNode(n).value) == Ok("<a href=\"" + Show(n.url) + "\">" + n.text + "</a>")
    ensures n.textType == Image ==>
              ToHtml(TextNodeToHtmlNode(n).value) == Ok(ImageHtml(Show(n.url), n.text))
  {
    match n.textType
    case Text =>
    case Bold => WrapRendersAlike(n, "b");
    case Italic => WrapRendersAlike(n, "i");
    case Code =>
      TaggedLeafRenders("code", n.text);
      assert "<" + "code" + ">" == "<code>" && "</" + "code" + ">" == "</code>";
    case Link => LinkRendersAlike(n);
    case Image => ImageLeafRenders(Show(n.url), n.text);
  }

  /** The HTML of an image leaf: `<img src="url" alt="text"></img>`. */
  function ImageHtml(url: string, alt: string): string
  {
    "<img" + ImageAttributes(url, alt) + "></img>"
  }

  function ImageAttributes(url: string, alt: string): string
  {
    " src=\"" + url + "\" alt=\"" + alt + "\""
  }

  lemma ImageLeafRenders(url: string, alt: string)
    ensures ToHtml(Leaf(Some("img"), Some(""), [("src", url), ("alt", alt)])) == Ok(ImageHtml(url, alt))
  {
    var props := [("src", url), ("alt", alt)];
    ImagePropsHtml(url, alt);
    EmptyLeafTags("img", ImageAttributes(url, alt));
    assert "<" + "img" == "<img" && "></" + "img" + ">" == "></img>";
  }

  /** `props_to_html` of `src` then `alt`. */
  lemma ImagePropsHtml(url: string, alt: string)
    ensures PropsToHtml([("src", url), ("alt", alt)]) == ImageAttributes(url, alt)
  {
    var props := [("src", url), ("alt", alt)];
    var src := Attribute(props[0]);
    var alts := Attribute(props[1]);
    assert Attributes(props) == [src, alts];
    assert Join([src, alts], " ") == src + " " + Join([alts], " ");
    assert PropsToHtml(props) == " " + (src + " " + alts);
  }

  /** The opening and closing tags of a leaf with an empty value. */
  lemma EmptyLeafTags(tag: string, attributes: string)
    ensures "<" + tag + attributes + ">" + "" + "</" + tag + ">" == ("<" + tag) + attributes + ("></" + tag + ">")
  {
    var open := "<" + tag + attributes;
    assert open + ">" + "" == open + ">";
    AppendAssociates(open, ">", "</");
    CloseTag(open + ">", tag);
    CloseTag(open, tag);
  }

  /** The leaves for a list of text nodes, or the first conversion error. */
  function HtmlLeaves(nodes: seq<TextNode>): Result<seq<HtmlNode>, MarkdownError>
  {
    MapResult(nodes, TextNodeToHtmlNode)
  }

  /** The specification of `text_to_children`. */
  function ChildrenOf(text: string): Result<seq<HtmlNode>, MarkdownError>
  {
    var nodes :- Tokens(text);
    HtmlLeaves(nodes)
  }

  method TextToChildren(text: string) returns (r: Result<seq<HtmlNode>, MarkdownError>)
    ensures r == ChildrenOf(text)
  {
    var tokens := TextToTextNodes(text);
    if tokens.Err? {
      return Err(tokens.error);
    }
    r := AppendLeaves(tokens.value);
  }

  /** The loop of `text_to_children` over the text nodes. */
  method AppendLeaves(textNodes: seq<TextNode>) returns (r: Result<seq<HtmlNode>, MarkdownError>)
    ensures r == HtmlLeaves(textNodes)
  {
    var children: seq<HtmlNode> := [];
    var k := 0;
    assert textNodes[k..] == textNodes;
    PrependNothing(HtmlLeaves(textNodes));
    while k < |textNodes|
      invariant 0 <= k <= |textNodes|
      invariant HtmlLeaves(textNodes) == Prepend(children, MapResult(textNodes[k..], TextNodeToHtmlNode))
    {
      assert textNodes[k..][1..] == textNodes[k + 1..];
      var htmlNode := TextNodeToHtmlNode(textNodes[k]);
      if htmlNode.Err? {
        return Err(htmlNode.error);
      }
      PrependTwice(children, [htmlNode.value], MapResult(textNodes[k + 1..], TextNodeToHtmlNode));
      children := children + [htmlNode.value];
      k := k + 1;
    }
    assert textNodes[k..] == [];
    assert children + [] == children;
    return Ok(children);
  }

  /** Leaves for nodes without UNDERLINE: one renderable leaf per node. */
  lemma HtmlLeavesShape(nodes: seq<TextNode>)
    requires forall n :: n in nodes ==> n.textType != Underline
    ensures HtmlLeaves(nodes).Ok?
    ensures |HtmlLeaves(nodes).value| == |nodes|
    ensures AllRenderable(HtmlLeaves(nodes).value)
  {
    forall k | 0 <= k < |nodes|
      ensures TextNodeToHtmlNode(nodes[k]).Ok? && Renderable(TextNodeToHtmlNode(nodes[k]).value)
    {
      TextNodeConversion(nodes[k]);
    }
    MapResultMaps(nodes, TextNodeToHtmlNode);
  }

  /** `text_to_children` fails only on an unclosed delimiter; otherwise
      every child is a leaf that renders. */
  lemma ChildrenOfShape(text: string)
    ensures ChildrenOf(text).Ok? <==> Tokens(text).Ok?
    ensures ChildrenOf(text).Err? ==> ChildrenOf(text).error.UnclosedDelimiter?
    ensures ChildrenOf(text).Ok? ==>
              |ChildrenOf(text).value| == |Tokens(text).value| && AllRenderable(ChildrenOf(text).value)
  {
    if Tokens(text).Ok? {
      TokensShape(text);
      HtmlLeavesShape(Tokens(text).value);
    } else {
      TokensErrorIsDelimiter(text);
    }
  }

  /** Every error of `text_to_textnodes` is an unclosed delimiter. */
  lemma TokensErrorIsDelimiter(text: string)
    requires Tokens(text).Err?
    ensures Tokens(text).error.UnclosedDelimiter?
  {
    var linked := MarkupSplit(Link, MarkupSplit(Image, [Plain(text)]));
    DelimiterSplitFailsIff(linked, "**", Bold);
    var bold := DelimiterSplit(linked, "**", Bold);
    if bold.Ok? {
      DelimiterSplitFailsIff(bold.value, "*", Italic);
      var italic := DelimiterSplit(bold.value, "*", Italic);
      if italic.Ok? {
        DelimiterSplitFailsIff(italic.value, "_", Italic);
        var underscored := DelimiterSplit(italic.value, "_", Italic);
        if underscored.Ok? {
          DelimiterSplitFailsIff(underscored.value, "`", Code);
        }
      }
    }
  }

  /** An empty text has no children. */
  lemma ChildrenOfEmpty()
    ensures ChildrenOf("") == Ok([])
  {
    TokensOfEmpty();
  }

  // ---------------------------------------------------------------------
  // markdown_to_html_node: one block
  // ---------------------------------------------------------------------

  /** One list item: an `li` around the children of its text. */
  function ListItem(text: string): Result<HtmlNode, MarkdownError>
  {
    Wrap(ChildrenOf(text), "li")
  }

  /** The text of each line of an unordered list: all but its
      two-character marker. */
  function UnorderedTexts(lines: seq<string>): (r: seq<string>)
    ensures |r| == |lines|
  {
    seq(|lines|, i requires 0 <= i < |lines| => Drop(lines[i], 2))
  }

  /** The text of line `i` of an ordered list, taken after its first `. `:
      everything after its own number and `. `. */
  function OrderedText(line: string, i: nat): (r: string)
    requires StartsWith(line, OrderedMarker(i))
    ensures r == line[|OrderedMarker(i)|..]
  {
    OrderedItemText(line, i);
    SplitOnce(line, ". ")[1]
  }

  function OrderedTexts(lines: seq<string>): (r: seq<string>)
    requires IsOrdered(lines)
    ensures |r| == |lines|
  {
    seq(|lines|, i requires 0 <= i < |lines| => OrderedText(lines[i], i))
  }

  /** The list items of an unordered list. */
  function UnorderedItems(lines: seq<string>): Result<seq<HtmlNode>, MarkdownError>
  {
    MapResult(UnorderedTexts(lines), ListItem)
  }

  /** The list items of an ordered list. */
  function OrderedItems(lines: seq<string>): Result<seq<HtmlNode>, MarkdownError>
    requires IsOrdered(lines)
  {
    MapResult(OrderedTexts(lines), ListItem)
  }

  /** The lines of a quote without their first character, stripped. */
  function QuoteLines(lines: seq<string>): (r: seq<string>)
    ensures |r| == |lines|
  {
    seq(|lines|, i requires 0 <= i < |lines| => Strip(Drop(lines[i], 1)))
  }

  /** The branch of `markdown_to_html_node` for one block. */
  function BlockToHtml(block: string): Result<HtmlNode, MarkdownError>
  {
    var lines := Split(block, "\n");
    match BlockToBlockType(block)
    case Heading =>
      var level := LeadingHashes(block);
      var children :- ChildrenOf(Strip(Drop(block, level)));
      Ok(Parent(Some("h" + NatToString(level)), children))
    case CodeBlock =>
      Ok(Parent(Some("pre"), [Leaf(Some("code"), Some(Strip(StripChars(block, {'`'}))))]))
    case Quote =>
      var children :- ChildrenOf(Join(QuoteLines(lines), "\n"));
      Ok(Parent(Some("blockquote"), children))
    case UnorderedList =>
      var items :- UnorderedItems(lines);
      Ok(Parent(Some("ul"), items))
    case OrderedList =>
      var items :- OrderedItems(lines);
      Ok(Parent(Some("ol"), items))
    case Paragraph =>
      var children :- ChildrenOf(block);
      Ok(Parent(Some("p"), children))
  }

  /** The heading counter: the number of leading `#`. */
  method HeadingLevel(block: string) returns (level: nat)
    ensures level == LeadingHashes(block)
  {
    level := 0;
    while level < |block| && block[level] == '#'
      invariant level <= |block|
      invariant forall j :: 0 <= j < level ==> block[j] == '#'
    {
      level := level + 1;
    }
  }

  method UnorderedListItems(lines: seq<string>) returns (r: Result<seq<HtmlNode>, MarkdownError>)
    ensures r == UnorderedItems(lines)
  {
    ghost var texts := UnorderedTexts(lines);
    var listItems: seq<HtmlNode> := [];
    var k := 0;
    assert texts[k..] == texts;
    PrependNothing(UnorderedItems(lines));
    while k < |lines|
      invariant 0 <= k <= |lines|
      invariant UnorderedItems(lines) == Prepend(listItems, MapResult(texts[k..], ListItem))
    {
      assert texts[k..][1..] == texts[k + 1..];
      var text := Drop(lines[k], 2);
      var itemChildren := TextToChildren(text);
      if itemChildren.Err? {
        return Err(itemChildren.error);
      }
      var item := Parent(Some("li"), itemChildren.value);
      PrependTwice(listItems, [item], MapResult(texts[k + 1..], ListItem));
      listItems := listItems + [item];
      k := k + 1;
    }
    assert texts[k..] == [];
    assert listItems + [] == listItems;
    return Ok(listItems);
  }

  method OrderedListItems(lines: seq<string>) returns (r: Result<seq<HtmlNode>, MarkdownError>)
    requires IsOrdered(lines)
    ensures r == OrderedItems(lines)
  {
    ghost var texts := OrderedTexts(lines);
    var listItems: seq<HtmlNode> := [];
    var k := 0;
    assert texts[k..] == texts;
    PrependNothing(OrderedItems(lines));
    while k < |lines|
      invariant 0 <= k <= |lines|
      invariant OrderedItems(lines) == Prepend(listItems, MapResult(texts[k..], ListItem))
    {
      assert texts[k..][1..] == texts[k + 1..];
      OrderedItemText(lines[k], k);
      var text := SplitOnce(lines[k], ". ")[1];
      var itemChildren := TextToChildren(text);
      if itemChildren.Err? {
        return Err(itemChildren.error);
      }
      var item := Parent(Some("li"), itemChildren.value);
      PrependTwice(listItems, [item], MapResult(texts[k + 1..], ListItem));
      listItems := listItems + [item];
      k := k + 1;
    }
    assert texts[k..] == [];
    assert listItems + [] == listItems;
    return Ok(listItems);
  }

  method BlockToHtmlNode(block: string) returns (r: Result<HtmlNode, MarkdownError>)
    ensures r == BlockToHtml(block)
  {
    var blockType := BlockToBlockType(block);
    var lines := Split(block, "\n");
    match blockType
    case Heading =>
      var level := HeadingLevel(block);
      var children := TextToChildren(Strip(Drop(block, level)));
      if children.Err? {
        return Err(children.error);
      }
      r := Ok(Parent(Some("h" + NatToString(level)), children.value));
    case CodeBlock =>
      var codeText := Strip(StripChars(block, {'`'}));
      r := Ok(Parent(Some("pre"), [Leaf(Some("code"), Some(codeText))]));
    case Quote =>
      var children := TextToChildren(Join(QuoteLines(lines), "\n"));
      if children.Err? {
        return Err(children.error);
      }
      r := Ok(Parent(Some("blockquote"), children.value));
    case UnorderedList =>
      var items := UnorderedListItems(lines);
      if items.Err? {
        return Err(items.error);
      }
      r := Ok(Parent(Some("ul"), items.value));
    case OrderedList =>
      var items := OrderedListItems(lines);
      if items.Err? {
        return Err(items.error);
      }
      r := Ok(Parent(Some("ol"), items.value));
    case Paragraph =>
      var children := TextToChildren(block);
      if children.Err? {
        return Err(children.error);
      }
      r := Ok(Parent(Some("p"), children.value));
  }

  // ---------------------------------------------------------------------
  // markdown_to_html_node: the document
  // ---------------------------------------------------------------------

  function BlocksHtml(blocks: seq<string>): Result<seq<HtmlNode>, MarkdownError>
  {
    MapResult(blocks, BlockToHtml)
  }

  /** The specification of `markdown_to_html_node`. */
  function DocumentOf(markdown: string): Result<HtmlNode, MarkdownError>
  {
    var children :- BlocksHtml(MarkdownBlocks(markdown));
    Ok(Parent(Some("div"), children))
  }

  method MarkdownToHtmlNode(markdown: string) returns (r: Result<HtmlNode, MarkdownError>)
    ensures r == DocumentOf(markdown)
  {
    var blocks := MarkdownToBlocks(markdown);
    var children := AppendBlocks(blocks);
    if children.Err? {
      return Err(children.error);
    }
    r := Ok(Parent(Some("div"), children.value));
  }

  /** The loop of `markdown_to_html_node` over the blocks. */
  method AppendBlocks(blocks: seq<string>) returns (r: Result<seq<HtmlNode>, MarkdownError>)
    ensures r == BlocksHtml(blocks)
  {
    var children: seq<HtmlNode> := [];
    var k := 0;
    assert blocks[k..] == blocks;
    PrependNothing(BlocksHtml(blocks));
    while k < |blocks|
      invariant 0 <= k <= |blocks|
      invariant BlocksHtml(blocks) == Prepend(children, MapResult(blocks[k..], BlockToHtml))
    {
      assert blocks[k..][1..] == blocks[k + 1..];
      var node := BlockToHtmlNode(blocks[k]);
      if node.Err? {
        return Err(node.error);
      }
      PrependTwice(children, [node.value], MapResult(blocks[k + 1..], BlockToHtml));
      children := children + [node.value];
      k := k + 1;
    }
    assert blocks[k..] == [];
    assert children + [] == children;
    return Ok(children);
  }

  // ---------------------------------------------------------------------
  // extract_title
  // ---------------------------------------------------------------------

  /** A line that `extract_title` accepts: it starts with `# `. */
  predicate IsH1(line: string)
  {
    StartsWith(line, "# ")
  }

  /** The title such a line gives: what follows `# `, stripped. */
  function H1Text(line: string): string
    requires IsH1(line)
  {
    Strip(line[2..])
  }

  function FirstTitle(lines: seq<string>): Result<string, MarkdownError>
  {
    if lines == [] then Err(NoTitle)
    else if IsH1(lines[0]) then Ok(H1Text(lines[0]))
    else FirstTitle(lines[1..])
  }

  /** The specification of `extract_title`. */
  function TitleOf(markdown: string): Result<string, MarkdownError>
  {
    FirstTitle(Split(Strip(markdown), "\n"))
  }

  method ExtractTitle(markdown: string) returns (r: Result<string, MarkdownError>)
    ensures r == TitleOf(markdown)
  {
    var lines := Split(Strip(markdown), "\n");
    r := FirstTitleLine(lines);
  }

  /** The loop of `extract_title`, which returns at the first `# ` line. */
  method FirstTitleLine(lines: seq<string>) returns (r: Result<string, MarkdownError>)
    ensures r == FirstTitle(lines)
  {
    var k := 0;
    assert lines[k..] == lines;
    while k < |lines|
      invariant 0 <= k <= |lines|
      invariant FirstTitle(lines) == FirstTitle(lines[k..])
    {
      assert lines[k..][1..] == lines[k + 1..];
      if IsH1(lines[k]) {
        return Ok(H1Text(lines[k]));
      }
      k := k + 1;
    }
    assert lines[k..] == [];
    return Err(NoTitle);
  }

  // ---------------------------------------------------------------------
  // What markdown_to_html_node promises
  // ---------------------------------------------------------------------

  /** `items` are `count` list items: `li` parents without attributes. */
  ghost predicate ListOfItems(items: seq<HtmlNode>, count: nat)
  {
    && |items| == count
    && forall i :: 0 <= i < |items| ==> items[i].Parent? && items[i].tag == Some("li") && items[i].props == []
  }

  /** A list of items as the list branches produce it: a failure on an
      unclosed delimiter, or `count` items. */
  ghost predicate ItemsShaped(r: Result<seq<HtmlNode>, MarkdownError>, count: nat)
  {
    && (r.Err? ==> r.error.UnclosedDelimiter?)
    && (r.Ok? ==> ListOfItems(r.value, count))
  }

  /** One item is an `li` without attributes, or fails on an unclosed
      delimiter. */
  lemma ListItemShape(text: string)
    ensures TaggedParent(ListItem(text), "li")
  {
    WrapsChildren(ChildrenOf(text), text, "li");
  }

  /** Both kinds of list give one attribute-free `li` per line and fail only
      on an unclosed delimiter. */
  lemma ListItemsShape(texts: seq<string>)
    ensures ItemsShaped(MapResult(texts, ListItem), |texts|)
  {
    var r := MapResult(texts, ListItem);
    MapResultMaps(texts, ListItem);
    if r.Err? {
      var k :| FirstFailure(texts, ListItem, k) && r.error == ListItem(texts[k]).error;
      ListItemShape(texts[k]);
    } else {
      forall i | 0 <= i < |texts| ensures TaggedParent(ListItem(texts[i]), "li") {
        ListItemShape(texts[i]);
      }
    }
  }

  /** An item that builds is an `li` around its text's children. */
  lemma ListItemValue(text: string)
    ensures ListItem(text).Ok? <==> ChildrenOf(text).Ok?
    ensures ListItem(text).Ok? ==> ListItem(text).value == Parent(Some("li"), ChildrenOf(text).value)
  {
  }

  /** The items of a list that builds are the `li` nodes of its texts. */
  lemma ListItemsValues(texts: seq<string>)
    ensures var r := MapResult(texts, ListItem);
            r.Ok? ==>
              && |r.value| == |texts|
              && forall i :: 0 <= i < |texts| ==>
                   ChildrenOf(texts[i]).Ok? && r.value[i] == Parent(Some("li"), ChildrenOf(texts[i]).value)
  {
    var r := MapResult(texts, ListItem);
    MapResultMaps(texts, ListItem);
    if r.Ok? {
      forall i | 0 <= i < |texts|
        ensures ChildrenOf(texts[i]).Ok? && r.value[i] == Parent(Some("li"), ChildrenOf(texts[i]).value)
      {
        assert r.value[i] == ListItem(texts[i]).value;
        ListItemValue(texts[i]);
      }
    }
  }

  /** An unordered list (src/markdown.py:215-222): one attribute-free `li`
      per line, item `i` holding the children of line `i` after its
      two-character marker; it fails only on an unclosed delimiter. */
  lemma UnorderedItemsShape(lines: seq<string>)
    ensures ItemsShaped(UnorderedItems(lines), |lines|)
    ensures UnorderedItems(lines).Ok? ==>
              forall i :: 0 <= i < |lines| ==>
                && ChildrenOf(Drop(lines[i], 2)).Ok?
                && UnorderedItems(lines).value[i] == Parent(Some("li"), ChildrenOf(Drop(lines[i], 2)).value)
  {
    var texts := UnorderedTexts(lines);
    ListItemsShape(texts);
    ListItemsValues(texts);
    assert forall i :: 0 <= i < |lines| ==> texts[i] == Drop(lines[i], 2);
  }

  /** An ordered list (src/markdown.py:226-233): one attribute-free `li`
      per line, item `i` holding the children of line `i` after its own
      number and `. `; it fails only on an unclosed delimiter. */
  lemma OrderedItemsShape(lines: seq<string>)
    requires IsOrdered(lines)
    ensures ItemsShaped(OrderedItems(lines), |lines|)
    ensures OrderedItems(lines).Ok? ==>
              forall i :: 0 <= i < |lines| ==>
                && |OrderedMarker(i)| <= |lines[i]|
                && ChildrenOf(lines[i][|OrderedMarker(i)|..]).Ok?
                && OrderedItems(lines).value[i] == Parent(Some("li"), ChildrenOf(lines[i][|OrderedMarker(i)|..]).value)
  {
    var texts := OrderedTexts(lines);
    ListItemsShape(texts);
    ListItemsValues(texts);
    forall i | 0 <= i < |lines| ensures |OrderedMarker(i)| <= |lines[i]| && texts[i] == lines[i][|OrderedMarker(i)|..] {
      assert StartsWith(lines[i], OrderedMarker(i));
      assert texts[i] == OrderedText(lines[i], i);
    }
  }

  /** A line of an unordered list that is only its marker gives an `li`
      without children. */
  lemma MarkerOnlyItem(lines: seq<string>, k: nat)
    requires k < |lines| && Drop(lines[k], 2) == "" && UnorderedItems(lines).Ok?
    ensures k < |UnorderedItems(lines).value|
    ensures UnorderedItems(lines).value[k] == Parent(Some("li"), [])
  {
    var texts := UnorderedTexts(lines);
    MapResultMaps(texts, ListItem);
    assert texts[k] == "";
    ChildrenOfEmpty();
  }

  /** The result of one block: a failure on an unclosed delimiter, or a
      parent with tag `tag` and no attributes. */
  ghost predicate TaggedParent(r: Result<HtmlNode, MarkdownError>, tag: string)
  {
    && (r.Err? ==> r.error.UnclosedDelimiter?)
    && (r.Ok? ==> r.value.Parent? && r.value.tag == Some(tag) && r.value.props == [])
  }

  /** What each kind of block becomes. */
  ghost predicate BlockResultShape(block: string, r: Result<HtmlNode, MarkdownError>)
  {
    var lines := Split(block, "\n");
    match BlockToBlockType(block)
    case Heading =>
      var level := LeadingHashes(block);
      var text := Strip(Drop(block, level));
      && 1 <= level <= 6 && TaggedParent(r, "h" + NatToString(level))
      && r == Wrap(ChildrenOf(text), "h" + NatToString(level))
    case CodeBlock =>
      && r.Ok? && TaggedParent(r, "pre")
      && r.value.children == [Leaf(Some("code"), Some(Strip(StripChars(block, {'`'}))))]
    case Quote =>
      TaggedParent(r, "blockquote") && r == Wrap(ChildrenOf(Join(QuoteLines(lines), "\n")), "blockquote")
    case UnorderedList =>
      && TaggedParent(r, "ul") && (r.Ok? ==> ListOfItems(r.value.children, |lines|))
      && r == Wrap(UnorderedItems(lines), "ul")
    case OrderedList =>
      && TaggedParent(r, "ol") && (r.Ok? ==> ListOfItems(r.value.children, |lines|))
      && r == Wrap(OrderedItems(lines), "ol")
    case Paragraph => TaggedParent(r, "p") && r == Wrap(ChildrenOf(block), "p")
  }

  /** One block's node is a parent without attributes whose tag the block
      type decides: `h1` to `h6` by the number of leading `#`, `pre`,
      `blockquote`, `ul` or `ol` with one `li` per line, or `p`. A block
      fails only on an unclosed delimiter, and a code block never fails.
      Its children are the inline nodes of the heading text after the `#`s
      and the space, of the quote lines with their `>` removed, or of the
      whole paragraph; the list items; or one `code` leaf. */
  lemma BlockToHtmlShape(block: string)
    ensures BlockResultShape(block, BlockToHtml(block))
  {
    var lines := Split(block, "\n");
    var r := BlockToHtml(block);
    match BlockToBlockType(block)
    case Heading =>
      var level := LeadingHashes(block);
      HeadingIffHashes(block);
      WrapsChildren(ChildrenOf(Strip(Drop(block, level))), Strip(Drop(block, level)), "h" + NatToString(level));
      assert r == Wrap(ChildrenOf(Strip(Drop(block, level))), "h" + NatToString(level));
    case CodeBlock =>
    case Quote =>
      var text := Join(QuoteLines(lines), "\n");
      WrapsChildren(ChildrenOf(text), text, "blockquote");
      assert r == Wrap(ChildrenOf(text), "blockquote");
    case UnorderedList =>
      ListItemsShape(UnorderedTexts(lines));
      assert r == Wrap(UnorderedItems(lines), "ul");
    case OrderedList =>
      ListItemsShape(OrderedTexts(lines));
      assert r == Wrap(OrderedItems(lines), "ol");
    case Paragraph =>
      WrapsChildren(ChildrenOf(block), block, "p");
      assert r == Wrap(ChildrenOf(block), "p");
  }

  /** A parent tagged `tag` around `children`, or their failure. */
  function Wrap(children: Result<seq<HtmlNode>, MarkdownError>, tag: string): (r: Result<HtmlNode, MarkdownError>)
    ensures r.Ok? <==> children.Ok?
    ensures r.Err? ==> r.error == children.error
    ensures r.Ok? ==> r.value == Parent(Some(tag), children.value)
  {
    var c :- children;
    Ok(Parent(Some(tag), c))
  }

  lemma WrapsChildren(children: Result<seq<HtmlNode>, MarkdownError>, text: string, tag: string)
    requires children == ChildrenOf(text)
    ensures TaggedParent(Wrap(children, tag), tag)
  {
    ChildrenOfShape(text);
  }

  /** A code block is never tokenized, so it never fails: its text, with
      the backticks and then the whitespace stripped from both ends, is
      rendered verbatim inside `pre` and `code`. */
  lemma CodeBlockRendersVerbatim(block: string)
    requires BlockToBlockType(block) == CodeBlock
    ensures BlockToHtml(block).Ok?
    ensures ToHtml(BlockToHtml(block).value)
            == Ok("<pre><code>" + Strip(StripChars(block, {'`'})) + "</code></pre>")
  {
    var inner := Strip(StripChars(block, {'`'}));
    assert BlockToHtml(block) == Ok(Parent(Some("pre"), [Leaf(Some("code"), Some(inner))]));
    PreCodeRenders(inner);
  }

  lemma PreCodeRenders(inner: string)
    ensures ToHtml(Parent(Some("pre"), [Leaf(Some("code"), Some(inner))]))
            == Ok("<pre><code>" + inner + "</code></pre>")
  {
    var code := Leaf(Some("code"), Some(inner));
    var c := ("<" + "code" + ">") + inner + ("</" + "code" + ">");
    TaggedLeafRenders("code", inner);
    OnlyChildRenders("pre", code, c);
    assert "<" + "code" + ">" == "<code>" && "</" + "code" + ">" == "</code>";
    assert "<" + "pre" + ">" == "<pre>" && "</" + "pre" + ">" == "</pre>";
    AppendAssociates("<pre>", "<code>" + inner, "</code>");
    AppendAssociates("<pre>", "<code>", inner);
    AppendAssociates("<pre><code>" + inner, "</code>", "</pre>");
    assert "<pre>" + "<code>" == "<pre><code>" && "</code>" + "</pre>" == "</code></pre>";
  }

  /** A tagged leaf without attributes renders as its value between its tags. */
  lemma TaggedLeafRenders(tag: string, v: string)
    ensures ToHtml(Leaf(Some(tag), Some(v))) == Ok(("<" + tag + ">") + v + ("</" + tag + ">"))
  {
    var open := "<" + tag + ">";
    assert ToHtml(Leaf(Some(tag), Some(v))) == Ok("<" + tag + PropsToHtml([]) + ">" + v + "</" + tag + ">");
    assert PropsToHtml([]) == "";
    assert "<" + tag + "" == "<" + tag;
    CloseTag(open + v, tag);
  }

  /** Appending the closing tag piece by piece or at once. */
  lemma CloseTag(x: string, tag: string)
    ensures x + "</" + tag + ">" == x + ("</" + tag + ">")
  {
    AppendAssociates(x, "</", tag);
    AppendAssociates(x, "</" + tag, ">");
  }

  /** A parent without attributes around one child that renders as `h`
      renders as `h` between its tags. */
  lemma OnlyChildRenders(tag: string, child: HtmlNode, h: string)
    requires ToHtml(child) == Ok(h)
    ensures ToHtml(Parent(Some(tag), [child])) == Ok(("<" + tag + ">") + h + ("</" + tag + ">"))
  {
    assert ChildrenHtml([child]) == Ok(h + "") by {
      assert [child][1..] == [];
    }
    assert h + "" == h;
    var p := Parent(Some(tag), [child]);
    assert ToHtml(p) == Ok("<" + tag + PropsToHtml([]) + ">" + h + "</" + tag + ">");
    assert PropsToHtml([]) == "";
    assert "<" + tag + "" == "<" + tag;
    CloseTag("<" + tag + ">" + h, tag);
  }

  /** A line of an unordered list that is only its marker gives an `li`
      with no children, which cannot be rendered: the whole list fails. */
  lemma EmptyListItemFails(block: string, k: nat)
    requires BlockToBlockType(block) == UnorderedList
    requires k < |Split(block, "\n")| && Drop(Split(block, "\n")[k], 2) == ""
    requires BlockToHtml(block).Ok?
    ensures ToHtml(BlockToHtml(block).value).Err?
  {
    var lines := Split(block, "\n");
    var items := UnorderedItems(lines);
    assert items.Ok? && BlockToHtml(block) == Ok(Parent(Some("ul"), items.value));
    MarkerOnlyItem(lines, k);
    RenderSucceedsIff(Parent(Some("li"), []));
    RenderSucceedsIff(Parent(Some("ul"), items.value));
  }

  /** Every failure of one block is an unclosed delimiter. */
  lemma BlockFailsOnDelimiter(block: string)
    ensures BlockToHtml(block).Err? ==> BlockToHtml(block).error.UnclosedDelimiter?
  {
    BlockToHtmlShape(block);
  }

  /** The block nodes: one per block, in order, when every block converts;
      otherwise the failure of the first block that does not, which is an
      unclosed delimiter. */
  lemma BlocksHtmlShape(blocks: seq<string>)
    ensures Mapped(blocks, BlockToHtml, BlocksHtml(blocks))
    ensures BlocksHtml(blocks).Err? ==> BlocksHtml(blocks).error.UnclosedDelimiter?
  {
    var r := BlocksHtml(blocks);
    MapResultMaps(blocks, BlockToHtml);
    if r.Err? {
      var k :| FirstFailure(blocks, BlockToHtml, k) && r.error == BlockToHtml(blocks[k]).error;
      BlockFailsOnDelimiter(blocks[k]);
    }
  }

  /** `markdown_to_html_node` gives a `div` with one child per block, each
      the block's own node, in order; it fails exactly when some block
      fails, and then on an unclosed delimiter. */
  lemma DocumentShape(markdown: string)
    ensures var blocks := MarkdownBlocks(markdown);
            DocumentOf(markdown).Ok? <==> forall k :: 0 <= k < |blocks| ==> BlockToHtml(blocks[k]).Ok?
    ensures DocumentOf(markdown).Err? ==> DocumentOf(markdown).error.UnclosedDelimiter?
    ensures DocumentOf(markdown).Ok? ==>
              var blocks := MarkdownBlocks(markdown);
              var doc := DocumentOf(markdown).value;
              && doc.Parent? && doc.tag == Some("div") && doc.props == []
              && |doc.children| == |blocks|
              && forall k :: 0 <= k < |blocks| ==> doc.children[k] == BlockToHtml(blocks[k]).value
  {
    BlocksHtmlShape(MarkdownBlocks(markdown));
  }

  /** A rendered document is wrapped in `<div>` and `</div>`. */
  lemma RenderedDocumentIsDiv(markdown: string)
    requires DocumentOf(markdown).Ok? && ToHtml(DocumentOf(markdown).value).Ok?
    ensures StartsWith(ToHtml(DocumentOf(markdown).value).value, "<div>")
    ensures EndsWith(ToHtml(DocumentOf(markdown).value).value, "</div>")
  {
    var doc := DocumentOf(markdown).value;
    DivWraps(doc.children, ToHtml(doc).value);
  }

  /** A `div` without attributes renders between `<div>` and `</div>`. */
  lemma DivWraps(children: seq<HtmlNode>, html: string)
    requires ToHtml(Parent(Some("div"), children)) == Ok(html)
    ensures StartsWith(html, "<div>") && EndsWith(html, "</div>")
  {
    RenderedTagWraps(Parent(Some("div"), children), html);
    assert PropsToHtml([]) == "";
    assert "<" + "div" + "" + ">" == "<div>";
    assert "</" + "div" + ">" == "</div>";
  }

  /** A document of whitespace only has no blocks: it becomes an empty
      `div`, which cannot be rendered. */
  lemma BlankDocumentFails(markdown: string)
    requires forall i :: 0 <= i < |markdown| ==> markdown[i] in Whitespace
    ensures MarkdownBlocks(markdown) == []
    ensures DocumentOf(markdown) == Ok(Parent(Some("div"), []))
    ensures ToHtml(DocumentOf(markdown).value) == Err(MissingChildren)
  {
    BlankPieces(markdown);
    NothingKept(Split(markdown, BlankLine));
  }

  /** Every piece of a whitespace-only document strips to nothing. */
  lemma BlankPieces(markdown: string)
    requires forall i :: 0 <= i < |markdown| ==> markdown[i] in Whitespace
    ensures forall k :: 0 <= k < |Split(markdown, BlankLine)| ==> Strip(Split(markdown, BlankLine)[k]) == ""
  {
    var pieces := Split(markdown, BlankLine);
    SplitJoin(markdown, BlankLine);
    forall k | 0 <= k < |pieces| ensures Strip(pieces[k]) == "" {
      JoinHasPart(pieces, BlankLine, k);
      forall i | 0 <= i < |pieces[k]| ensures pieces[k][i] in Whitespace {
        assert pieces[k][i] in Join(pieces, BlankLine);
      }
      StripEmpty(pieces[k]);
    }
  }

  lemma {:induction false} NothingKept(pieces: seq<string>)
    requires forall k :: 0 <= k < |pieces| ==> Strip(pieces[k]) == ""
    ensures KeptBlocks(pieces) == []
  {
    if pieces != [] {
      NothingKept(pieces[1..]);
    }
  }

  // ---------------------------------------------------------------------
  // What extract_title promises
  // ---------------------------------------------------------------------

  /** Line `k` is the first line starting `# `, and `title` its text. */
  ghost predicate TitleAt(lines: seq<string>, k: int, title: string)
  {
    && 0 <= k < |lines| && IsH1(lines[k]) && title == H1Text(lines[k])
    && forall j :: 0 <= j < k ==> !IsH1(lines[j])
  }

  /** The title is the stripped text of the first `# ` line; without one
      the result is the "no h1 header" error. */
  lemma {:induction false} FirstTitleIsFirstH1(lines: seq<string>)
    ensures FirstTitle(lines).Err? <==> forall k :: 0 <= k < |lines| ==> !IsH1(lines[k])
    ensures FirstTitle(lines).Err? ==> FirstTitle(lines).error == NoTitle
    ensures FirstTitle(lines).Ok? ==> exists k :: TitleAt(lines, k, FirstTitle(lines).value)
  {
    if lines != [] {
      FirstTitleIsFirstH1(lines[1..]);
      NoH1Shift(lines);
      if !IsH1(lines[0]) {
        if FirstTitle(lines).Ok? {
          var k :| TitleAt(lines[1..], k, FirstTitle(lines).value);
          TitleAtShift(lines, k, FirstTitle(lines).value);
        }
      } else {
        assert TitleAt(lines, 0, FirstTitle(lines).value);
      }
    }
  }

  /** No line is a title line exactly when neither the first nor any later
      one is. */
  lemma NoH1Shift(lines: seq<string>)
    requires lines != []
    ensures (forall k :: 0 <= k < |lines| ==> !IsH1(lines[k]))
            <==> !IsH1(lines[0]) && forall k :: 0 <= k < |lines[1..]| ==> !IsH1(lines[1..][k])
  {
    forall k | 0 < k < |lines| ensures lines[k] == lines[1..][k - 1] { }
  }

  /** A title line of the tail, after a first line that is no title, is the
      title line of the whole. */
  lemma TitleAtShift(lines: seq<string>, k: int, title: string)
    requires lines != [] && !IsH1(lines[0]) && TitleAt(lines[1..], k, title)
    ensures TitleAt(lines, k + 1, title)
  {
    assert lines[k + 1] == lines[1..][k];
    forall j | 0 < j < k + 1 ensures !IsH1(lines[j]) {
      assert lines[j] == lines[1..][j - 1];
    }
  }

  /** A second-level heading is not a title; the first-level one after it is. */
  lemma TitleSkipsSubheading()
    ensures FirstTitle(["## Sub", "# Main"]) == Ok("Main")
  {
    var lines := ["## Sub", "# Main"];
    SubheadingIsNotH1();
    H1OfWord("Main");
    assert "# " + "Main" == "# Main";
    assert lines[1..] == ["# Main"];
    assert FirstTitle(lines[1..]) == Ok("Main");
  }

  lemma SubheadingIsNotH1()
    ensures !IsH1("## Sub")
  {
    assert "## Sub"[1] == '#';
  }

  /** `# ` and a word without surrounding whitespace is a title line whose
      title is the word. */
  lemma H1OfWord(w: string)
    requires |w| > 0 && w[0] !in Whitespace && w[|w| - 1] !in Whitespace
    ensures IsH1("# " + w) && H1Text("# " + w) == w
  {
    var line := "# " + w;
    assert line[..2] == "# ";
    assert line[2..] == w;
    NothingToStrip(w);
  }

  /** A word without whitespace at either end strips to itself. */
  lemma NothingToStrip(w: string)
    requires |w| > 0 && w[0] !in Whitespace && w[|w| - 1] !in Whitespace
    ensures Strip(w) == w
  {
    assert StripLeft(w, Whitespace) == w;
    assert StripRight(w, Whitespace) == w;
  }

  // ---------------------------------------------------------------------
  // A worked document: a title and a paragraph
  // ---------------------------------------------------------------------

  /** A word: not empty, no whitespace and no markup character. */
  predicate Word(w: string)
  {
    && w != "" && Unmarked(w)
    && forall k :: 0 <= k < |w| ==> w[k] !in Whitespace
  }

  /** A word converts to one plain leaf. */
  lemma WordChildren(w: string)
    requires Word(w)
    ensures ChildrenOf(w) == Ok([Leaf(None, Some(w))])
  {
    PlainWordTokens(w);
    ChildrenOfTokens(w, [Plain(w)]);
    PlainLeaf(w);
  }

  /** The children of a text are the leaves of its tokens. */
  lemma ChildrenOfTokens(text: string, nodes: seq<TextNode>)
    requires Tokens(text) == Ok(nodes)
    ensures ChildrenOf(text) == HtmlLeaves(nodes)
  {
  }

  /** One TEXT node is one leaf without a tag. */
  lemma PlainLeaf(w: string)
    ensures HtmlLeaves([Plain(w)]) == Ok([Leaf(None, Some(w))])
  {
    var nodes := [Plain(w)];
    MapResultMaps(nodes, TextNodeToHtmlNode);
    assert TextNodeToHtmlNode(nodes[0]) == Ok(Leaf(None, Some(w)));
    var r := HtmlLeaves(nodes);
    assert r.Ok? && |r.value| == 1 && r.value[0] == Leaf(None, Some(w));
    assert r.value == [Leaf(None, Some(w))];
  }

  /** A space before a word is stripped. */
  lemma StripSpaceWord(w: string)
    requires Word(w)
    ensures Strip(" " + w) == w
  {
    assert (" " + w)[1..] == w;
    assert StripLeft(w, Whitespace) == w;
    assert StripLeft(" " + w, Whitespace) == w;
    assert StripRight(w, Whitespace) == w;
  }

  /** `# w` is a level-one heading holding `w`. */
  lemma TitleBlock(w: string)
    requires Word(w)
    ensures BlockToHtml("# " + w) == Ok(Parent(Some("h1"), [Leaf(None, Some(w))]))
  {
    TitleWraps(w);
    WordChildren(w);
  }

  lemma TitleWraps(w: string)
    requires Word(w)
    ensures BlockToHtml("# " + w) == Wrap(ChildrenOf(w), "h1")
  {
    var h := "# " + w;
    TitleIsHeading(w);
    TitleText(w);
    LevelOneHeading(h);
  }

  /** A heading with one `#` is an `h1`. */
  lemma LevelOneHeading(block: string)
    requires BlockToBlockType(block) == Heading && LeadingHashes(block) == 1
    ensures BlockToHtml(block) == Wrap(ChildrenOf(Strip(Drop(block, 1))), "h1")
  {
    HeadingBlock(block);
    HeadingOne();
  }

  lemma HeadingOne()
    ensures "h" + NatToString(1) == "h1"
  {
  }

  /** A heading block wraps the inline nodes of its text in `h<level>`. */
  lemma HeadingBlock(block: string)
    requires BlockToBlockType(block) == Heading
    ensures var level := LeadingHashes(block);
            BlockToHtml(block) == Wrap(ChildrenOf(Strip(Drop(block, level))), "h" + NatToString(level))
  {
    BlockToHtmlShape(block);
  }

  lemma TitleIsHeading(w: string)
    requires Word(w)
    ensures BlockToBlockType("# " + w) == Heading
  {
    TitleHashes(w);
    HeadingIffHashes("# " + w);
  }

  lemma TitleText(w: string)
    requires Word(w)
    ensures LeadingHashes("# " + w) == 1 && Strip(Drop("# " + w, 1)) == w
  {
    TitleHashes(w);
    assert Drop("# " + w, 1) == " " + w;
    StripSpaceWord(w);
  }

  lemma TitleHashes(w: string)
    requires Word(w)
    ensures LeadingHashes("# " + w) == 1
  {
    var h := "# " + w;
    assert h[1..][0] == ' ';
  }

  /** A word that opens no block marker is a paragraph holding it. */
  lemma BodyBlock(w: string)
    requires Word(w) && w[0] !in {'#', '>', '-', '1'}
    ensures BlockToHtml(w) == Ok(Parent(Some("p"), [Leaf(None, Some(w))]))
  {
    UnmarkedIsParagraph(w);
    BlockToHtmlShape(w);
    WordChildren(w);
  }

  /** `# t`, a blank line and `b` are the two blocks `# t` and `b`. */
  lemma TitleAndBodyBlocks(t: string, b: string)
    requires Word(t) && Word(b)
    ensures MarkdownBlocks("# " + t + "\n\n" + b) == ["# " + t, b]
  {
    var h := "# " + t;
    TitleAndBodySplit(t, b);
    NothingToStrip(h);
    NothingToStrip(b);
    KeptTwo(h, b);
  }

  /** Two pieces that strip to themselves are both kept. */
  lemma KeptTwo(a: string, b: string)
    requires a != "" && b != "" && Strip(a) == a && Strip(b) == b
    ensures KeptBlocks([a, b]) == [a, b]
  {
    assert [a, b][1..] == [b] && [b][1..] == [];
    assert Kept(a) == [a] && Kept(b) == [b];
    assert KeptBlocks([b]) == [b] + KeptBlocks([]);
  }

  /** The blank line is the only place `# t`, a blank line and `b` splits. */
  lemma TitleAndBodySplit(t: string, b: string)
    requires Word(t) && Word(b)
    ensures Split("# " + t + "\n\n" + b, BlankLine) == ["# " + t, b]
  {
    var h := "# " + t;
    var s := h + BlankLine + b;
    assert s == "# " + t + "\n\n" + b;
    assert s[|h|..|h| + 2] == BlankLine;
    forall j | 0 <= j < |h| ensures !OccursAt(s, BlankLine, j) {
      assert s[j..j + 2][0] == s[j] == h[j];
      if j >= 2 { assert h[j] == t[j - 2]; }
    }
    FindIs(s, BlankLine, |h|);
    assert s[..|h|] == h && s[|h| + 2..] == b;
    LacksDelimiter(b, BlankLine);
    SplitWithout(b, BlankLine);
  }

  /** `markdown_to_html_node` on a title line and a one-word paragraph: a
      `div` holding an `h1` and a `p`, each with one plain leaf. */
  lemma TitleAndBodyDocument(t: string, b: string)
    requires Word(t) && Word(b) && b[0] !in {'#', '>', '-', '1'}
    ensures DocumentOf("# " + t + "\n\n" + b)
         == Ok(Parent(Some("div"), [Parent(Some("h1"), [Leaf(None, Some(t))]),
                                    Parent(Some("p"), [Leaf(None, Some(b))])]))
  {
    var h := "# " + t;
    var title := Parent(Some("h1"), [Leaf(None, Some(t))]);
    var body := Parent(Some("p"), [Leaf(None, Some(b))]);
    TitleAndBodyBlocks(t, b);
    TitleBlock(t);
    BodyBlock(b);
    TwoBlocksHtml(h, b, title, body);
    DocumentOfBlocks("# " + t + "\n\n" + b, [h, b], [title, body]);
  }

  /** Two blocks that convert give their two nodes. */
  lemma TwoBlocksHtml(a: string, b: string, x: HtmlNode, y: HtmlNode)
    requires BlockToHtml(a) == Ok(x) && BlockToHtml(b) == Ok(y)
    ensures BlocksHtml([a, b]) == Ok([x, y])
  {
    var blocks := [a, b];
    MapResultMaps(blocks, BlockToHtml);
    assert BlockToHtml(blocks[0]) == Ok(x) && BlockToHtml(blocks[1]) == Ok(y);
    var r := BlocksHtml(blocks);
    assert r.Ok? && |r.value| == 2 && r.value[0] == x && r.value[1] == y;
    assert r.value == [x, y];
  }

  /** The document is a `div` around the nodes of its blocks. */
  lemma DocumentOfBlocks(markdown: string, blocks: seq<string>, children: seq<HtmlNode>)
    requires MarkdownBlocks(markdown) == blocks && BlocksHtml(blocks) == Ok(children)
    ensures DocumentOf(markdown) == Ok(Parent(Some("div"), children))
  {
  }

  /** `# Title`, a blank line and `body`. */
  lemma TitleDocument()
    ensures DocumentOf("# Title\n\nbody")
         == Ok(Parent(Some("div"), [Parent(Some("h1"), [Leaf(None, Some("Title"))]),
                                    Parent(Some("p"), [Leaf(None, Some("body"))])]))
  {
    assert "# " + "Title" + "\n\n" + "body" == "# Title\n\nbody";
    TitleAndBodyDocument("Title", "body");
  }
}
