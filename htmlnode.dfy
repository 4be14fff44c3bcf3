/** The HTML node tree (src/htmlnode.py): a plain `HTMLNode`, a `LeafNode`
    that renders its own value, and a `ParentNode` that renders its
    children; rendering fails on a structurally incomplete node. */
module HtmlNodes {
  import opened Wrappers
  import opened Strings

  /** A Python dict of attributes, in insertion order. */
  type Props = seq<(string, string)>

  /** The three classes share HTMLNode's four fields; a `LeafNode` is built
      with no children and a `ParentNode` with no value, so those fields are
      left out of their variants. A missing `children` or `props` argument
      becomes the empty list or dict, as in `HTMLNode.__init__`. */
  datatype HtmlNode =
    | Generic(tag: Option<string> := None, value: Option<string> := None,
              children: seq<HtmlNode> := [], props: Props := [])
    | Leaf(tag: Option<string>, value: Option<string>, props: Props := [])
    | Parent(tag: Option<string>, children: seq<HtmlNode>, props: Props := [])
  {
    /** The `value` field as `HTMLNode` stores it. */
    function Value(): Option<string>
    {
      if Parent? then None else value
    }

    /** The `children` field as `HTMLNode` stores it. */
    function Children(): seq<HtmlNode>
    {
      if Leaf? then [] else children
    }
  }

  datatype RenderError =
    | NotImplemented    // HTMLNode.to_html
    | MissingValue      // a LeafNode whose value is None
    | MissingTag        // a ParentNode whose tag is None
    | MissingChildren   // a ParentNode with an empty children list

  /** The attribute dict as a map: later pairs override earlier ones, as
      when a dict is built pair by pair. */
  function PropsMap(props: Props): map<string, string>
  {
    if props == [] then map[]
    else PropsMap(props[..|props| - 1])[props[|props| - 1].0 := props[|props| - 1].1]
  }

  /** `HTMLNode.__eq__`: every node is an `HTMLNode`, so the class is not
      compared; tag, value and children are compared in order and the
      props as dicts, whose equality ignores insertion order. */
  predicate Equal(a: HtmlNode, b: HtmlNode)
    decreases a, 1
  {
    && a.tag == b.tag
    && a.Value() == b.Value()
    && PropsMap(a.props) == PropsMap(b.props)
    && match a
       case Leaf(_, _, _) => b.Children() == []
       case Generic(_, _, cs, _) => ChildrenEqual(cs, b.Children())
       case Parent(_, cs, _) => ChildrenEqual(cs, b.Children())
  }

  /** List equality over `Equal`. */
  predicate ChildrenEqual(xs: seq<HtmlNode>, ys: seq<HtmlNode>)
    decreases xs, 0
  {
    |xs| == |ys| && forall i :: 0 <= i < |xs| ==> Equal(xs[i], ys[i])
  }

  lemma {:induction false} EqualReflexive(a: HtmlNode)
    ensures Equal(a, a)
    decreases a, 1
  {
    match a
    case Leaf(_, _, _) =>
    case Generic(_, _, cs, _) => ChildrenEqualReflexive(cs);
    case Parent(_, cs, _) => ChildrenEqualReflexive(cs);
  }

  lemma {:induction false} ChildrenEqualReflexive(xs: seq<HtmlNode>)
    ensures ChildrenEqual(xs, xs)
    decreases xs, 0
  {
    forall i | 0 <= i < |xs| ensures Equal(xs[i], xs[i]) {
      EqualReflexive(xs[i]);
    }
  }

  lemma {:induction false} EqualSymmetric(a: HtmlNode, b: HtmlNode)
    requires Equal(a, b)
    ensures Equal(b, a)
    decreases a, 1
  {
    match a
    case Leaf(_, _, _) =>
    case Generic(_, _, cs, _) => ChildrenEqualSymmetric(cs, b.Children());
    case Parent(_, cs, _) => ChildrenEqualSymmetric(cs, b.Children());
  }

  lemma {:induction false} ChildrenEqualSymmetric(xs: seq<HtmlNode>, ys: seq<HtmlNode>)
    requires ChildrenEqual(xs, ys)
    ensures ChildrenEqual(ys, xs)
    decreases xs, 0
  {
    forall i | 0 <= i < |xs| ensures Equal(ys[i], xs[i]) {
      EqualSymmetric(xs[i], ys[i]);
    }
  }

  /** `__eq__` ignores the class and the order of the props: a leaf equals
      a plain HTMLNode with the same tag and value, no children, and props
      that make the same dict. For instance a leaf `a` with `href` then `id`
      equals a plain node `a` with `id` then `href`. */
  lemma EqualIgnoresClass(tag: Option<string>, value: Option<string>, p: Props, q: Props)
    requires PropsMap(p) == PropsMap(q)
    ensures Equal(Leaf(tag, value, p), Generic(tag, value, [], q))
    ensures Equal(Generic(tag, value, [], q), Leaf(tag, value, p))
  {
  }

  /** One attribute as `key="value"` (no escaping). */
  function Attribute(p: (string, string)): string
  {
    p.0 + "=\"" + p.1 + "\""
  }

  function Attributes(props: Props): (r: seq<string>)
    ensures |r| == |props|
    ensures forall i :: 0 <= i < |props| ==> r[i] == Attribute(props[i])
  {
    if props == [] then [] else [Attribute(props[0])] + Attributes(props[1..])
  }

  /** `HTMLNode.props_to_html`: empty without props, otherwise a space and
      the attributes joined by single spaces, in insertion order. */
  function PropsToHtml(props: Props): string
  {
    if props == [] then "" else " " + Join(Attributes(props), " ")
  }

  /** Every attribute with one space in front of it. */
  function Spaced(props: Props): (r: seq<string>)
    ensures |r| == |props|
    ensures forall i :: 0 <= i < |props| ==> r[i] == " " + Attribute(props[i])
  {
    if props == [] then [] else [" " + Attribute(props[0])] + Spaced(props[1..])
  }

  /** The same string, read as "every attribute preceded by one space". */
  lemma {:induction false} PropsToHtmlPrefixesEach(props: Props)
    ensures PropsToHtml(props) == Concat(Spaced(props))
    ensures PropsToHtml(props) == "" <==> props == []
  {
    if props != [] {
      var first := Attribute(props[0]);
      var rest := props[1..];
      PropsToHtmlPrefixesEach(rest);
      assert Attributes(props) == [first] + Attributes(rest);
      assert Spaced(props) == [" " + first] + Spaced(rest);
      assert Concat(Spaced(props)) == (" " + first) + Concat(Spaced(rest));
      if rest != [] {
        var j := Join(Attributes(rest), " ");
        assert Join(Attributes(props), " ") == first + " " + j;
        calc {
          PropsToHtml(props);
          " " + (first + " " + j);
          (" " + first) + (" " + j);
          (" " + first) + Concat(Spaced(rest));
        }
      }
    }
  }

  /** `LeafNode.to_html`, `ParentNode.to_html` and the abstract
      `HTMLNode.to_html`. */
  function ToHtml(n: HtmlNode): Result<string, RenderError>
    decreases n, 1
  {
    match n
    case Generic(_, _, _, _) => Err(NotImplemented)
    case Leaf(tag, value, props) =>
      if value.None? then Err(MissingValue)
      else if tag.None? then Ok(value.value)
      else Ok("<" + tag.value + PropsToHtml(props) + ">" + value.value + "</" + tag.value + ">")
    case Parent(tag, children, props) =>
      if tag.None? then Err(MissingTag)
      else if children == [] then Err(MissingChildren)
      else
        var inner :- ChildrenHtml(children);
        Ok("<" + tag.value + PropsToHtml(props) + ">" + inner + "</" + tag.value + ">")
  }

  /** `"".join(child.to_html() for child in children)`: the first child that
      fails stops the join. */
  function ChildrenHtml(cs: seq<HtmlNode>): Result<string, RenderError>
    decreases cs, 0
  {
    if cs == [] then Ok("")
    else
      var first :- ToHtml(cs[0]);
      var rest :- ChildrenHtml(cs[1..]);
      Ok(first + rest)
  }

  /** A tree every `to_html` call in which succeeds: leaves carry a value,
      parents carry a tag and at least one child, and there is no plain
      HTMLNode anywhere. */
  ghost predicate Renderable(n: HtmlNode)
    decreases n, 1
  {
    match n
    case Generic(_, _, _, _) => false
    case Leaf(_, value, _) => value.Some?
    case Parent(tag, children, _) => tag.Some? && children != [] && AllRenderable(children)
  }

  ghost predicate AllRenderable(cs: seq<HtmlNode>)
    decreases cs, 0
  {
    forall i :: 0 <= i < |cs| ==> Renderable(cs[i])
  }

  /** Rendering succeeds exactly on the renderable trees. */
  lemma {:induction false} RenderSucceedsIff(n: HtmlNode)
    ensures ToHtml(n).Ok? <==> Renderable(n)
    decreases n, 1
  {
    match n
    case Generic(_, _, _, _) =>
    case Leaf(_, _, _) =>
    case Parent(tag, children, _) =>
      ChildrenSucceedIff(children);
  }

  lemma {:induction false} ChildrenSucceedIff(cs: seq<HtmlNode>)
    ensures ChildrenHtml(cs).Ok? <==> AllRenderable(cs)
    decreases cs, 0
  {
    if cs != [] {
      RenderSucceedsIff(cs[0]);
      ChildrenSucceedIff(cs[1..]);
      assert AllRenderable(cs) <==> Renderable(cs[0]) && AllRenderable(cs[1..]) by {
        if Renderable(cs[0]) && AllRenderable(cs[1..]) {
          forall i | 0 <= i < |cs| ensures Renderable(cs[i]) {
            if i > 0 { assert cs[i] == cs[1..][i - 1]; }
          }
        }
      }
    }
  }

  /** A successful render of a tagged node is wrapped in its opening tag
      (with the attributes) and its closing tag; between them stands a
      leaf's value, or its children's HTML in order. */
  lemma RenderedTagWraps(n: HtmlNode, html: string)
    requires n.tag.Some? && ToHtml(n) == Ok(html)
    ensures StartsWith(html, "<" + n.tag.value + PropsToHtml(n.props) + ">")
    ensures EndsWith(html, "</" + n.tag.value + ">")
    ensures n.Leaf? ==>
              html == ("<" + n.tag.value + PropsToHtml(n.props) + ">") + n.value.value + ("</" + n.tag.value + ">")
    ensures n.Parent? ==>
              && ChildrenHtml(n.children).Ok?
              && html == ("<" + n.tag.value + PropsToHtml(n.props) + ">") + ChildrenHtml(n.children).value
                         + ("</" + n.tag.value + ">")
  {
    var open := "<" + n.tag.value + PropsToHtml(n.props) + ">";
    var close := "</" + n.tag.value + ">";
    var inner := if n.Leaf? then n.value.value else ChildrenHtml(n.children).value;
    assert html == open + inner + close;
    assert html[..|open|] == open;
    assert html[|html| - |close|..] == close;
  }

  /** A parent with an empty children list never renders, whatever its
      tag: so an `li` holding no inline nodes fails. */
  lemma ChildlessParentFails(tag: Option<string>, props: Props)
    ensures ToHtml(Parent(tag, [], props)).Err?
    ensures tag.Some? ==> ToHtml(Parent(tag, [], props)) == Err(MissingChildren)
  {
  }
}
