# Markdown to HTML, modelled in Dafny

This project models the core of a small static-site generator that turns
markdown into an HTML node tree:

- `src/textnode.py` — a `TextNode` is a run of inline text with one style
  (`TextType`). It has an optional url and a legacy `render`.
- `src/htmlnode.py` — the HTML tree. `HTMLNode` cannot render itself.
  `LeafNode` renders its value inside its tag. `ParentNode` renders its
  children inside its tag. Attributes are rendered by `props_to_html`.
- `src/markdown.py` — the converter. It has five stages:
  - inline tokenizing: `split_nodes_delimiter`, the two regex extractors,
    `split_nodes_image` and `split_nodes_link`, and `text_to_textnodes`;
  - block splitting (`markdown_to_blocks`);
  - block classification (`block_to_block_type`);
  - building the tree: `text_node_to_html_node`, `text_to_children` and
    `markdown_to_html_node`;
  - title extraction (`extract_title`).

The Dafny modules follow the same split:

| module | file | models |
|---|---|---|
| `Wrappers` | `wrappers.dfy` | `Option` and `Result`, which stand for `None` and for raised errors |
| `Strings` | `strings.dfy` | the `str` methods the source relies on: `split`, `split(sep, 1)`, `strip`, `strip(chars)`, `startswith`, `endswith`, `join`, slicing past the end, and decimal formatting of a number |
| `TextNodes` | `textnode.dfy` | `src/textnode.py` |
| `HtmlNodes` | `htmlnode.dfy` | `src/htmlnode.py` |
| `Inline` | `inline.dfy` | `src/markdown.py:16-117` |
| `Blocks` | `blocks.dfy` | `src/markdown.py:7-13` and `119-151` |
| `Document` | `document.dfy` | `src/markdown.py:153-247` |

**How the code is written in Dafny.**

- The converter's functions are loops that append to a list. Each loop is a
  `method` with a `while` loop and invariants.
- Each such method is proved equal to a recursive specification function.
  For example, `SplitNodesDelimiter` ensures `r == DelimiterSplit(...)`, and
  `MarkdownToHtmlNode` ensures `r == DocumentOf(markdown)`.
- The lemmas are stated about those functions.
- A Python exception becomes the `Err` case of a `Result`. The
  `MarkdownError` cases are an unclosed delimiter, an unknown text type and
  a missing title. The `RenderError` cases are `HTMLNode.to_html`, a leaf
  without a value, and a parent without a tag or without children.
- Both kinds of node are values and are never updated after they are
  built, so they are datatypes.

**What is proved, in the system's terms.**

Inline tokenizing:
- A delimiter pass fails exactly when some TEXT node's text splits into an
  even number of parts, and then it names that delimiter.
- A delimiter pass passes non-TEXT nodes through unchanged.
- The text of a node's pieces is its text with every delimiter removed.
- No piece is empty, and no piece holds the delimiter.
- The pieces between delimiters get the new type and the pieces outside
  them stay TEXT.
- The image and link matchers are sound and complete: they return
  well-formed markup only, and skip none that does not begin inside an
  earlier match.
- The image and link passes lose no text: writing each image or link back
  as its markup restores the input exactly.
- After the whole `text_to_textnodes` pipeline:
  - no TEXT node is empty;
  - no TEXT node holds `*`, `_` or a backtick;
  - every IMAGE and LINK node came from the markup passes;
  - an empty text gives no nodes.
- A call fails only on an unclosed delimiter.

Blocks:
- Blocks are non-empty.
- Each block is already stripped.
- No block contains a blank line.
- A block is a heading exactly when it starts with one to six `#` and a
  space.
- An ordered list is numbered 1, 2, 3, ... from its first line.

The tree:
- A `to_html` call succeeds exactly on trees whose every leaf has a value
  and whose every parent has a tag and at least one child.
- Each block becomes a parent with the expected tag: `h1` to `h6`, `pre`,
  `blockquote`, `ul`, `ol` or `p`.
- A list holds one `li` per line.
- The document is a `div` with one child per block.
- A rendered document is wrapped in `<div>` and `</div>`.
- A code block renders its text verbatim and never fails.
- The title is the stripped text of the first `# ` line.

Consequences of the code as written, proved as lemmas:

- A document of whitespace only becomes an empty `div`. An empty `div`
  cannot be rendered, because a `ParentNode` without children raises
  (`Document.BlankDocumentFails`).
- An unordered-list line that is only its marker (`- `) gives an `li`
  without children. That makes the whole list fail to render
  (`Document.EmptyListItemFails`).
- The legacy `TextNode.render` and the tree pipeline agree on TEXT, BOLD,
  ITALIC and LINK nodes. They disagree on CODE: the legacy render leaves the
  text bare. They disagree on IMAGE: the legacy render always writes
  `alt="Image"` and a self-closing tag (`Document.LegacyRenderAgreement`).
- Numbered lines that do not start at 1 are a paragraph, not a list
  (`Blocks.OrderedListNeedsOne`).

**Where the model departs from the files as written.**

- `src/textnode.py` declares only BOLD, ITALIC, UNDERLINE, LINK and IMAGE.
  But `src/markdown.py` uses `TextType.TEXT` and `TextType.CODE` throughout.
  The model's `TextType` has all seven kinds. UNDERLINE has no case in
  `text_node_to_html_node`, so converting it is the "unknown text type"
  error.
- `split_nodes_image` and `split_nodes_link` cut the text at the first
  literal occurrence of each match's markup (`text.split(markup, 1)`). They
  do not cut at the match's position. The model does the same.
  - Inside `text_to_textnodes` the images are already gone before links
    are cut, so the two positions coincide.
  - Called on its own, `split_nodes_link` can cut inside an image that
    contains the same `[text](url)`. The model keeps that behaviour.

## Model

| member | source | states |
|---|---|---|
| `TextNodes.TextNode` | src/textnode.py:10-21 | a text node: text, type and a url that is `None` unless given; equality is field by field, as `__eq__` |
| `TextNodes.TextType` | src/textnode.py:3-8 | the inline styles: the five declared ones plus TEXT and CODE, which the converter uses |
| `TextNodes.RenderWrapsText` | src/textnode.py:26-32 | BOLD, ITALIC and UNDERLINE render as the text, unchanged, between `<b>`/`<i>`/`<u>` and the matching closing tag |
| `TextNodes.Render` | src/textnode.py:26-38 | the legacy `render`; what it gives for each kind is stated by `RenderWrapsText`, `RenderImageIgnoresText`, `RenderOthersVerbatim` and `Document.LegacyRenderAgreement` |
| `TextNodes.RenderImageIgnoresText` | src/textnode.py:35-36 | the legacy image rendering depends only on the url, never on the node's text |
| `TextNodes.RenderOthersVerbatim` | src/textnode.py:37-38 | TEXT and CODE nodes, which `render` has no case for, render as their bare text |
| `HtmlNodes.HtmlNode` | src/htmlnode.py:1-6 | the three classes over the shared fields; a missing `children` or `props` is the empty list or dict, as `__init__` makes it |
| `HtmlNodes.Equal` | src/htmlnode.py:14-20 | `__eq__`: same tag, value and children, and props equal as dicts; its laws are `EqualReflexive`, `EqualSymmetric` and `EqualIgnoresClass` |
| `HtmlNodes.EqualReflexive` | src/htmlnode.py:14-20 | `__eq__` holds between a node and itself, recursively through the children |
| `HtmlNodes.EqualSymmetric` | src/htmlnode.py:14-20 | `__eq__` is symmetric, recursively through the children |
| `HtmlNodes.EqualIgnoresClass` | src/htmlnode.py:14-20 | for every tag, value and pair of prop lists that make the same dict, a `LeafNode` and a plain childless `HTMLNode` with those fields are equal, both ways round: `__eq__` checks only `isinstance(other, HTMLNode)`, and dict equality ignores order |
| `HtmlNodes.PropsToHtml` | src/htmlnode.py:25-28 | `props_to_html`; its meaning is stated by `PropsToHtmlPrefixesEach` |
| `HtmlNodes.PropsToHtmlPrefixesEach` | src/htmlnode.py:25-28 | the attribute string is each `key="value"` preceded by one space, in order; it is empty exactly when there are no attributes |
| `HtmlNodes.ToHtml` | src/htmlnode.py:22-63 | `to_html` of the three classes; when it succeeds is stated by `RenderSucceedsIff`, its output's tags by `RenderedTagWraps`, the empty parent by `ChildlessParentFails` |
| `HtmlNodes.RenderSucceedsIff` | src/htmlnode.py:22-63 | `to_html` succeeds exactly on trees with no plain `HTMLNode`, in which every leaf has a value and every parent has a tag and at least one child |
| `HtmlNodes.ChildrenSucceedIff` | src/htmlnode.py:62 | the children's HTML is produced exactly when every child renders |
| `HtmlNodes.RenderedTagWraps` | src/htmlnode.py:39-63 | a tagged node's HTML is the opening tag with its attributes, then a leaf's value or the children's HTML in order, then the closing tag |
| `HtmlNodes.ChildlessParentFails` | src/htmlnode.py:54-59 | a `ParentNode` without children never renders; with a tag, it fails because the children are missing |
| `Inline.SplitNodesDelimiter` | src/markdown.py:16-37 | the loop over the nodes computes the delimiter pass `DelimiterSplit`, whose properties are proved below |
| `Inline.AppendPieces` | src/markdown.py:27-35 | the loop over the parts skips empty parts and types even parts TEXT and odd parts with the new type, as `Pieces` |
| `Inline.DelimiterSplitFailsIff` | src/markdown.py:18-25 | the pass fails exactly when some TEXT node splits into an even number of parts, and the error is the unclosed delimiter it names |
| `Inline.DelimiterSplitWithoutText` | src/markdown.py:19-21 | a list without TEXT nodes passes through unchanged |
| `Inline.DelimiterSplitAppend` | src/markdown.py:17-37 | the pass works node by node: on a concatenation it is the concatenation of the passes, and the first failure wins |
| `Inline.PiecesOrigin` | src/markdown.py:27-35 | every piece is a non-empty part, TEXT at even index and the new type at odd index, without url |
| `Inline.PiecesConcat` | src/markdown.py:27-35 | the pieces' texts put together are the parts put together: dropping empty parts loses nothing |
| `Inline.PiecesTyped` | src/markdown.py:27-35 | the pieces of the new type spell the odd-index parts (the text between delimiters) and the TEXT pieces spell the even-index parts (the text outside them) |
| `Inline.SplitNodeOfText` | src/markdown.py:23-35 | one TEXT node's pieces spell its text with every delimiter removed; the pieces of the new type spell the text between delimiters and the TEXT pieces the text outside them; each piece is one non-empty part, TEXT at even index and the new type at odd index, without url or delimiter |
| `Inline.DelimiterSplitOrigin` | src/markdown.py:16-37 | every output node is an input node that is not TEXT, or one non-empty part of one input TEXT node's text split on the delimiter, TEXT at even index and the new type at odd index, holding no delimiter |
| `Inline.DelimiterSplitWithoutDelimiter` | src/markdown.py:23-35 | a pass over nodes whose TEXT nodes are non-empty, have no url and hold no delimiter returns them unchanged |
| `Inline.ImageAt` | src/markdown.py:40 | a match of the image pattern at a position is `![`, an alt text without `]`, `](`, a non-empty url without `)`, and `)` |
| `Inline.ImageAtComplete` | src/markdown.py:40 | conversely, wherever that markup stands, `ImageAt` returns exactly that match |
| `Inline.ImageMatch` | src/markdown.py:40 | the brackets and parentheses the image scan finds make well-formed image markup |
| `Inline.LinkAt` | src/markdown.py:48 | a match of the link pattern at a position is not preceded by `!` and is `[`, a non-empty text without `]`, `](`, a non-empty url without `)`, and `)` |
| `Inline.LinkAtComplete` | src/markdown.py:48 | conversely, wherever that markup stands and no `!` precedes it, `LinkAt` returns exactly that match |
| `Inline.LinkMatch` | src/markdown.py:48 | the brackets and parentheses the link scan finds make well-formed link markup |
| `Inline.MatchAtComplete` | src/markdown.py:40-48 | both patterns: well-formed markup at a position is the match found there |
| `Inline.Scan` | src/markdown.py:41 | `re.findall` scans left to right and resumes after each match: the matches are well formed, in order, and do not overlap |
| `Inline.ScanMissesNothing` | src/markdown.py:41 | `re.findall` skips no match: every well-formed markup at or after the scan's start is returned, unless it begins inside an earlier match the scan returned |
| `Inline.ScanCovers` | src/markdown.py:41 | every position where the pattern matches lies inside some returned match |
| `Inline.FoundEach` | src/markdown.py:41 | each found match lies after the scan's start and is well formed, and each ends before the next begins |
| `Inline.ExtractMarkdownImages` | src/markdown.py:39-45 | every extracted node is an IMAGE whose alt text has no `]`, whose url is non-empty without `)`, and whose markup occurs in the text |
| `Inline.ExtractMarkdownLinks` | src/markdown.py:47-53 | every extracted node is a LINK with non-empty text without `]`, a non-empty url without `)`, and markup that occurs in the text |
| `Inline.ExtractFindsEveryMatch` | src/markdown.py:39-53 | both extractors are complete: every well-formed image or link markup in the text gives a node with its text and url, unless it begins inside an earlier match that the scan returned |
| `Inline.FoundNodesOccur` | src/markdown.py:43-44 | the node built from each match carries the match's text and url, and its markup occurs in the scanned text |
| `Inline.SplitNodesImage` | src/markdown.py:55-79 | the image pass computes `MarkupSplit(Image, ...)` |
| `Inline.SplitNodesLink` | src/markdown.py:81-105 | the link pass computes `MarkupSplit(Link, ...)` |
| `Inline.SplitNodesMarkup` | src/markdown.py:55-79 | the loop over the nodes passes non-TEXT nodes and nodes without matches through, and cuts the others |
| `Inline.AppendCuts` | src/markdown.py:69-77 | the loop over the matches cuts the text at the first occurrence of each markup and emits the non-empty text before it, the match, and the non-empty rest |
| `Inline.CutAtMatch` | src/markdown.py:70 | cutting at the first occurrence of a match's markup leaves the text before it, the markup, and a rest that starts no later than the match's end |
| `Inline.CutAroundRoundTrip` | src/markdown.py:69-77 | the cut nodes, each image or link written back as its markup, spell the text again |
| `Inline.SplitNodeMarkupRoundTrip` | src/markdown.py:57-77 | one node's output, written back as markup, is the node's own source |
| `Inline.MarkupSplitRoundTrip` | src/markdown.py:55-105 | an image or link pass changes no node list's markdown source |
| `Inline.MarkupSplitWithoutMatches` | src/markdown.py:65-67 | when no TEXT node has a match, the pass returns its input unchanged |
| `Inline.MarkupSplitKinds` | src/markdown.py:55-105 | every output node is TEXT, of the pass's kind, or an input node |
| `Inline.CutAroundKinds` | src/markdown.py:69-77 | every cut node is TEXT or one of the matches |
| `Inline.ImagesThenLinksRoundTrip` | src/markdown.py:108-111 | the two markup passes of `text_to_textnodes` lose no text |
| `Inline.TextToTextNodes` | src/markdown.py:107-117 | the tokenizer computes `Tokens`: images, then links, then the `**`, `*`, `_` and backtick passes |
| `Inline.DelimiterPassKeepsClean` | src/markdown.py:113-116 | one delimiter pass keeps every node free of UNDERLINE and of stray IMAGE or LINK nodes, leaves no empty TEXT node, and removes its one-character delimiter from TEXT nodes |
| `Inline.MarkupPassesClean` | src/markdown.py:108-111 | after the markup passes no node is UNDERLINE; the other half of `AllClean`, that every IMAGE or LINK node is one of the passes' own output, holds by construction here and matters only in `TokensShape` |
| `Inline.TokensShape` | src/markdown.py:107-117 | the tokens hold no empty TEXT node, no TEXT node holding `*`, `_` or a backtick, no UNDERLINE, and only IMAGE and LINK nodes from the markup passes |
| `Inline.TokensOfEmpty` | src/markdown.py:107-117 | an empty text has no tokens |
| `Inline.PlainWordTokens` | src/markdown.py:107-117 | a non-empty word holding none of `!`, `[`, `*`, `_` and a backtick is one TEXT node |
| `Inline.BoldWordTokens` | src/markdown.py:113-114 | for a non-empty `w` without markup characters, `**w**` is one BOLD node holding `w`: the `**` pass runs before the `*` pass |
| `Inline.StarItalicWordTokens` | src/markdown.py:114 | for such a `w`, `*w*` is one ITALIC node holding `w` |
| `Inline.UnderscoreItalicWordTokens` | src/markdown.py:115 | for such a `w`, `_w_` is one ITALIC node holding `w` |
| `Inline.CodeWordTokens` | src/markdown.py:116 | for such a `w`, `w` between backticks is one CODE node holding `w` |
| `Inline.WrappedWordSplits` | src/markdown.py:23-35 | a pass turns a word wrapped in its delimiter into one node of its type |
| `Inline.SplitAroundWord` | src/markdown.py:27 | a word wrapped in a delimiter whose characters it lacks splits into an empty part, the word and an empty part |
| `Inline.ImagePassExample` | src/markdown.py:55-79 | the image pass cuts `![a](u1) [b](u2)` into the IMAGE node and the TEXT after it |
| `Inline.LinkPassExample` | src/markdown.py:81-105 | the link pass then leaves the IMAGE alone and cuts ` [b](u2)` into a space and the LINK node |
| `Inline.ImageBeforeLinkExample` | src/markdown.py:107-117 | `text_to_textnodes("![a](u1) [b](u2)")` is one IMAGE node (`a`, `u1`), a TEXT space and one LINK node (`b`, `u2`); the image is never read as a link |
| `Strings.SplitOnceParts` | src/markdown.py:70 | `split(sep, 1)` gives the text before the first separator and the rest, or the whole text when there is none |
| `Strings.SplitJoin` | src/markdown.py:23 | joining the parts of `split` with the separator restores the text |
| `Strings.SplitPartsLackSeparator` | src/markdown.py:120 | no part of `split` contains the separator |
| `Strings.SplitConcat` | src/markdown.py:23 | the parts of `split` put together are the text with every separator removed, scanning left to right |
| `Strings.NatToString` | src/markdown.py:147 | `str(n)`: at least one decimal digit, no leading zero, and the digits read back (`DecimalValue`, left to right) as `n`; also gives the `h{level}` tag of markdown.py:199 |
| `Strings.StripIdempotent` | src/markdown.py:123-124 | stripping a stripped block changes nothing |
| `Strings.StripEmpty` | src/markdown.py:123 | a piece strips to nothing exactly when it is all whitespace |
| `Blocks.MarkdownToBlocks` | src/markdown.py:119-125 | `markdown_to_blocks` computes `MarkdownBlocks`: split on blank lines, strip each piece, drop empty ones |
| `Blocks.KeepBlocks` | src/markdown.py:121-124 | the loop keeps each piece's strip when it is not empty, in order |
| `Blocks.KeptBlocksAreClean` | src/markdown.py:122-124 | from pieces without a blank line, every kept block is non-empty, already stripped and without a blank line, and there are no more blocks than pieces |
| `Blocks.KeptIsClean` | src/markdown.py:123-124 | one piece without a blank line gives at most one block, and that block is non-empty, already stripped and without a blank line |
| `Blocks.MarkdownBlocksAreClean` | src/markdown.py:119-125 | every block is non-empty, equal to its own strip and free of blank lines, and there are no more blocks than pieces |
| `Blocks.MarkdownBlocksComplete` | src/markdown.py:119-125 | no block is lost or invented: block `j` is the strip of the `j`-th piece whose strip is not empty, these pieces keep their order, and every such piece gives a block |
| `Blocks.KeptAtIndices` | src/markdown.py:121-124 | the blocks kept from the pieces after a given one are, one for one and in order, the non-empty strips of those pieces |
| `Blocks.NonEmptyIncreasing` | src/markdown.py:121-124 | the loop visits the pieces in order, so the indices of the kept pieces increase |
| `Blocks.NonEmptyListsAll` | src/markdown.py:123 | every piece whose strip is not empty is kept |
| `Blocks.BlockToBlockType` | src/markdown.py:127-151 | `block_to_block_type`, first test wins; pinned in both directions by `BlockTypeSound` and `HeadingIffHashes`, with `FencedIsCodeBlock`, `MarkedLinesAreQuote`, `BulletedLinesAreUnorderedList`, `NumberedLinesAreOrderedList`, `OrderedListStartsAtOne`, `OrderedListNumbered`, `OrderedListNeedsOne`, `OrderedListFromOne`, `UnmarkedIsParagraph`, `HalfQuoteIsParagraph`, `HalfListIsParagraph` and `UnclosedFenceIsParagraph` |
| `Blocks.LeadingHashes` | src/markdown.py:190-195 | the heading level is the length of the block's leading run of `#` |
| `Blocks.HeadingIffHashes` | src/markdown.py:130-132 | a block is a heading exactly when it starts with one to six `#` followed by a space |
| `Blocks.OrderedListStartsAtOne` | src/markdown.py:146-148 | a block classified as an ordered list starts with `1. ` |
| `Blocks.OrderedListNumbered` | src/markdown.py:146-148 | in an ordered list, line `i` (from 0) starts with a run of digits that reads as `i + 1`, then `. `: the lines are numbered 1, 2, 3, ... |
| `Blocks.OrderedListNeedsOne` | src/markdown.py:146-151 | numbering that starts at 2 makes a paragraph |
| `Blocks.BlockTypeSound` | src/markdown.py:127-151 | each type holds exactly when its own test passes and every earlier test fails: heading; code block when fenced at both ends; quote when every line starts with `>`; unordered list when every line starts with `* ` or `- `; ordered list when the lines are numbered 1, 2, ...; paragraph exactly when no test passes |
| `Blocks.UnclaimedIsParagraph` | src/markdown.py:127-151 | a block starting with neither `#` nor a backtick, whose first line lacks `1. `, with one line not starting `>` and one starting with neither `* ` nor `- `, is a paragraph |
| `Blocks.HalfQuoteIsParagraph` | src/markdown.py:138-151 | `>a` then `b` is a paragraph: every line must be quoted |
| `Blocks.HalfListIsParagraph` | src/markdown.py:142-151 | `* a` then `b` is a paragraph: every line must be bulleted |
| `Blocks.UnclosedFenceIsParagraph` | src/markdown.py:134-151 | three backticks at the start only make a paragraph: the block must also end with them |
| `Blocks.FencedIsCodeBlock` | src/markdown.py:134-136 | a block that starts and ends with three backticks is a code block (such a block is never a heading) |
| `Blocks.MarkedLinesAreQuote` | src/markdown.py:138-140 | a block whose every line starts with `>` is a quote (no earlier test can claim it) |
| `Blocks.BulletedLinesAreUnorderedList` | src/markdown.py:142-144 | a block whose every line starts with `* ` or `- ` is an unordered list (no earlier test can claim it) |
| `Blocks.NumberedLinesAreOrderedList` | src/markdown.py:146-148 | a block whose lines start with `1. `, `2. `, `3. `, ... in turn is an ordered list |
| `Blocks.TwoNumberedLines` | src/markdown.py:146-148 | a line starting `1. ` and a line starting `2. `, joined by a newline, make an ordered list |
| `Blocks.OrderedListFromOne` | src/markdown.py:146-148 | `1. x` and `2. y` on two lines make an ordered list, the positive twin of `OrderedListNeedsOne` |
| `Blocks.TwoLines` | src/markdown.py:128 | two lines without a newline, joined by one, split back into those two lines |
| `Blocks.UnmarkedIsParagraph` | src/markdown.py:127-151 | a block whose first character is none of `#`, a backtick, `>`, `*`, `-` and `1` is a paragraph |
| `Blocks.OrderedItemText` | src/markdown.py:230 | on a line starting with its number and `. `, `split(". ", 1)` succeeds, and the item text is everything after that marker |
| `Document.TextNodeToHtmlNode` | src/markdown.py:162-178 | `text_node_to_html_node`; pinned by `TextNodeConversion`, `TextNodeHtml` and `LegacyRenderAgreement` |
| `Document.TextNodeConversion` | src/markdown.py:162-178 | conversion fails exactly on UNDERLINE; otherwise it gives a renderable leaf holding the node's text; an image is an empty leaf whose props are `src` (the url) then `alt` (the text) |
| `Document.TextNodeHtml` | src/markdown.py:162-177 | TEXT renders bare; BOLD, ITALIC and CODE inside `<b>`, `<i>` and `<code>`; LINK as `<a href="url">text</a>`; IMAGE as `<img src="url" alt="text"></img>`, with a separate closing tag since `LeafNode` always writes one |
| `Document.ImageLeafRenders` | src/markdown.py:176 | the `img` leaf with `src` then `alt` renders as `<img src="url" alt="text"></img>` |
| `Document.LegacyRenderAgreement` | src/markdown.py:162-178 | the tree pipeline renders TEXT, BOLD, ITALIC and LINK nodes as the legacy `TextNode.render` does, and CODE and IMAGE nodes differently |
| `Document.LinkRendersAlike` | src/markdown.py:174-175 | a LINK leaf renders as `<a href="url">text</a>`, exactly the legacy render of textnode.py:33-34 |
| `Document.ImageRendersApart` | src/markdown.py:176 | an IMAGE leaf's HTML never equals the legacy render, which ends in `/>` |
| `Document.TextToChildren` | src/markdown.py:153-160 | `text_to_children` tokenizes and converts each token, as `ChildrenOf` |
| `Document.AppendLeaves` | src/markdown.py:157-159 | the conversion loop computes `HtmlLeaves`, failing at the first failing token |
| `Document.HtmlLeavesShape` | src/markdown.py:157-159 | tokens without UNDERLINE give one renderable leaf each |
| `Document.ChildrenOfShape` | src/markdown.py:153-160 | children are produced exactly when tokenizing succeeds, one renderable leaf per token; the only failure is an unclosed delimiter |
| `Document.TokensErrorIsDelimiter` | src/markdown.py:107-117 | every tokenizer error is an unclosed delimiter |
| `Document.ChildrenOfEmpty` | src/markdown.py:153-160 | an empty text has no children |
| `Document.HeadingLevel` | src/markdown.py:190-195 | the counting loop stops at the first character that is not `#` |
| `Document.UnorderedListItems` | src/markdown.py:215-222 | the unordered-list loop computes `UnorderedItems`: an `li` per line over the text after the two-character marker |
| `Document.OrderedListItems` | src/markdown.py:226-233 | the ordered-list loop computes `OrderedItems`: an `li` per line over the text after the first `. ` |
| `Document.ListItemsShape` | src/markdown.py:213-233 | for either kind of list, one attribute-free `li` per item text, or a failure on an unclosed delimiter |
| `Document.UnorderedItemsShape` | src/markdown.py:215-222 | an unordered list has one attribute-free `li` per line, item `i` holding the children of line `i` without its two-character marker; it fails only on an unclosed delimiter |
| `Document.OrderedItemsShape` | src/markdown.py:226-233 | an ordered list has one attribute-free `li` per line, item `i` holding the children of line `i` after its own number and `. `; it fails only on an unclosed delimiter |
| `Document.MarkerOnlyItem` | src/markdown.py:217-221 | a line that is only its marker gives an `li` without children |
| `Document.BlockToHtmlNode` | src/markdown.py:186-237 | one block's branch computes `BlockToHtml` |
| `Document.BlockToHtmlShape` | src/markdown.py:186-237 | a block becomes an attribute-free parent tagged `h1` to `h6` by its `#` count, `pre`, `blockquote`, `ul` or `ol` with one `li` per line, or `p`; a code block never fails, and any other block fails only on an unclosed delimiter; the node's children are the inline nodes of the heading text after the `#`s, of the quote lines without their `>`, or of the whole paragraph, the list items, or one `code` leaf holding the stripped code |
| `Document.BlockFailsOnDelimiter` | src/markdown.py:186-237 | one block fails only on an unclosed delimiter |
| `Document.CodeBlockRendersVerbatim` | src/markdown.py:201-204 | a code block renders as `<pre><code>`, its text with backticks and then whitespace stripped, and `</code></pre>`, never tokenized |
| `Document.PreCodeRenders` | src/markdown.py:204 | `pre` around one `code` leaf renders as `<pre><code>`, the text verbatim, and `</code></pre>` |
| `Document.EmptyListItemFails` | src/markdown.py:213-222 | an unordered list with a marker-only line builds, but its HTML cannot be rendered |
| `Document.MarkdownToHtmlNode` | src/markdown.py:180-239 | `markdown_to_html_node` computes `DocumentOf` |
| `Document.AppendBlocks` | src/markdown.py:185-237 | the loop over the blocks computes `BlocksHtml`, failing at the first failing block |
| `Document.BlocksHtmlShape` | src/markdown.py:185-237 | the block nodes are produced exactly when every block converts, one per block in order; failures are unclosed delimiters |
| `Document.DocumentShape` | src/markdown.py:180-239 | the document is an attribute-free `div` whose children are the blocks' nodes in order; it fails exactly when some block fails, on an unclosed delimiter |
| `Document.RenderedDocumentIsDiv` | src/markdown.py:239 | rendered HTML starts with `<div>` and ends with `</div>` |
| `Document.BlankDocumentFails` | src/markdown.py:180-239 | whitespace-only markdown has no blocks, gives an empty `div`, and that cannot be rendered |
| `Document.ExtractTitle` | src/markdown.py:241-247 | `extract_title` computes `TitleOf` over the stripped document's lines |
| `Document.FirstTitleLine` | src/markdown.py:244-247 | the loop returns at the first `# ` line or raises after the last |
| `Document.FirstTitleIsFirstH1` | src/markdown.py:241-247 | the title is the stripped text after `# ` on the first line starting `# `; it is missing exactly when no line starts `# `, and then the error is "no title" |
| `Inline.EmptyTextVanishes` | src/markdown.py:23-29 | a delimiter pass turns an empty TEXT node into no nodes at all |
| `Document.TitleSkipsSubheading` | src/markdown.py:244-246 | a `## ` line is skipped and the `# ` line after it gives the title |
| `Document.TitleAndBodyDocument` | src/markdown.py:180-239 | a `# ` line and a one-word paragraph separated by a blank line give a `div` holding an `h1` and a `p`, each with one plain leaf of the word |
| `Document.TitleDocument` | src/markdown.py:180-239 | `# Title`, a blank line and `body` give `div` [`h1` [`Title`], `p` [`body`]] |
| `Document.TitleAndBodyBlocks` | src/markdown.py:119-125 | a `# ` line, a blank line and a word are the two blocks `# ` line and word |
| `Document.TitleBlock` | src/markdown.py:190-198 | `# w` becomes an `h1` holding one plain leaf `w` |
| `Document.BodyBlock` | src/markdown.py:234-236 | a word that opens no block marker becomes a `p` holding one plain leaf |
| `Document.LevelOneHeading` | src/markdown.py:190-198 | a heading with one `#` becomes `h1` around the inline nodes of its stripped text |
| `Document.WordChildren` | src/markdown.py:153-160 | a word without markup or whitespace gives one untagged leaf |

## Left out

- `src/main.py` (copying static files, reading templates and writing pages) is not part of this model. It is file-system I/O.
- `__repr__` of both node classes is left out. It is debugging output.
- The `HTMLTags` constants are left out. No modelled code uses them.
- The `BlockType` enum's string values are left out. Only the identity of each case matters to the converter.
- The general regular-expression engine is left out. Each of the two patterns is written out as an explicit left-to-right scan with the same character classes, lookbehind and resumption rule.
- `Strings.Strip` strips the ASCII whitespace Python's `str.strip` removes. It does not model the Unicode whitespace beyond ASCII that `str.strip` also removes.
- The model does no HTML escaping, because the source does none.
- An attribute whose value is `None` is rendered as the text `None`, as an f-string shows it (`TextNodes.Show`).
- Props are a list of pairs in insertion order. The model does not enforce that keys are unique as a Python dict's are. `HtmlNodes.Equal` compares them as maps.
- Exception messages and exception classes are left out. Each raise becomes one `MarkdownError` or `RenderError` case.
- `markdown_to_html_node` is one function in the source. The model keeps one method, `BlockToHtmlNode`, for all the block branches, and gives each inner loop (the `#` counter `HeadingLevel`, the list loops `UnorderedListItems` and `OrderedListItems`, and the loop over the blocks `AppendBlocks`) a method of its own, each proved against its own specification function.
