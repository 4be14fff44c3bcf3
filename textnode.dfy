/** A run of inline text with one style (src/textnode.py), and its legacy
    `render`, which predates the separate HTML node tree. */
module TextNodes {
  import opened Wrappers

  /** The inline styles. src/textnode.py declares BOLD, ITALIC, UNDERLINE,
      LINK and IMAGE; the converter also uses TEXT (plain) and CODE. */
  datatype TextType = Text | Bold | Italic | Underline | Code | Link | Image

  /** `TextNode(text, text_type, url=None)`: `url` is `None` unless given.
      Equality is field by field, as `TextNode.__eq__`. */
  datatype TextNode = TextNode(text: string, textType: TextType, url: Option<string> := None)

  /** How a Python f-string shows an optional string: `None` prints as "None". */
  function Show(o: Option<string>): string
  {
    match o
    case Some(s) => s
    case None => "None"
  }

  /** `TextNode.render`: BOLD, ITALIC and UNDERLINE wrap the text in `b`, `i`
      and `u`; LINK becomes an anchor; IMAGE drops its text and always says
      `alt="Image"`; every other kind is the text itself. */
  function Render(n: TextNode): string
  {
    if n.textType == Bold then "<b>" + n.text + "</b>"
    else if n.textType == Italic then "<i>" + n.text + "</i>"
    else if n.textType == Underline then "<u>" + n.text + "</u>"
    else if n.textType == Link then "<a href=\"" + Show(n.url) + "\">" + n.text + "</a>"
    else if n.textType == Image then "<img src=\"" + Show(n.url) + "\" alt=\"Image\"/>"
    else n.text
  }

  /** The legacy render of an image depends only on its url, never on the
      alt text the node carries. */
  lemma RenderImageIgnoresText(a: TextNode, b: TextNode)
    requires a.textType == Image && b.textType == Image && a.url == b.url
    ensures Render(a) == Render(b)
  {
  }

  /** For the three wrapping kinds the text sits unchanged between a
      three-character opening tag and a four-character closing tag, so it
      can be read back from the rendering. */
  lemma RenderWrapsText(n: TextNode)
    requires n.textType in {Bold, Italic, Underline}
    ensures |Render(n)| == |n.text| + 7
    ensures Render(n)[3..|Render(n)| - 4] == n.text
    ensures Render(n)[..3] == "<" + [TagLetter(n.textType)] + ">"
    ensures Render(n)[|Render(n)| - 4..] == "</" + [TagLetter(n.textType)] + ">"
  {
  }

  /** The kinds `render` has no case for (TEXT and CODE) come out as
      their bare text. */
  lemma RenderOthersVerbatim(n: TextNode)
    requires n.textType == Text || n.textType == Code
    ensures Render(n) == n.text
  {
  }

  function TagLetter(t: TextType): char
    requires t in {Bold, Italic, Underline}
  {
    match t
    case Bold => 'b'
    case Italic => 'i'
    case Underline => 'u'
  }
}
