/** The inline tokenizer (src/markdown.py:16-117): it turns a line of
    markdown into text nodes. Images and links are cut out first, then the
    plain text is split on `**`, `*`, `_` and a backtick, in that order. */
module Inline {
  import opened Wrappers
  import opened Strings
  import opened TextNodes

  datatype MarkdownError =
    | UnclosedDelimiter(delimiter: string)   // split_nodes_delimiter
    | UnknownTextType(textType: TextType)    // text_node_to_html_node
    | NoTitle                                // extract_title

  function Plain(s: string): TextNode
  {
    TextNode(s, Text, None)
  }

  // ---------------------------------------------------------------------
  // split_nodes_delimiter
  // ---------------------------------------------------------------------

  /** The nodes the parts `parts[from..]` of a split TEXT node become: a
      part at an even index stays TEXT, one at an odd index takes
      `textType`, and an empty part is dropped. */
  function Pieces(parts: seq<string>, from: nat, textType: TextType): seq<TextNode>
    requires from <= |parts|
    decreases |parts| - from
  {
    if from == |parts| then [] else PieceAt(parts, from, textType) + Pieces(parts, from + 1, textType)
  }

  /** What part `i` becomes: nothing when it is empty. */
  function PieceAt(parts: seq<string>, i: nat, textType: TextType): seq<TextNode>
    requires i < |parts|
  {
    var kind := if i % 2 == 0 then Text else textType;
    if parts[i] == "" then [] else [TextNode(parts[i], kind, None)]
  }

  /** What one node becomes in `split_nodes_delimiter`. */
  function SplitNode(node: TextNode, delimiter: string, textType: TextType): Result<seq<TextNode>, MarkdownError>
    requires |delimiter| > 0
  {
    if node.textType != Text then Ok([node])
    else
      var parts := Split(node.text, delimiter);
      if |parts| % 2 == 0 then Err(UnclosedDelimiter(delimiter))
      else Ok(Pieces(parts, 0, textType))
  }

  /** The specification of `split_nodes_delimiter`: every node's output, in
      the order of the input, or the error of the first TEXT node whose
      delimiters are unbalanced. */
  function DelimiterSplit(nodes: seq<TextNode>, delimiter: string, textType: TextType): Result<seq<TextNode>, MarkdownError>
    requires |delimiter| > 0
    decreases |nodes|
  {
    if nodes == [] then Ok([])
    else
      var first :- SplitNode(nodes[0], delimiter, textType);
      Prepend(first, DelimiterSplit(nodes[1..], delimiter, textType))
  }

  method SplitNodesDelimiter(oldNodes: seq<TextNode>, delimiter: string, textType: TextType)
    returns (r: Result<seq<TextNode>, MarkdownError>)
    requires |delimiter| > 0
    ensures r == DelimiterSplit(oldNodes, delimiter, textType)
  {
    var newNodes: seq<TextNode> := [];
    var k := 0;
    assert oldNodes[k..] == oldNodes;
    PrependNothing(DelimiterSplit(oldNodes, delimiter, textType));
    while k < |oldNodes|
      invariant 0 <= k <= |oldNodes|
      invariant DelimiterSplit(oldNodes, delimiter, textType)
                == Prepend(newNodes, DelimiterSplit(oldNodes[k..], delimiter, textType))
    {
      var node := oldNodes[k];
      assert oldNodes[k..][1..] == oldNodes[k + 1..];
      ghost var rest := DelimiterSplit(oldNodes[k + 1..], delimiter, textType);
      if node.textType != Text {
        PrependTwice(newNodes, [node], rest);
        newNodes := newNodes + [node];
        k := k + 1;
        continue;
      }
      var parts := Split(node.text, delimiter);
      if |parts| % 2 == 0 {
        return Err(UnclosedDelimiter(delimiter));
      }
      var pieces := AppendPieces(parts, textType);
      PrependTwice(newNodes, pieces, rest);
      newNodes := newNodes + pieces;
      k := k + 1;
    }
    assert oldNodes[k..] == [];
    assert newNodes + [] == newNodes;
    return Ok(newNodes);
  }

  /** The inner loop of `split_nodes_delimiter` over the parts of one TEXT
      node: the nodes it appends. */
  method AppendPieces(parts: seq<string>, textType: TextType) returns (newNodes: seq<TextNode>)
    ensures newNodes == Pieces(parts, 0, textType)
  {
    newNodes := [];
    var i := 0;
    while i < |parts|
      invariant 0 <= i <= |parts|
      invariant Pieces(parts, 0, textType) == newNodes + Pieces(parts, i, textType)
    {
      ghost var before := newNodes;
      var part := parts[i];
      if part != "" {
        if i % 2 == 0 {
          newNodes := newNodes + [TextNode(part, Text, None)];
        } else {
          newNodes := newNodes + [TextNode(part, textType, None)];
        }
      }
      assert newNodes == before + PieceAt(parts, i, textType);
      AppendAssociates(before, PieceAt(parts, i, textType), Pieces(parts, i + 1, textType));
      i := i + 1;
    }
    assert newNodes + [] == newNodes;
  }

  // ---------------------------------------------------------------------
  // extract_markdown_images, extract_markdown_links: the two fixed
  // patterns, tried at one index and then scanned left to right
  // ---------------------------------------------------------------------

  /** A match of the image or link pattern: `s[start..stop]` is the markup,
      `text` the alt text or the link text. */
  datatype Match = Match(start: nat, stop: nat, text: string, url: string)

  /** `![caption](url)` for an image, `[caption](url)` for a link. */
  function Markup(kind: TextType, caption: string, url: string): (m: string)
    ensures |m| >= 4
  {
    (if kind == Image then "![" else "[") + caption + "](" + url + ")"
  }

  /** What a match of either pattern guarantees. */
  ghost predicate WellFormed(kind: TextType, s: string, m: Match)
  {
    && m.start < m.stop <= |s|
    && s[m.start..m.stop] == Markup(kind, m.text, m.url)
    && ']' !in m.text
    && |m.url| > 0 && ')' !in m.url
    && (kind == Link ==> |m.text| > 0 && (m.start == 0 || s[m.start - 1] != '!'))
  }

  lemma SliceAvoids(s: string, a: nat, b: nat, c: char)
    requires a <= b <= |s|
    requires forall x :: a <= x < b ==> s[x] != c
    ensures c !in s[a..b]
  {
    forall x | 0 <= x < b - a ensures s[a..b][x] != c {
      assert s[a..b][x] == s[a + x];
    }
  }

  /** The pieces the image pattern finds at `i`, `j` and `k` make a
      well-formed match. */
  lemma ImageMatch(s: string, i: nat, j: nat, k: nat)
    requires i + 2 <= j && j + 2 < k < |s|
    requires s[i] == '!' && s[i + 1] == '[' && s[j] == ']' && s[j + 1] == '(' && s[k] == ')'
    requires forall x :: i + 2 <= x < j ==> s[x] != ']'
    requires forall x :: j + 2 <= x < k ==> s[x] != ')'
    ensures WellFormed(Image, s, Match(i, k + 1, s[i + 2..j], s[j + 2..k]))
  {
    SliceAvoids(s, i + 2, j, ']');
    SliceAvoids(s, j + 2, k, ')');
    assert s[i..i + 2] == "![";
    assert s[j..j + 2] == "](";
    assert s[k..k + 1] == ")";
    assert s[i..k + 1] == s[i..i + 2] + s[i + 2..j] + s[j..j + 2] + s[j + 2..k] + s[k..k + 1];
  }

  /** The pieces the link pattern finds at `i`, `j` and `k` make a
      well-formed match. */
  lemma LinkMatch(s: string, i: nat, j: nat, k: nat)
    requires i + 1 < j && j + 2 < k < |s|
    requires s[i] == '[' && (i == 0 || s[i - 1] != '!') && s[j] == ']' && s[j + 1] == '(' && s[k] == ')'
    requires forall x :: i + 1 <= x < j ==> s[x] != ']'
    requires forall x :: j + 2 <= x < k ==> s[x] != ')'
    ensures WellFormed(Link, s, Match(i, k + 1, s[i + 1..j], s[j + 2..k]))
  {
    SliceAvoids(s, i + 1, j, ']');
    SliceAvoids(s, j + 2, k, ')');
    assert s[i..i + 1] == "[";
    assert s[j..j + 2] == "](";
    assert s[k..k + 1] == ")";
    assert s[i..k + 1] == s[i..i + 1] + s[i + 1..j] + s[j..j + 2] + s[j + 2..k] + s[k..k + 1];
  }

  /** The pattern `!\[([^\]]*)\]\(([^)]+)\)` tried at index `i`: the alt
      text runs to the first `]`, the url to the first `)` after `](`. */
  function ImageAt(s: string, i: nat): (m: Option<Match>)
    ensures m.Some? ==> m.value.start == i && WellFormed(Image, s, m.value)
  {
    if i + 1 < |s| && s[i] == '!' && s[i + 1] == '[' then
      match FindChar(s, ']', i + 2)
      case None => None
      case Some(j) =>
        if j + 1 < |s| && s[j + 1] == '(' then
          match FindChar(s, ')', j + 2)
          case None => None
          case Some(k) =>
            if k > j + 2 then
              ImageMatch(s, i, j, k);
              Some(Match(i, k + 1, s[i + 2..j], s[j + 2..k]))
            else None
        else None
    else None
  }

  /** The pattern `(?<!!)\[([^\]]+)\]\(([^)]+)\)` tried at index `i`: as
      for an image, but the text is non-empty and the `[` must not follow
      a `!` anywhere in `s`. */
  function LinkAt(s: string, i: nat): (m: Option<Match>)
    ensures m.Some? ==> m.value.start == i && WellFormed(Link, s, m.value)
  {
    if i < |s| && s[i] == '[' && (i == 0 || s[i - 1] != '!') then
      match FindChar(s, ']', i + 1)
      case None => None
      case Some(j) =>
        if j > i + 1 && j + 1 < |s| && s[j + 1] == '(' then
          match FindChar(s, ')', j + 2)
          case None => None
          case Some(k) =>
            if k > j + 2 then
              LinkMatch(s, i, j, k);
              Some(Match(i, k + 1, s[i + 1..j], s[j + 2..k]))
            else None
        else None
    else None
  }

  /** `FindChar` returns the first index holding `c`. */
  lemma FindCharIs(s: string, c: char, from: nat, r: nat)
    requires from <= r < |s| && s[r] == c
    requires forall x :: from <= x < r ==> s[x] != c
    ensures FindChar(s, c, from) == Some(r)
  {
  }

  /** Reading `t` back from `s` at `a`, character by character. */
  lemma SliceIs(s: string, a: nat, t: string)
    requires a + |t| <= |s|
    requires forall x :: 0 <= x < |t| ==> s[a + x] == t[x]
    ensures s[a..a + |t|] == t
  {
  }

  /** A stretch of `s` equal to a string without `c` holds no `c`. */
  lemma SliceLacksChar(s: string, a: nat, t: string, c: char)
    requires a + |t| <= |s| && s[a..a + |t|] == t && c !in t
    ensures forall x :: a <= x < a + |t| ==> s[x] != c
  {
    forall x | a <= x < a + |t| ensures s[x] != c {
      assert s[x] == t[x - a];
    }
  }

  /** The markup of a well-formed match, read character by character. */
  lemma MarkupChars(kind: TextType, s: string, m: Match)
    requires WellFormed(kind, s, m)
    ensures forall y :: 0 <= y < |Markup(kind, m.text, m.url)| ==>
              s[m.start + y] == Markup(kind, m.text, m.url)[y]
  {
    var mk := Markup(kind, m.text, m.url);
    forall y | 0 <= y < |mk| ensures s[m.start + y] == mk[y] {
      assert s[m.start..m.stop][y] == mk[y];
    }
  }

  /** The characters of a well-formed match, read back from the string:
      the opening (`![` or `[`), the text, `](`, the url and `)`. */
  lemma MatchPieces(kind: TextType, s: string, m: Match, o: nat)
    requires WellFormed(kind, s, m)
    requires o == (if kind == Image then 2 else 1)
    ensures m.start + o + |m.text| + 2 + |m.url| + 1 == m.stop
    ensures kind == Image ==> s[m.start] == '!' && s[m.start + 1] == '['
    ensures kind != Image ==> s[m.start] == '['
    ensures s[m.start + o..m.start + o + |m.text|] == m.text
    ensures s[m.start + o + |m.text|] == ']' && s[m.start + o + |m.text| + 1] == '('
    ensures s[m.start + o + |m.text| + 2..m.stop - 1] == m.url
    ensures s[m.stop - 1] == ')'
  {
    MatchLength(kind, m, o);
    MatchText(kind, s, m, o);
    MatchUrl(kind, s, m, o);
    MatchPunctuation(kind, s, m, o);
  }

  lemma MatchLength(kind: TextType, m: Match, o: nat)
    requires o == (if kind == Image then 2 else 1)
    ensures |Markup(kind, m.text, m.url)| == o + |m.text| + 2 + |m.url| + 1
  {
  }

  lemma MatchText(kind: TextType, s: string, m: Match, o: nat)
    requires WellFormed(kind, s, m)
    requires o == (if kind == Image then 2 else 1)
    ensures m.start + o + |m.text| <= |s| && s[m.start + o..m.start + o + |m.text|] == m.text
  {
    var mk := Markup(kind, m.text, m.url);
    MatchLength(kind, m, o);
    MarkupChars(kind, s, m);
    assert forall x :: 0 <= x < |m.text| ==> mk[o + x] == m.text[x];
    MarkupText(s, m.start + o, m.text, mk, o);
  }

  lemma MatchUrl(kind: TextType, s: string, m: Match, o: nat)
    requires WellFormed(kind, s, m)
    requires o == (if kind == Image then 2 else 1)
    ensures m.start + o + |m.text| + 2 <= m.stop - 1
    ensures s[m.start + o + |m.text| + 2..m.stop - 1] == m.url
  {
    var a := o + |m.text| + 2;
    MatchLength(kind, m, o);
    MarkupHoldsUrl(kind, m.text, m.url, o);
    SliceOfSlice(s, m.start, m.stop, a, a + |m.url|);
  }

  /** A slice of a slice is a slice. */
  lemma SliceOfSlice(s: string, lo: nat, hi: nat, i: nat, j: nat)
    requires lo <= hi <= |s| && i <= j <= hi - lo
    ensures s[lo..hi][i..j] == s[lo + i..lo + j]
  {
    forall x | 0 <= x < j - i ensures s[lo..hi][i..j][x] == s[lo + i..lo + j][x] {
      assert s[lo..hi][i + x] == s[lo + i + x];
    }
  }

  /** The url sits in the markup after the opener, the caption and `](`. */
  lemma MarkupHoldsUrl(kind: TextType, caption: string, url: string, o: nat)
    requires o == (if kind == Image then 2 else 1)
    ensures var a := o + |caption| + 2;
            a + |url| <= |Markup(kind, caption, url)| && Markup(kind, caption, url)[a..a + |url|] == url
  {
    var head := (if kind == Image then "![" else "[") + caption + "](";
    assert |head| == o + |caption| + 2;
    assert Markup(kind, caption, url) == head + url + ")";
  }

  lemma MatchPunctuation(kind: TextType, s: string, m: Match, o: nat)
    requires WellFormed(kind, s, m)
    requires o == (if kind == Image then 2 else 1)
    ensures kind == Image ==> s[m.start] == '!' && s[m.start + 1] == '['
    ensures kind != Image ==> s[m.start] == '['
    ensures m.start + o + |m.text| + 1 < |s|
    ensures s[m.start + o + |m.text|] == ']' && s[m.start + o + |m.text| + 1] == '('
    ensures s[m.stop - 1] == ')'
  {
    var mk := Markup(kind, m.text, m.url);
    var t := o + |m.text|;
    MatchLength(kind, m, o);
    MarkupChars(kind, s, m);
    assert mk[t] == ']' && mk[t + 1] == '(';
    assert mk[|mk| - 1] == ')';
    assert mk[0] == (if kind == Image then '!' else '[');
    if kind == Image {
      assert mk[1] == '[';
    }
  }

  /** Where `mk`, read in `s` at `a - at`, holds `t` at `at`, `s` holds `t`
      at `a`. */
  lemma MarkupText(s: string, a: nat, t: string, mk: string, at: nat)
    requires at <= a && at + |t| <= |mk| && a - at + |mk| <= |s|
    requires forall y :: 0 <= y < |mk| ==> s[a - at + y] == mk[y]
    requires forall x :: 0 <= x < |t| ==> mk[at + x] == t[x]
    ensures a + |t| <= |s| && s[a..a + |t|] == t
  {
    forall x | 0 <= x < |t| ensures s[a + x] == t[x] {
      assert s[a - at + (at + x)] == mk[at + x];
    }
    SliceIs(s, a, t);
  }

  /** `ImageAt` at `i` when `]` first follows at `j` and `)` first follows
      `](` at `k`. */
  lemma ImageAtFinds(s: string, i: nat, j: nat, k: nat)
    requires i + 2 <= j && j + 2 < k < |s|
    requires s[i] == '!' && s[i + 1] == '[' && s[j] == ']' && s[j + 1] == '(' && s[k] == ')'
    requires forall x :: i + 2 <= x < j ==> s[x] != ']'
    requires forall x :: j + 2 <= x < k ==> s[x] != ')'
    ensures ImageAt(s, i) == Some(Match(i, k + 1, s[i + 2..j], s[j + 2..k]))
  {
    FindCharIs(s, ']', i + 2, j);
    FindCharIs(s, ')', j + 2, k);
  }

  /** `LinkAt` at `i` when `]` first follows at `j` and `)` first follows
      `](` at `k`. */
  lemma LinkAtFinds(s: string, i: nat, j: nat, k: nat)
    requires i + 1 < j && j + 2 < k < |s|
    requires s[i] == '[' && (i == 0 || s[i - 1] != '!') && s[j] == ']' && s[j + 1] == '(' && s[k] == ')'
    requires forall x :: i + 1 <= x < j ==> s[x] != ']'
    requires forall x :: j + 2 <= x < k ==> s[x] != ')'
    ensures LinkAt(s, i) == Some(Match(i, k + 1, s[i + 1..j], s[j + 2..k]))
  {
    FindCharIs(s, ']', i + 1, j);
    FindCharIs(s, ')', j + 2, k);
  }

  /** Completeness of the image matcher: wherever the image pattern
      matches, `ImageAt` returns exactly that match. */
  lemma ImageAtComplete(s: string, m: Match)
    requires WellFormed(Image, s, m)
    ensures ImageAt(s, m.start) == Some(m)
  {
    MatchPieces(Image, s, m, 2);
    var i := m.start;
    var j := i + 2 + |m.text|;
    var k := j + 2 + |m.url|;
    SliceLacksChar(s, i + 2, m.text, ']');
    SliceLacksChar(s, j + 2, m.url, ')');
    ImageAtFinds(s, i, j, k);
  }

  /** Completeness of the link matcher: wherever the link pattern matches
      (not after a `!`), `LinkAt` returns exactly that match. */
  lemma LinkAtComplete(s: string, m: Match)
    requires WellFormed(Link, s, m)
    ensures LinkAt(s, m.start) == Some(m)
  {
    MatchPieces(Link, s, m, 1);
    var i := m.start;
    var j := i + 1 + |m.text|;
    var k := j + 2 + |m.url|;
    SliceLacksChar(s, i + 1, m.text, ']');
    SliceLacksChar(s, j + 2, m.url, ')');
    LinkAtFinds(s, i, j, k);
  }

  function MatchAt(kind: TextType, s: string, i: nat): (m: Option<Match>)
    requires kind == Image || kind == Link
    ensures m.Some? ==> m.value.start == i && WellFormed(kind, s, m.value)
  {
    if kind == Image then ImageAt(s, i) else LinkAt(s, i)
  }

  /** The matches `ms` lie in `s` at or after `from`, in order and without
      overlap, each one a genuine match of the pattern. */
  ghost predicate Found(kind: TextType, s: string, ms: seq<Match>, from: nat)
    decreases |ms|
  {
    ms == [] || (from <= ms[0].start && WellFormed(kind, s, ms[0]) && Found(kind, s, ms[1..], ms[0].stop))
  }

  /** `re.findall` from index `from`: try the pattern at each index; after a
      match, go on from its end. */
  function Scan(kind: TextType, s: string, from: nat): (ms: seq<Match>)
    requires kind == Image || kind == Link
    ensures Found(kind, s, ms, from)
    decreases |s| - from
  {
    if from >= |s| then []
    else
      match MatchAt(kind, s, from)
      case Some(m) => [m] + Scan(kind, s, m.stop)
      case None => Scan(kind, s, from + 1)
  }

  /** Every match `Found` lists is well formed and after `from`. */
  lemma {:induction false} FoundEach(kind: TextType, s: string, ms: seq<Match>, from: nat)
    requires Found(kind, s, ms, from)
    ensures forall k :: 0 <= k < |ms| ==> from <= ms[k].start && WellFormed(kind, s, ms[k])
    ensures forall k :: 0 <= k < |ms| - 1 ==> ms[k].stop <= ms[k + 1].start
    decreases |ms|
  {
    if ms != [] {
      FoundEach(kind, s, ms[1..], ms[0].stop);
      forall k | 0 < k < |ms| ensures ms[k] == ms[1..][k - 1] { }
    }
  }

  /** Index `i` lies inside one of the matches `ms`. */
  ghost predicate Covered(ms: seq<Match>, i: int)
  {
    exists k :: 0 <= k < |ms| && ms[k].start <= i < ms[k].stop
  }

  /** Wherever the matcher succeeds at or after `from`, that index lies
      inside a match the scan returned. */
  lemma {:induction false} ScanCovers(kind: TextType, s: string, from: nat, i: nat)
    requires kind == Image || kind == Link
    requires from <= i && MatchAt(kind, s, i).Some?
    ensures Covered(Scan(kind, s, from), i)
    decreases |s| - from
  {
    var m := MatchAt(kind, s, i).value;
    assert i < |s|;
    match MatchAt(kind, s, from)
    case Some(first) =>
      var rest := Scan(kind, s, first.stop);
      assert Scan(kind, s, from) == [first] + rest;
      if i >= first.stop {
        ScanCovers(kind, s, first.stop, i);
      }
      CoveredCons(first, rest, i);
    case None =>
      if i > from {
        ScanCovers(kind, s, from + 1, i);
      }
  }

  /** A match in front keeps covered what was covered, and adds its own
      span. */
  lemma CoveredCons(first: Match, rest: seq<Match>, i: nat)
    requires Covered(rest, i) || first.start <= i < first.stop
    ensures Covered([first] + rest, i)
  {
    if first.start <= i < first.stop {
      assert ([first] + rest)[0] == first;
    } else {
      var k :| 0 <= k < |rest| && rest[k].start <= i < rest[k].stop;
      assert ([first] + rest)[k + 1] == rest[k];
    }
  }

  /** Both matchers find every match of their pattern. */
  lemma MatchAtComplete(kind: TextType, s: string, m: Match)
    requires kind == Image || kind == Link
    requires WellFormed(kind, s, m)
    ensures MatchAt(kind, s, m.start) == Some(m)
  {
    if kind == Image {
      ImageAtComplete(s, m);
    } else {
      LinkAtComplete(s, m);
    }
  }

  /** `re.findall` skips no match: every match of the pattern at or after
      `from` is returned by the scan, unless it begins inside an earlier
      match the scan returned (findall does not overlap matches). */
  lemma ScanMissesNothing(kind: TextType, s: string, from: nat, m: Match)
    requires kind == Image || kind == Link
    requires from <= m.start && WellFormed(kind, s, m)
    ensures var ms := Scan(kind, s, from);
            m in ms || exists k :: 0 <= k < |ms| && ms[k].start < m.start < ms[k].stop
  {
    var ms := Scan(kind, s, from);
    MatchAtComplete(kind, s, m);
    ScanCovers(kind, s, from, m.start);
    var k :| 0 <= k < |ms| && ms[k].start <= m.start < ms[k].stop;
    FoundEach(kind, s, ms, from);
    if ms[k].start == m.start {
      MatchAtComplete(kind, s, ms[k]);
    }
  }

  /** The nodes the extractors return for a list of matches. */
  function ToNodes(kind: TextType, ms: seq<Match>): (nodes: seq<TextNode>)
    ensures |nodes| == |ms|
    ensures forall k :: 0 <= k < |ms| ==> nodes[k] == TextNode(ms[k].text, kind, Some(ms[k].url))
  {
    if ms == [] then [] else [TextNode(ms[0].text, kind, Some(ms[0].url))] + ToNodes(kind, ms[1..])
  }

  /** The nodes made from found matches carry the matched text and url, and
      each node's markup occurs in the scanned string. */
  lemma FoundNodesOccur(kind: TextType, s: string, ms: seq<Match>, from: nat)
    requires kind == Image || kind == Link
    requires Found(kind, s, ms, from)
    ensures forall k :: 0 <= k < |ms| ==>
              && ToNodes(kind, ms)[k].textType == kind && ToNodes(kind, ms)[k].url == Some(ms[k].url)
              && ToNodes(kind, ms)[k].text == ms[k].text && WellFormed(kind, s, ms[k])
              && OccursIn(s, MarkupOf(ToNodes(kind, ms)[k]))
  {
    FoundEach(kind, s, ms, from);
    var nodes := ToNodes(kind, ms);
    forall k | 0 <= k < |ms| ensures OccursIn(s, MarkupOf(nodes[k])) {
      MatchNodeOccurs(kind, s, ms[k]);
    }
  }

  /** The node made from one match has its markup at the match's start. */
  lemma MatchNodeOccurs(kind: TextType, s: string, m: Match)
    requires WellFormed(kind, s, m)
    ensures OccursAt(s, MarkupOf(TextNode(m.text, kind, Some(m.url))), m.start)
  {
    assert MarkupOf(TextNode(m.text, kind, Some(m.url))) == Markup(kind, m.text, m.url);
  }

  /** `extract_markdown_images`: the IMAGE nodes of the image pattern's
      matches, left to right. */
  function ExtractMarkdownImages(text: string): (nodes: seq<TextNode>)
    ensures forall k :: 0 <= k < |nodes| ==>
              && nodes[k].textType == Image && ']' !in nodes[k].text
              && nodes[k].url.Some? && |nodes[k].url.value| > 0 && ')' !in nodes[k].url.value
              && OccursIn(text, MarkupOf(nodes[k]))
  {
    var ms := Scan(Image, text, 0);
    FoundNodesOccur(Image, text, ms, 0);
    ToNodes(Image, ms)
  }

  /** `extract_markdown_links`: the LINK nodes of the link pattern's
      matches, left to right; no link text is empty and none of them comes
      right after a `!`. */
  function ExtractMarkdownLinks(text: string): (nodes: seq<TextNode>)
    ensures forall k :: 0 <= k < |nodes| ==>
              && nodes[k].textType == Link && |nodes[k].text| > 0 && ']' !in nodes[k].text
              && nodes[k].url.Some? && |nodes[k].url.value| > 0 && ')' !in nodes[k].url.value
              && OccursIn(text, MarkupOf(nodes[k]))
  {
    var ms := Scan(Link, text, 0);
    FoundNodesOccur(Link, text, ms, 0);
    ToNodes(Link, ms)
  }

  ghost predicate OccursIn(text: string, piece: string)
  {
    exists i :: OccursAt(text, piece, i)
  }

  function Extract(kind: TextType, text: string): seq<TextNode>
    requires kind == Image || kind == Link
  {
    if kind == Image then ExtractMarkdownImages(text) else ExtractMarkdownLinks(text)
  }

  /** The extractors are complete: every match of the pattern in the text
      gives a node, unless it begins inside an earlier match that
      `re.findall` returned and so consumed first. */
  lemma ExtractFindsEveryMatch(kind: TextType, text: string, m: Match)
    requires kind == Image || kind == Link
    requires WellFormed(kind, text, m)
    ensures || TextNode(m.text, kind, Some(m.url)) in Extract(kind, text)
            || exists m2 :: m2 in Scan(kind, text, 0) && m2.start < m.start < m2.stop
  {
    var ms := Scan(kind, text, 0);
    ScanMissesNothing(kind, text, 0, m);
    if m in ms {
      var k :| 0 <= k < |ms| && ms[k] == m;
      ExtractedAt(kind, text, k);
    } else {
      var k :| 0 <= k < |ms| && ms[k].start < m.start < ms[k].stop;
      assert ms[k] in ms;
    }
  }

  /** The extractor's node for the `k`-th match of the scan. */
  lemma ExtractedAt(kind: TextType, text: string, k: nat)
    requires kind == Image || kind == Link
    requires k < |Scan(kind, text, 0)|
    ensures var m := Scan(kind, text, 0)[k];
            TextNode(m.text, kind, Some(m.url)) in Extract(kind, text)
  {
    var ms := Scan(kind, text, 0);
    assert Extract(kind, text) == ToNodes(kind, ms);
    assert ToNodes(kind, ms)[k] == TextNode(ms[k].text, kind, Some(ms[k].url));
  }

  // ---------------------------------------------------------------------
  // split_nodes_image, split_nodes_link
  // ---------------------------------------------------------------------

  /** The markup an IMAGE or LINK node was cut from, as the f-string at
      src/markdown.py:70 and :96 rebuilds it. */
  function MarkupOf(n: TextNode): string
  {
    Markup(n.textType, n.text, Show(n.url))
  }

  /** `sections[0]` of `text.split(markup, 1)`: the text before the first
      occurrence of `markup`, or all of it. */
  function Before(text: string, markup: string): string
    requires |markup| > 0
  {
    SplitOnce(text, markup)[0]
  }

  /** `sections[1] if len(sections) > 1 else ""`: the text after the first
      occurrence of `markup`, or nothing. */
  function After(text: string, markup: string): string
    requires |markup| > 0
  {
    var sections := SplitOnce(text, markup);
    if |sections| > 1 then sections[1] else ""
  }

  /** What one match contributes to the output: the non-empty text before
      the first occurrence of its markup, then the node itself. */
  function CutAt(text: string, n: TextNode): seq<TextNode>
  {
    var before := Before(text, MarkupOf(n));
    (if before != "" then [Plain(before)] else []) + [n]
  }

  /** The loop over the extracted nodes: cut the remaining text at the
      first occurrence of each node's markup, emit the non-empty text before
      it and the node, and go on with the text after it; the non-empty rest
      is emitted at the end. */
  function CutAround(text: string, found: seq<TextNode>): seq<TextNode>
    decreases |found|
  {
    if found == [] then (if text != "" then [Plain(text)] else [])
    else CutAt(text, found[0]) + CutAround(After(text, MarkupOf(found[0])), found[1..])
  }

  /** What one node becomes in `split_nodes_image` (kind IMAGE) or
      `split_nodes_link` (kind LINK). */
  function SplitNodeMarkup(kind: TextType, node: TextNode): seq<TextNode>
    requires kind == Image || kind == Link
  {
    if node.textType != Text then [node]
    else
      var found := Extract(kind, node.text);
      if found == [] then [node] else CutAround(node.text, found)
  }

  /** The specification of `split_nodes_image` and `split_nodes_link`. */
  function MarkupSplit(kind: TextType, nodes: seq<TextNode>): seq<TextNode>
    requires kind == Image || kind == Link
    decreases |nodes|
  {
    if nodes == [] then [] else SplitNodeMarkup(kind, nodes[0]) + MarkupSplit(kind, nodes[1..])
  }

  method SplitNodesImage(oldNodes: seq<TextNode>) returns (newNodes: seq<TextNode>)
    ensures newNodes == MarkupSplit(Image, oldNodes)
  {
    newNodes := SplitNodesMarkup(oldNodes, Image);
  }

  method SplitNodesLink(oldNodes: seq<TextNode>) returns (newNodes: seq<TextNode>)
    ensures newNodes == MarkupSplit(Link, oldNodes)
  {
    newNodes := SplitNodesMarkup(oldNodes, Link);
  }

  /** The loop both `split_nodes_image` and `split_nodes_link` run over the
      nodes; they differ only in the extractor. */
  method SplitNodesMarkup(oldNodes: seq<TextNode>, kind: TextType) returns (newNodes: seq<TextNode>)
    requires kind == Image || kind == Link
    ensures newNodes == MarkupSplit(kind, oldNodes)
  {
    newNodes := [];
    var k := 0;
    assert oldNodes[k..] == oldNodes;
    while k < |oldNodes|
      invariant 0 <= k <= |oldNodes|
      invariant MarkupSplit(kind, oldNodes) == newNodes + MarkupSplit(kind, oldNodes[k..])
    {
      var node := oldNodes[k];
      ghost var done := newNodes;
      if node.textType != Text {
        newNodes := newNodes + [node];
      } else {
        var found := if kind == Image then ExtractMarkdownImages(node.text) else ExtractMarkdownLinks(node.text);
        if found == [] {
          newNodes := newNodes + [node];
        } else {
          var cut := AppendCuts(node.text, found);
          newNodes := newNodes + cut;
        }
      }
      MarkupSplitStep(kind, oldNodes, k, done, newNodes);
      k := k + 1;
    }
    assert oldNodes[k..] == [];
    assert newNodes + [] == newNodes;
  }

  /** One turn of the loop over the nodes: emitting node `k`'s split after
      `done` leaves the same output still to come. */
  lemma MarkupSplitStep(kind: TextType, nodes: seq<TextNode>, k: nat, done: seq<TextNode>, next: seq<TextNode>)
    requires kind == Image || kind == Link
    requires k < |nodes|
    requires next == done + SplitNodeMarkup(kind, nodes[k])
    ensures done + MarkupSplit(kind, nodes[k..]) == next + MarkupSplit(kind, nodes[k + 1..])
  {
    assert nodes[k..][1..] == nodes[k + 1..];
    AppendAssociates(done, SplitNodeMarkup(kind, nodes[k]), MarkupSplit(kind, nodes[k + 1..]));
  }

  /** The inner loop of `split_nodes_image` and `split_nodes_link`, which
      rebinds `text` to what follows each markup. */
  method AppendCuts(original: string, found: seq<TextNode>) returns (newNodes: seq<TextNode>)
    ensures newNodes == CutAround(original, found)
  {
    newNodes := [];
    var text := original;
    var j := 0;
    assert found[j..] == found;
    while j < |found|
      invariant 0 <= j <= |found|
      invariant CutAround(original, found) == newNodes + CutAround(text, found[j..])
    {
      var markup := MarkupOf(found[j]);
      var before := Before(text, markup);
      ghost var done := newNodes;
      if before != "" {
        newNodes := newNodes + [Plain(before)];
      }
      newNodes := newNodes + [found[j]];
      assert newNodes == done + CutAt(text, found[j]);
      CutAroundFrom(text, found, j, done, newNodes);
      text := After(text, markup);
      j := j + 1;
    }
    assert found[j..] == [];
    if text != "" {
      newNodes := newNodes + [Plain(text)];
    }
  }

  /** One turn of the loop over the matches: emitting what match `j`
      contributes after `done` leaves the same output still to come. */
  lemma CutAroundFrom(text: string, found: seq<TextNode>, j: nat, done: seq<TextNode>, next: seq<TextNode>)
    requires j < |found|
    requires next == done + CutAt(text, found[j])
    ensures done + CutAround(text, found[j..]) == next + CutAround(After(text, MarkupOf(found[j])), found[j + 1..])
  {
    assert found[j..][1..] == found[j + 1..];
    AppendAssociates(done, CutAt(text, found[j]), CutAround(After(text, MarkupOf(found[j])), found[j + 1..]));
  }

  // ---------------------------------------------------------------------
  // What the image and link passes keep: the markdown text
  // ---------------------------------------------------------------------

  /** The markdown a node stands for: an IMAGE or LINK node is its markup,
      any other node its text. */
  function Source(n: TextNode): string
  {
    if n.textType == Image || n.textType == Link then MarkupOf(n) else n.text
  }

  function Serialized(nodes: seq<TextNode>): string
  {
    if nodes == [] then "" else Source(nodes[0]) + Serialized(nodes[1..])
  }

  lemma {:induction false} SerializedAppend(a: seq<TextNode>, b: seq<TextNode>)
    ensures Serialized(a + b) == Serialized(a) + Serialized(b)
  {
    if a == [] {
      assert a + b == b;
    } else {
      assert (a + b)[1..] == a[1..] + b;
      SerializedAppend(a[1..], b);
    }
  }

  /** The first cut of `s[p..]` at a match that starts at or after `p`: the
      markup is found no later than the match, and what follows the cut is
      a suffix of `s` starting no later than the match's end. */
  lemma CutAtMatch(kind: TextType, s: string, p: nat, m: Match)
    requires kind == Image || kind == Link
    requires p <= m.start && WellFormed(kind, s, m)
    ensures var lit := Markup(kind, m.text, m.url);
            var cut := p + |Before(s[p..], lit)| + |lit|;
            && cut <= m.stop
            && After(s[p..], lit) == s[cut..]
            && s[p..] == Before(s[p..], lit) + lit + After(s[p..], lit)
  {
    var t := s[p..];
    var lit := Markup(kind, m.text, m.url);
    assert OccursAt(t, lit, m.start - p) by {
      assert t[m.start - p..m.start - p + |lit|] == s[m.start..m.stop];
    }
    SplitOnceParts(t, lit);
    var sections := SplitOnce(t, lit);
    var q := |sections[0]|;
    assert t[q + |lit|..] == sections[1] by {
      assert sections[0] + lit + sections[1] == t;
    }
  }

  lemma CutAroundStep(text: string, found: seq<TextNode>)
    requires found != []
    ensures var lit := MarkupOf(found[0]);
            var before := Before(text, lit);
            CutAround(text, found)
            == ((if before != "" then [Plain(before)] else []) + [found[0]]) + CutAround(After(text, lit), found[1..])
  {
  }

  lemma SerializedStep(before: string, n: TextNode, tail: seq<TextNode>)
    ensures Serialized(((if before != "" then [Plain(before)] else []) + [n]) + tail)
            == before + Source(n) + Serialized(tail)
  {
    var head := (if before != "" then [Plain(before)] else []) + [n];
    SerializedAppend(head, tail);
    assert Serialized([n]) == Source(n) + Serialized([]);
    if before != "" {
      assert head[1..] == [n];
    }
  }

  /** Cutting the text from `p` on around the matches found there, and
      writing the nodes back as markdown, gives back that text: every cut
      falls on an occurrence of the markup, never after its match. */
  lemma {:induction false} CutAroundRoundTrip(kind: TextType, s: string, p: nat, ms: seq<Match>)
    requires kind == Image || kind == Link
    requires p <= |s| && Found(kind, s, ms, p)
    ensures Serialized(CutAround(s[p..], ToNodes(kind, ms))) == s[p..]
    decreases |ms|
  {
    var t := s[p..];
    if ms == [] {
      if t != "" {
        assert Serialized([Plain(t)]) == t + Serialized([]);
      }
    } else {
      var m := ms[0];
      var nodes := ToNodes(kind, ms);
      var lit := MarkupOf(nodes[0]);
      assert lit == Markup(kind, m.text, m.url);
      CutAtMatch(kind, s, p, m);
      var before := Before(t, lit);
      var p2 := p + |before| + |lit|;
      assert Found(kind, s, ms[1..], p2);
      CutAroundRoundTrip(kind, s, p2, ms[1..]);
      assert nodes[1..] == ToNodes(kind, ms[1..]);
      var tail := CutAround(s[p2..], nodes[1..]);
      assert After(t, lit) == s[p2..];
      CutAroundStep(t, nodes);
      SerializedStep(before, nodes[0], tail);
    }
  }

  /** One node's split writes back to the node's own markdown. */
  lemma SplitNodeMarkupRoundTrip(kind: TextType, node: TextNode)
    requires kind == Image || kind == Link
    ensures Serialized(SplitNodeMarkup(kind, node)) == Source(node)
  {
    assert Serialized([node]) == Source(node) + Serialized([]);
    if node.textType == Text {
      var ms := Scan(kind, node.text, 0);
      assert Extract(kind, node.text) == ToNodes(kind, ms);
      assert node.text[0..] == node.text;
      CutAroundRoundTrip(kind, node.text, 0, ms);
    }
  }

  /** `split_nodes_image` and `split_nodes_link` change how the text is cut
      into nodes, never the markdown the nodes stand for. */
  lemma {:induction false} MarkupSplitRoundTrip(kind: TextType, nodes: seq<TextNode>)
    requires kind == Image || kind == Link
    ensures Serialized(MarkupSplit(kind, nodes)) == Serialized(nodes)
    decreases |nodes|
  {
    if nodes != [] {
      SplitNodeMarkupRoundTrip(kind, nodes[0]);
      MarkupSplitRoundTrip(kind, nodes[1..]);
      SerializedAppend(SplitNodeMarkup(kind, nodes[0]), MarkupSplit(kind, nodes[1..]));
    }
  }

  /** The first two passes of `text_to_textnodes` lose nothing of the text. */
  lemma ImagesThenLinksRoundTrip(text: string)
    ensures Serialized(MarkupSplit(Link, MarkupSplit(Image, [Plain(text)]))) == text
  {
    MarkupSplitRoundTrip(Link, MarkupSplit(Image, [Plain(text)]));
    MarkupSplitRoundTrip(Image, [Plain(text)]);
    assert Serialized([Plain(text)]) == text + Serialized([]);
  }

  /** A list in which no TEXT node holds a match comes back unchanged. */
  lemma {:induction false} MarkupSplitWithoutMatches(kind: TextType, nodes: seq<TextNode>)
    requires kind == Image || kind == Link
    requires forall k :: 0 <= k < |nodes| && nodes[k].textType == Text ==> Extract(kind, nodes[k].text) == []
    ensures MarkupSplit(kind, nodes) == nodes
    decreases |nodes|
  {
    if nodes != [] {
      MarkupSplitWithoutMatches(kind, nodes[1..]);
      assert [nodes[0]] + nodes[1..] == nodes;
    }
  }

  // ---------------------------------------------------------------------
  // What split_nodes_delimiter promises
  // ---------------------------------------------------------------------

  function Texts(nodes: seq<TextNode>): (r: seq<string>)
    ensures |r| == |nodes|
    ensures forall k :: 0 <= k < |nodes| ==> r[k] == nodes[k].text
  {
    if nodes == [] then [] else [nodes[0].text] + Texts(nodes[1..])
  }

  lemma TextsAppend(a: seq<TextNode>, b: seq<TextNode>)
    ensures Texts(a + b) == Texts(a) + Texts(b)
  {
  }

  /** A TEXT node whose text the delimiter cuts into an even number of
      parts: an opening delimiter is left unclosed. */
  ghost predicate Unbalanced(n: TextNode, delimiter: string)
    requires |delimiter| > 0
  {
    n.textType == Text && |Split(n.text, delimiter)| % 2 == 0
  }

  /** The pass fails exactly when some TEXT node is unbalanced, and the
      error names the delimiter. */
  lemma {:induction false} DelimiterSplitFailsIff(nodes: seq<TextNode>, delimiter: string, textType: TextType)
    requires |delimiter| > 0
    ensures DelimiterSplit(nodes, delimiter, textType).Err?
            <==> exists k :: 0 <= k < |nodes| && Unbalanced(nodes[k], delimiter)
    ensures DelimiterSplit(nodes, delimiter, textType).Err?
            ==> DelimiterSplit(nodes, delimiter, textType).error == UnclosedDelimiter(delimiter)
    decreases |nodes|
  {
    if nodes != [] {
      DelimiterSplitFailsIff(nodes[1..], delimiter, textType);
      if exists k :: 0 <= k < |nodes[1..]| && Unbalanced(nodes[1..][k], delimiter) {
        var k :| 0 <= k < |nodes[1..]| && Unbalanced(nodes[1..][k], delimiter);
        assert Unbalanced(nodes[k + 1], delimiter);
      }
      if exists k :: 0 <= k < |nodes| && Unbalanced(nodes[k], delimiter) {
        var k :| 0 <= k < |nodes| && Unbalanced(nodes[k], delimiter);
        if k > 0 {
          assert Unbalanced(nodes[1..][k - 1], delimiter);
        }
      }
    }
  }

  /** A list with no TEXT node passes through unchanged. */
  lemma {:induction false} DelimiterSplitWithoutText(nodes: seq<TextNode>, delimiter: string, textType: TextType)
    requires |delimiter| > 0
    requires forall k :: 0 <= k < |nodes| ==> nodes[k].textType != Text
    ensures DelimiterSplit(nodes, delimiter, textType) == Ok(nodes)
    decreases |nodes|
  {
    if nodes != [] {
      DelimiterSplitWithoutText(nodes[1..], delimiter, textType);
      assert [nodes[0]] + nodes[1..] == nodes;
    }
  }

  /** The pass treats the nodes one at a time: on a concatenation it gives
      the concatenation of the results, or the first error. */
  lemma {:induction false} DelimiterSplitAppend(a: seq<TextNode>, b: seq<TextNode>, delimiter: string, textType: TextType)
    requires |delimiter| > 0
    ensures DelimiterSplit(a + b, delimiter, textType)
            == (var x :- DelimiterSplit(a, delimiter, textType); Prepend(x, DelimiterSplit(b, delimiter, textType)))
    decreases |a|
  {
    if a == [] {
      assert a + b == b;
      PrependNothing(DelimiterSplit(b, delimiter, textType));
    } else {
      assert (a + b)[1..] == a[1..] + b;
      assert (a + b)[0] == a[0];
      DelimiterSplitAppend(a[1..], b, delimiter, textType);
      var first := SplitNode(a[0], delimiter, textType);
      var restA := DelimiterSplit(a[1..], delimiter, textType);
      if first.Ok? && restA.Ok? {
        PrependTwice(first.value, restA.value, DelimiterSplit(b, delimiter, textType));
      }
    }
  }

  /** The type `split_nodes_delimiter` gives part `i`: TEXT outside the
      delimiters (even index), the target type inside them (odd index). */
  function PartType(i: nat, textType: TextType): TextType
  {
    if i % 2 == 0 then Text else textType
  }

  /** A node `Pieces` makes from `parts[from..]`: non-empty, without url,
      its text part `i` and its type the one that part's parity gives. */
  ghost predicate PieceOf(n: TextNode, parts: seq<string>, from: nat, textType: TextType)
  {
    && n.text != "" && n.url == None
    && (n.textType == Text || n.textType == textType)
    && exists i :: from <= i < |parts| && n.text == parts[i] && n.textType == PartType(i, textType)
  }

  lemma {:induction false} PiecesOrigin(parts: seq<string>, from: nat, textType: TextType)
    requires from <= |parts|
    ensures forall k :: 0 <= k < |Pieces(parts, from, textType)| ==>
              PieceOf(Pieces(parts, from, textType)[k], parts, from, textType)
    decreases |parts| - from
  {
    if from < |parts| {
      PiecesOrigin(parts, from + 1, textType);
      var ps := Pieces(parts, from, textType);
      var tail := Pieces(parts, from + 1, textType);
      var d := |ps| - |tail|;
      forall k | 0 <= k < |ps| ensures PieceOf(ps[k], parts, from, textType) {
        if k >= d {
          assert ps[k] == tail[k - d];
          assert PieceOf(tail[k - d], parts, from + 1, textType);
        } else {
          assert ps[k].text == parts[from] && ps[k].textType == PartType(from, textType);
        }
      }
    }
  }

  /** The texts of the nodes of type `t`, put together. */
  function TextOfType(nodes: seq<TextNode>, t: TextType): string
  {
    if nodes == [] then ""
    else (if nodes[0].textType == t then nodes[0].text else "") + TextOfType(nodes[1..], t)
  }

  /** The parts from `from` on whose index is odd (`odd`) or even, put
      together. */
  function PartsOfParity(parts: seq<string>, from: nat, odd: bool): string
    requires from <= |parts|
    decreases |parts| - from
  {
    if from == |parts| then ""
    else (if (from % 2 == 1) == odd then parts[from] else "") + PartsOfParity(parts, from + 1, odd)
  }

  lemma {:induction false} TextOfTypeAppend(a: seq<TextNode>, b: seq<TextNode>, t: TextType)
    ensures TextOfType(a + b, t) == TextOfType(a, t) + TextOfType(b, t)
    decreases |a|
  {
    if a == [] {
      assert a + b == b;
    } else {
      assert (a + b)[1..] == a[1..] + b;
      TextOfTypeAppend(a[1..], b, t);
    }
  }

  /** The typing of `split_nodes_delimiter`: the target-type pieces spell
      the odd parts (the text between delimiters), the TEXT pieces the even
      parts (the text outside them). */
  lemma {:induction false} PiecesTyped(parts: seq<string>, from: nat, textType: TextType)
    requires from <= |parts| && textType != Text
    ensures TextOfType(Pieces(parts, from, textType), textType) == PartsOfParity(parts, from, true)
    ensures TextOfType(Pieces(parts, from, textType), Text) == PartsOfParity(parts, from, false)
    decreases |parts| - from
  {
    if from < |parts| {
      PiecesTyped(parts, from + 1, textType);
      var head := PieceAt(parts, from, textType);
      var tail := Pieces(parts, from + 1, textType);
      TextOfTypeAppend(head, tail, textType);
      TextOfTypeAppend(head, tail, Text);
      PieceAtTyped(parts, from, textType);
    }
  }

  /** Part `i` counts towards the target type when odd, towards TEXT when
      even. */
  lemma PieceAtTyped(parts: seq<string>, i: nat, textType: TextType)
    requires i < |parts| && textType != Text
    ensures TextOfType(PieceAt(parts, i, textType), textType) == (if i % 2 == 1 then parts[i] else "")
    ensures TextOfType(PieceAt(parts, i, textType), Text) == (if i % 2 == 1 then "" else parts[i])
  {
    var head := PieceAt(parts, i, textType);
    if parts[i] != "" {
      assert head[1..] == [];
    }
  }

  /** The texts of the pieces are the parts, empty ones included, since
      those add nothing. */
  lemma {:induction false} PiecesConcat(parts: seq<string>, from: nat, textType: TextType)
    requires from <= |parts|
    ensures Concat(Texts(Pieces(parts, from, textType))) == Concat(parts[from..])
    decreases |parts| - from
  {
    if from < |parts| {
      PiecesConcat(parts, from + 1, textType);
      var head := if parts[from] == "" then [] else [TextNode(parts[from], if from % 2 == 0 then Text else textType, None)];
      var tail := Pieces(parts, from + 1, textType);
      TextsAppend(head, tail);
      ConcatAppend(Texts(head), Texts(tail));
      assert Concat(Texts(head)) == parts[from] by {
        if parts[from] != "" {
          assert Concat(Texts(head)) == parts[from] + Concat([]);
        }
      }
      assert parts[from..][1..] == parts[from + 1..];
    } else {
      assert parts[from..] == [];
    }
  }

  /** `n` is a piece of the TEXT node `src`: one non-empty part of its
      text split on the delimiter, typed by the part's parity, so it holds
      no delimiter and only characters of `src`. */
  ghost predicate PieceOfText(n: TextNode, src: TextNode, delimiter: string, textType: TextType)
    requires |delimiter| > 0
  {
    && src.textType == Text
    && PieceOf(n, Split(src.text, delimiter), 0, textType)
    && !Contains(n.text, delimiter)
    && forall c :: c in n.text ==> c in src.text
  }

  /** One TEXT node split on the delimiter: the texts of the new nodes,
      put together, are the old text with every delimiter deleted; the
      target-type nodes spell the text between delimiters and the TEXT
      nodes the text outside them; and each new node is one part, typed
      by its parity. */
  lemma SplitNodeOfText(node: TextNode, delimiter: string, textType: TextType)
    requires |delimiter| > 0 && node.textType == Text
    requires SplitNode(node, delimiter, textType).Ok?
    ensures var out := SplitNode(node, delimiter, textType).value;
            && Concat(Texts(out)) == RemoveAll(node.text, delimiter)
            && (textType != Text ==>
                  && TextOfType(out, textType) == PartsOfParity(Split(node.text, delimiter), 0, true)
                  && TextOfType(out, Text) == PartsOfParity(Split(node.text, delimiter), 0, false))
            && forall k :: 0 <= k < |out| ==> PieceOfText(out[k], node, delimiter, textType)
  {
    var parts := Split(node.text, delimiter);
    var out := Pieces(parts, 0, textType);
    PiecesConcat(parts, 0, textType);
    assert parts[0..] == parts;
    SplitConcat(node.text, delimiter);
    PiecesOrigin(parts, 0, textType);
    if textType != Text {
      PiecesTyped(parts, 0, textType);
    }
    SplitPartsLackSeparator(node.text, delimiter);
    SplitJoin(node.text, delimiter);
    forall k | 0 <= k < |out| ensures PieceOfText(out[k], node, delimiter, textType) {
      assert PieceOf(out[k], parts, 0, textType);
      var i :| 0 <= i < |parts| && out[k].text == parts[i] && out[k].textType == PartType(i, textType);
      JoinHasPart(parts, delimiter, i);
    }
  }

  /** Where a node of the pass's output comes from: a node of the input
      that is not TEXT, passed through; or a piece of one input TEXT node. */
  ghost predicate FromPass(n: TextNode, nodes: seq<TextNode>, delimiter: string, textType: TextType)
    requires |delimiter| > 0
  {
    || (n in nodes && n.textType != Text)
    || exists j :: 0 <= j < |nodes| && PieceOfText(n, nodes[j], delimiter, textType)
  }

  lemma {:induction false} DelimiterSplitOrigin(nodes: seq<TextNode>, delimiter: string, textType: TextType)
    requires |delimiter| > 0
    requires DelimiterSplit(nodes, delimiter, textType).Ok?
    ensures var out := DelimiterSplit(nodes, delimiter, textType).value;
            forall k :: 0 <= k < |out| ==> FromPass(out[k], nodes, delimiter, textType)
    decreases |nodes|
  {
    if nodes != [] {
      var first := SplitNode(nodes[0], delimiter, textType).value;
      var rest := DelimiterSplit(nodes[1..], delimiter, textType).value;
      DelimiterSplitOrigin(nodes[1..], delimiter, textType);
      var out := first + rest;
      forall k | 0 <= k < |out| ensures FromPass(out[k], nodes, delimiter, textType) {
        if k < |first| {
          assert out[k] == first[k];
          OriginInFirst(nodes, delimiter, textType, k);
        } else {
          assert out[k] == rest[k - |first|];
          OriginInRest(nodes, delimiter, textType, out[k]);
        }
      }
    }
  }

  /** A node from the first input node's split comes from the pass. */
  lemma OriginInFirst(nodes: seq<TextNode>, delimiter: string, textType: TextType, k: nat)
    requires |delimiter| > 0 && nodes != [] && SplitNode(nodes[0], delimiter, textType).Ok?
    requires k < |SplitNode(nodes[0], delimiter, textType).value|
    ensures FromPass(SplitNode(nodes[0], delimiter, textType).value[k], nodes, delimiter, textType)
  {
    if nodes[0].textType == Text {
      SplitNodeOfText(nodes[0], delimiter, textType);
    }
  }

  /** A node the pass made from the later input nodes comes from the pass
      over all of them. */
  lemma OriginInRest(nodes: seq<TextNode>, delimiter: string, textType: TextType, n: TextNode)
    requires |delimiter| > 0 && nodes != [] && FromPass(n, nodes[1..], delimiter, textType)
    ensures FromPass(n, nodes, delimiter, textType)
  {
    if !(n in nodes[1..] && n.textType != Text) {
      var j :| 0 <= j < |nodes[1..]| && PieceOfText(n, nodes[1..][j], delimiter, textType);
      assert nodes[1..][j] == nodes[j + 1];
    }
  }

  // ---------------------------------------------------------------------
  // text_to_textnodes
  // ---------------------------------------------------------------------

  /** The specification of `text_to_textnodes`: images, links, then `**`
      (bold), `*` and `_` (italic) and a backtick (code). */
  function Tokens(text: string): Result<seq<TextNode>, MarkdownError>
  {
    var linked := MarkupSplit(Link, MarkupSplit(Image, [Plain(text)]));
    var bold :- DelimiterSplit(linked, "**", Bold);
    var italic :- DelimiterSplit(bold, "*", Italic);
    var underscored :- DelimiterSplit(italic, "_", Italic);
    DelimiterSplit(underscored, "`", Code)
  }

  method TextToTextNodes(text: string) returns (r: Result<seq<TextNode>, MarkdownError>)
    ensures r == Tokens(text)
  {
    var nodes := [Plain(text)];
    nodes := SplitNodesImage(nodes);
    nodes := SplitNodesLink(nodes);
    nodes :- SplitNodesDelimiter(nodes, "**", Bold);
    nodes :- SplitNodesDelimiter(nodes, "*", Italic);
    nodes :- SplitNodesDelimiter(nodes, "_", Italic);
    r := SplitNodesDelimiter(nodes, "`", Code);
  }

  lemma {:induction false} CutAroundKinds(text: string, found: seq<TextNode>)
    ensures forall n :: n in CutAround(text, found) ==> n.textType == Text || n in found
    decreases |found|
  {
    if found != [] {
      var lit := MarkupOf(found[0]);
      CutAroundKinds(After(text, lit), found[1..]);
      CutAroundStep(text, found);
    }
  }

  /** The image and link passes add TEXT nodes and nodes of their own kind
      and keep every other node as it was. */
  lemma {:induction false} MarkupSplitKinds(kind: TextType, nodes: seq<TextNode>)
    requires kind == Image || kind == Link
    ensures forall n :: n in MarkupSplit(kind, nodes) ==> n.textType == Text || n.textType == kind || n in nodes
    decreases |nodes|
  {
    if nodes != [] {
      MarkupSplitKinds(kind, nodes[1..]);
      var node := nodes[0];
      if node.textType == Text {
        var found := Extract(kind, node.text);
        CutAroundKinds(node.text, found);
        assert forall n :: n in found ==> n.textType == kind;
      }
      assert forall n :: n in nodes[1..] ==> n in nodes;
    }
  }

  /** What every node of a delimiter pass's output satisfies: it is not
      UNDERLINE, an IMAGE or LINK node is one the markup passes made, and a
      TEXT node has none of the characters in `cs`. */
  ghost predicate Clean(n: TextNode, linked: seq<TextNode>, cs: set<char>)
  {
    && n.textType != Underline
    && (n.textType == Image || n.textType == Link ==> n in linked)
    && (n.textType == Text ==> forall c :: c in cs ==> c !in n.text)
  }

  lemma LacksChar(t: string, c: char)
    requires !Contains(t, [c])
    ensures c !in t
  {
    forall i | 0 <= i < |t| ensures t[i] != c {
      assert !OccursAt(t, [c], i);
      assert t[i..i + 1] == [t[i]];
    }
  }

  ghost predicate AllClean(nodes: seq<TextNode>, linked: seq<TextNode>, cs: set<char>)
  {
    forall n :: n in nodes ==> Clean(n, linked, cs)
  }

  ghost predicate NoEmptyText(nodes: seq<TextNode>)
  {
    forall n :: n in nodes && n.textType == Text ==> n.text != ""
  }

  /** One delimiter pass keeps `Clean`, leaves no empty TEXT node, and
      after a one-character delimiter no TEXT node holds that character. */
  lemma DelimiterPassKeepsClean(prev: seq<TextNode>, delimiter: string, textType: TextType,
                                linked: seq<TextNode>, cs: set<char>, gained: set<char>)
    requires |delimiter| > 0 && (textType == Bold || textType == Italic || textType == Code)
    requires forall c :: c in gained ==> delimiter == [c]
    requires DelimiterSplit(prev, delimiter, textType).Ok?
    requires AllClean(prev, linked, cs)
    ensures AllClean(DelimiterSplit(prev, delimiter, textType).value, linked, cs + gained)
    ensures NoEmptyText(DelimiterSplit(prev, delimiter, textType).value)
  {
    var out := DelimiterSplit(prev, delimiter, textType).value;
    DelimiterSplitOrigin(prev, delimiter, textType);
    forall n | n in out ensures Clean(n, linked, cs + gained) && (n.textType == Text ==> n.text != "") {
      var k :| 0 <= k < |out| && out[k] == n;
      assert FromPass(n, prev, delimiter, textType);
      if !(n in prev && n.textType != Text) {
        var j :| 0 <= j < |prev| && PieceOfText(n, prev[j], delimiter, textType);
        assert Clean(prev[j], linked, cs);
        if n.textType == Text {
          forall c | c in cs + gained ensures c !in n.text {
            if c in gained {
              LacksChar(n.text, c);
            }
          }
        }
      }
    }
  }

  /** After the image and link passes there is no UNDERLINE node. */
  lemma MarkupPassesClean(text: string)
    ensures var linked := MarkupSplit(Link, MarkupSplit(Image, [Plain(text)]));
            AllClean(linked, linked, {})
  {
    var imaged := MarkupSplit(Image, [Plain(text)]);
    MarkupSplitKinds(Image, [Plain(text)]);
    MarkupSplitKinds(Link, imaged);
  }

  /** `text_to_textnodes` never yields UNDERLINE; its IMAGE and LINK nodes
      are exactly those the first two passes made, so the delimiter passes
      never look inside an image's or a link's text or url; and every TEXT
      node is non-empty and free of `*`, `_` and backticks. */
  lemma TokensShape(text: string)
    requires Tokens(text).Ok?
    ensures var linked := MarkupSplit(Link, MarkupSplit(Image, [Plain(text)]));
            && AllClean(Tokens(text).value, linked, {'*', '_', '`'})
            && NoEmptyText(Tokens(text).value)
  {
    var linked := MarkupSplit(Link, MarkupSplit(Image, [Plain(text)]));
    MarkupPassesClean(text);
    TokensPasses(text);
    var bold := DelimiterSplit(linked, "**", Bold).value;
    DelimiterPassKeepsClean(linked, "**", Bold, linked, {}, {});
    var italic := DelimiterSplit(bold, "*", Italic).value;
    DelimiterPassKeepsClean(bold, "*", Italic, linked, {}, {'*'});
    LastPassesClean(italic, linked);
  }

  /** The `_` and backtick passes keep the nodes clean. */
  lemma LastPassesClean(italic: seq<TextNode>, linked: seq<TextNode>)
    requires AllClean(italic, linked, {'*'}) && DelimiterSplit(italic, "_", Italic).Ok?
    requires DelimiterSplit(DelimiterSplit(italic, "_", Italic).value, "`", Code).Ok?
    ensures var out := DelimiterSplit(DelimiterSplit(italic, "_", Italic).value, "`", Code).value;
            AllClean(out, linked, {'*', '_', '`'}) && NoEmptyText(out)
  {
    var underscored := DelimiterSplit(italic, "_", Italic).value;
    DelimiterPassKeepsClean(italic, "_", Italic, linked, {'*'}, {'_'});
    assert {'*'} + {'_'} == {'*', '_'};
    DelimiterPassKeepsClean(underscored, "`", Code, linked, {'*', '_'}, {'`'});
    assert {'*', '_'} + {'`'} == {'*', '_', '`'};
  }

  /** When tokenizing succeeds, every delimiter pass succeeded, and the
      result is the last one's. */
  lemma TokensPasses(text: string)
    requires Tokens(text).Ok?
    ensures var linked := MarkupSplit(Link, MarkupSplit(Image, [Plain(text)]));
            && DelimiterSplit(linked, "**", Bold).Ok?
            && var bold := DelimiterSplit(linked, "**", Bold).value;
            && DelimiterSplit(bold, "*", Italic).Ok?
            && var italic := DelimiterSplit(bold, "*", Italic).value;
            && DelimiterSplit(italic, "_", Italic).Ok?
            && var underscored := DelimiterSplit(italic, "_", Italic).value;
            Tokens(text) == DelimiterSplit(underscored, "`", Code)
  {
  }

  /** An empty line yields no nodes at all. */
  lemma TokensOfEmpty()
    ensures Tokens("") == Ok([])
  {
    assert Scan(Image, "", 0) == [] && Scan(Link, "", 0) == [];
    assert MarkupSplit(Image, [Plain("")]) == [Plain("")];
    assert MarkupSplit(Link, [Plain("")]) == [Plain("")];
    EmptyTextVanishes("**", Bold);
  }

  /** A delimiter pass drops an empty TEXT node. */
  lemma EmptyTextVanishes(delimiter: string, textType: TextType)
    requires |delimiter| > 0
    ensures DelimiterSplit([Plain("")], delimiter, textType) == Ok([])
  {
    assert Find("", delimiter, 0).None?;
    assert Split("", delimiter) == [""];
    assert Pieces([""], 1, textType) == [];
    assert Pieces([""], 0, textType) == [];
    assert SplitNode(Plain(""), delimiter, textType) == Ok([]);
    assert [Plain("")][1..] == [];
    assert DelimiterSplit([], delimiter, textType) == Ok([]);
  }

  /** A pass over nodes whose TEXT nodes are non-empty and lack the
      delimiter changes nothing. */
  lemma {:induction false} DelimiterSplitWithoutDelimiter(nodes: seq<TextNode>, delimiter: string, textType: TextType)
    requires |delimiter| > 0
    requires forall k :: 0 <= k < |nodes| && nodes[k].textType == Text ==>
               nodes[k].text != "" && nodes[k].url == None && !Contains(nodes[k].text, delimiter)
    ensures DelimiterSplit(nodes, delimiter, textType) == Ok(nodes)
    decreases |nodes|
  {
    if nodes != [] {
      var n := nodes[0];
      assert forall k :: 0 <= k < |nodes[1..]| ==> nodes[1..][k] == nodes[k + 1];
      DelimiterSplitWithoutDelimiter(nodes[1..], delimiter, textType);
      if n.textType == Text {
        assert Find(n.text, delimiter, 0).None?;
        assert Split(n.text, delimiter) == [n.text];
        assert Pieces([n.text], 1, textType) == [];
        assert Pieces([n.text], 0, textType) == [n];
      }
      assert [n] + nodes[1..] == nodes;
    }
  }

  /** The image pattern finds nothing where there is no `!`. */
  lemma {:induction false} ScanWithoutBang(s: string, from: nat)
    requires forall x :: from <= x < |s| ==> s[x] != '!'
    ensures Scan(Image, s, from) == []
    decreases |s| - from
  {
    if from < |s| {
      ScanWithoutBang(s, from + 1);
    }
  }

  /** The image pass on `![a](u1) [b](u2)`: the image, then the rest. */
  lemma ImagePassExample()
    ensures MarkupSplit(Image, [Plain("![a](u1) [b](u2)")])
            == [TextNode("a", Image, Some("u1")), Plain(" [b](u2)")]
  {
    var s := "![a](u1) [b](u2)";
    var node := TextNode("a", Image, Some("u1"));
    ImageExampleFound(s);
    ImageExampleCut(s, node);
    assert SplitNodeMarkup(Image, Plain(s)) == [node, Plain(" [b](u2)")];
    assert [Plain(s)][1..] == [];
  }

  /** The image pattern finds exactly `![a](u1)` in `![a](u1) [b](u2)`. */
  lemma ImageExampleFound(s: string)
    requires s == "![a](u1) [b](u2)"
    ensures ExtractMarkdownImages(s) == [TextNode("a", Image, Some("u1"))]
  {
    var m := Match(0, 8, "a", "u1");
    assert s[0..8] == Markup(Image, "a", "u1");
    assert WellFormed(Image, s, m);
    ImageAtComplete(s, m);
    ScanWithoutBang(s, 8);
    assert Scan(Image, s, 0) == [m];
  }

  /** Cutting `![a](u1) [b](u2)` around its image. */
  lemma ImageExampleCut(s: string, node: TextNode)
    requires s == "![a](u1) [b](u2)" && node == TextNode("a", Image, Some("u1"))
    ensures CutAround(s, [node]) == [node, Plain(" [b](u2)")]
  {
    var lit := Markup(Image, "a", "u1");
    assert MarkupOf(node) == lit;
    assert s[0..8] == lit;
    assert OccursAt(s, lit, 0);
    assert Find(s, lit, 0) == Some(0);
    assert Before(s, lit) == "";
    assert After(s, lit) == " [b](u2)";
  }

  /** The link pass on what the image pass left: the image passes through,
      and the text around the link is cut. */
  lemma LinkPassExample()
    ensures MarkupSplit(Link, [TextNode("a", Image, Some("u1")), Plain(" [b](u2)")])
            == [TextNode("a", Image, Some("u1")), Plain(" "), TextNode("b", Link, Some("u2"))]
  {
    var t := " [b](u2)";
    var img := TextNode("a", Image, Some("u1"));
    LinkPassCutsText();
    assert SplitNodeMarkup(Link, img) == [img];
    MarkupSplitTwo(Link, img, Plain(t));
  }

  /** The markup pass over two nodes is their two splits, in order. */
  lemma MarkupSplitTwo(kind: TextType, a: TextNode, b: TextNode)
    requires kind == Image || kind == Link
    ensures MarkupSplit(kind, [a, b]) == SplitNodeMarkup(kind, a) + SplitNodeMarkup(kind, b)
  {
    assert [a, b][1..] == [b];
    assert [b][1..] == [];
    assert MarkupSplit(kind, [b]) == SplitNodeMarkup(kind, b) + MarkupSplit(kind, []);
  }

  /** The link in ` [b](u2)` is cut out, leaving the space before it. */
  lemma LinkPassCutsText()
    ensures SplitNodeMarkup(Link, Plain(" [b](u2)")) == [Plain(" "), TextNode("b", Link, Some("u2"))]
  {
    var t := " [b](u2)";
    var m := Match(1, 8, "b", "u2");
    var lit := Markup(Link, "b", "u2");
    assert t[1..8] == lit;
    assert WellFormed(Link, t, m);
    LinkAtComplete(t, m);
    assert LinkAt(t, 0).None?;
    assert Scan(Link, t, 1) == [m];
    assert Scan(Link, t, 0) == [m];
    var node := TextNode("b", Link, Some("u2"));
    assert ExtractMarkdownLinks(t) == [node];
    assert MarkupOf(node) == lit;
    assert !OccursAt(t, lit, 0);
    FindIs(t, lit, 1);
    assert Before(t, lit) == " ";
    assert After(t, lit) == "";
    assert CutAround(t, [node]) == [Plain(" "), node];
  }

  /** A single space holds no delimiter. */
  lemma SpaceLacks(d: string)
    requires |d| > 0 && d[0] != ' '
    ensures !Contains(" ", d)
  {
    forall i ensures !OccursAt(" ", d, i) {
      if 0 <= i && i + |d| <= 1 {
        assert " "[i..i + |d|][0] == ' ';
      }
    }
  }

  /** Images come before links: `![a](u1) [b](u2)` gives one IMAGE node,
      the space between as TEXT, and one LINK node; the image's markup is
      never taken for a link. */
  lemma ImageBeforeLinkExample()
    ensures Tokens("![a](u1) [b](u2)")
            == Ok([TextNode("a", Image, Some("u1")), Plain(" "), TextNode("b", Link, Some("u2"))])
  {
    var nodes := [TextNode("a", Image, Some("u1")), Plain(" "), TextNode("b", Link, Some("u2"))];
    ImagePassExample();
    LinkPassExample();
    DelimitersSpareExample(nodes);
    TokensOfLinked("![a](u1) [b](u2)", nodes);
  }

  /** No delimiter pass touches the image, the space and the link. */
  lemma DelimitersSpareExample(nodes: seq<TextNode>)
    requires nodes == [TextNode("a", Image, Some("u1")), Plain(" "), TextNode("b", Link, Some("u2"))]
    ensures DelimiterSplit(nodes, "**", Bold) == Ok(nodes)
    ensures DelimiterSplit(nodes, "*", Italic) == Ok(nodes)
    ensures DelimiterSplit(nodes, "_", Italic) == Ok(nodes)
    ensures DelimiterSplit(nodes, "`", Code) == Ok(nodes)
  {
    assert forall k :: 0 <= k < |nodes| && nodes[k].textType == Text ==> k == 1;
    SpaceLacks("**");
    SpaceLacks("*");
    SpaceLacks("_");
    SpaceLacks("`");
    DelimiterSplitWithoutDelimiter(nodes, "**", Bold);
    DelimiterSplitWithoutDelimiter(nodes, "*", Italic);
    DelimiterSplitWithoutDelimiter(nodes, "_", Italic);
    DelimiterSplitWithoutDelimiter(nodes, "`", Code);
  }

  /** When the four delimiter passes leave the markup passes' output alone,
      that output is the tokens. */
  lemma TokensOfLinked(text: string, nodes: seq<TextNode>)
    requires MarkupSplit(Link, MarkupSplit(Image, [Plain(text)])) == nodes
    requires DelimiterSplit(nodes, "**", Bold) == Ok(nodes)
    requires DelimiterSplit(nodes, "*", Italic) == Ok(nodes)
    requires DelimiterSplit(nodes, "_", Italic) == Ok(nodes)
    requires DelimiterSplit(nodes, "`", Code) == Ok(nodes)
    ensures Tokens(text) == Ok(nodes)
  {
  }

  // ---------------------------------------------------------------------
  // The order of the delimiter passes, on single words
  // ---------------------------------------------------------------------

  /** Text holding none of the characters that open markup: `!`, `[`,
      `*`, `_` and a backtick. */
  predicate Unmarked(w: string)
  {
    forall k :: 0 <= k < |w| ==> w[k] !in {'!', '[', '*', '_', '`'}
  }

  /** The link pattern finds nothing where there is no `[`. */
  lemma {:induction false} ScanWithoutBracket(s: string, from: nat)
    requires forall x :: from <= x < |s| ==> s[x] != '['
    ensures Scan(Link, s, from) == []
    decreases |s| - from
  {
    if from < |s| {
      ScanWithoutBracket(s, from + 1);
    }
  }

  /** Without `!` and `[`, the image and link passes leave a text whole. */
  lemma MarkupPassesSpare(text: string)
    requires forall x :: 0 <= x < |text| ==> text[x] != '!' && text[x] != '['
    ensures MarkupSplit(Link, MarkupSplit(Image, [Plain(text)])) == [Plain(text)]
  {
    ScanWithoutBang(text, 0);
    MarkupSplitWithoutMatches(Image, [Plain(text)]);
    ScanWithoutBracket(text, 0);
    MarkupSplitWithoutMatches(Link, [Plain(text)]);
  }

  /** `d + w + d` splits on `d` into an empty part, `w` and an empty part,
      when `d` is one character repeated and `w` lacks that character. */
  lemma SplitAroundWord(d: string, w: string, c: char)
    requires |d| > 0 && forall k :: 0 <= k < |d| ==> d[k] == c
    requires forall k :: 0 <= k < |w| ==> w[k] != c
    ensures Split(d + w + d, d) == ["", w, ""]
  {
    var s := d + w + d;
    assert s[0..|d|] == d;
    SplitAt(s, d, 0);
    assert s[..0] == "" && s[|d|..] == w + d;
    WordThenDelimiter(d, w, c);
  }

  /** `w + d` splits on `d` into `w` and an empty part. */
  lemma WordThenDelimiter(d: string, w: string, c: char)
    requires |d| > 0 && forall k :: 0 <= k < |d| ==> d[k] == c
    requires forall k :: 0 <= k < |w| ==> w[k] != c
    ensures Split(w + d, d) == [w, ""]
  {
    var rest := w + d;
    assert rest[|w|..|w| + |d|] == d;
    forall j | 0 <= j < |w| ensures !OccursAt(rest, d, j) {
      NotAtWordChar(rest, d, c, j);
    }
    SplitAt(rest, d, |w|);
    assert rest[..|w|] == w;
    assert rest[|w| + |d|..] == "";
    SplitWithout("", d);
  }

  lemma NotAtWordChar(t: string, d: string, c: char, j: nat)
    requires |d| > 0 && d[0] == c && j < |t| && t[j] != c
    ensures !OccursAt(t, d, j)
  {
    if OccursAt(t, d, j) {
      OccursAtChars(t, d, j);
    }
  }

  /** The pass for `d` turns `d + w + d` into one node of its type. */
  lemma WrappedWordSplits(d: string, w: string, c: char, textType: TextType)
    requires |d| > 0 && forall k :: 0 <= k < |d| ==> d[k] == c
    requires w != "" && forall k :: 0 <= k < |w| ==> w[k] != c
    ensures DelimiterSplit([Plain(d + w + d)], d, textType) == Ok([TextNode(w, textType, None)])
  {
    SplitAroundWord(d, w, c);
    WordPieces(w, textType);
    OneNodePass(Plain(d + w + d), d, textType);
  }

  /** An empty part, a word, an empty part: one node of the type. */
  lemma WordPieces(w: string, textType: TextType)
    requires w != ""
    ensures Pieces(["", w, ""], 0, textType) == [TextNode(w, textType, None)]
  {
    var parts := ["", w, ""];
    assert Pieces(parts, 3, textType) == [];
    assert Pieces(parts, 2, textType) == [];
    assert Pieces(parts, 1, textType) == [TextNode(w, textType, None)];
  }

  /** A pass over one node is that node's split. */
  lemma OneNodePass(n: TextNode, d: string, textType: TextType)
    requires |d| > 0
    ensures DelimiterSplit([n], d, textType) == SplitNode(n, d, textType)
  {
    assert [n][1..] == [];
    match SplitNode(n, d, textType)
    case Ok(first) => assert first + [] == first;
    case Err(_) =>
  }

  /** A pass leaves alone a TEXT node that lacks its delimiter's first
      character. */
  lemma PassSpares(t: string, d: string, textType: TextType)
    requires |d| > 0 && t != "" && forall x :: 0 <= x < |t| ==> t[x] != d[0]
    ensures DelimiterSplit([Plain(t)], d, textType) == Ok([Plain(t)])
  {
    LacksDelimiter(t, d);
    DelimiterSplitWithoutDelimiter([Plain(t)], d, textType);
  }

  /** A pass leaves alone a node that is not TEXT. */
  lemma PassSkips(n: TextNode, d: string, textType: TextType)
    requires |d| > 0 && n.textType != Text
    ensures DelimiterSplit([n], d, textType) == Ok([n])
  {
    DelimiterSplitWithoutText([n], d, textType);
  }

  /** The characters of `d + w + d` are those of `d` and of `w`. */
  lemma WrappedLacks(d: string, w: string, ch: char)
    requires forall k :: 0 <= k < |d| ==> d[k] != ch
    requires forall k :: 0 <= k < |w| ==> w[k] != ch
    ensures forall x :: 0 <= x < |d + w + d| ==> (d + w + d)[x] != ch
  {
    var s := d + w + d;
    forall x | 0 <= x < |s| ensures s[x] != ch {
      if x < |d| { assert s[x] == d[x]; }
      else if x < |d| + |w| { assert s[x] == w[x - |d|]; }
      else { assert s[x] == d[x - |d| - |w|]; }
    }
  }

  /** A word without markup is one TEXT node. */
  lemma PlainWordTokens(w: string)
    requires w != "" && Unmarked(w)
    ensures Tokens(w) == Ok([Plain(w)])
  {
    MarkupPassesSpare(w);
    PassSpares(w, "**", Bold);
    PassSpares(w, "*", Italic);
    PassSpares(w, "_", Italic);
    PassSpares(w, "`", Code);
  }

  /** `**w**` is one BOLD node: the `**` pass runs before the `*` pass,
      which would otherwise leave `w` as TEXT between empty italics. */
  lemma BoldWordTokens(w: string)
    requires w != "" && Unmarked(w)
    ensures Tokens("**" + w + "**") == Ok([TextNode(w, Bold, None)])
  {
    var s := "**" + w + "**";
    WrappedLacks("**", w, '!');
    WrappedLacks("**", w, '[');
    MarkupPassesSpare(s);
    WrappedWordSplits("**", w, '*', Bold);
    var bold := TextNode(w, Bold, None);
    PassSkips(bold, "*", Italic);
    PassSkips(bold, "_", Italic);
    PassSkips(bold, "`", Code);
  }

  /** `*w*` is one ITALIC node. */
  lemma StarItalicWordTokens(w: string)
    requires w != "" && Unmarked(w)
    ensures Tokens("*" + w + "*") == Ok([TextNode(w, Italic, None)])
  {
    var s := "*" + w + "*";
    WrappedLacks("*", w, '!');
    WrappedLacks("*", w, '[');
    MarkupPassesSpare(s);
    SingleStarsApart(w);
    DelimiterSplitWithoutDelimiter([Plain(s)], "**", Bold);
    WrappedWordSplits("*", w, '*', Italic);
    var italic := TextNode(w, Italic, None);
    PassSkips(italic, "_", Italic);
    PassSkips(italic, "`", Code);
  }

  /** `*w*` holds no `**`: its two stars are not adjacent. */
  lemma SingleStarsApart(w: string)
    requires w != "" && Unmarked(w)
    ensures !Contains("*" + w + "*", "**")
  {
    var s := "*" + w + "*";
    forall i | OccursAt(s, "**", i) ensures false {
      StarsApartAt(w, i);
      OccursAtChars(s, "**", i);
    }
  }

  lemma StarsApartAt(w: string, i: nat)
    requires w != "" && Unmarked(w) && i + 2 <= |w| + 2
    ensures ("*" + w + "*")[i] != '*' || ("*" + w + "*")[i + 1] != '*'
  {
    var s := "*" + w + "*";
    if i == 0 {
      assert s[1] == w[0];
    } else {
      assert s[i] == w[i - 1];
    }
  }

  /** `_w_` is one ITALIC node. */
  lemma UnderscoreItalicWordTokens(w: string)
    requires w != "" && Unmarked(w)
    ensures Tokens("_" + w + "_") == Ok([TextNode(w, Italic, None)])
  {
    var s := "_" + w + "_";
    WrappedLacks("_", w, '!');
    WrappedLacks("_", w, '[');
    WrappedLacks("_", w, '*');
    MarkupPassesSpare(s);
    PassSpares(s, "**", Bold);
    PassSpares(s, "*", Italic);
    WrappedWordSplits("_", w, '_', Italic);
    PassSkips(TextNode(w, Italic, None), "`", Code);
  }

  /** A word between backticks is one CODE node. */
  lemma CodeWordTokens(w: string)
    requires w != "" && Unmarked(w)
    ensures Tokens("`" + w + "`") == Ok([TextNode(w, Code, None)])
  {
    var s := "`" + w + "`";
    WrappedLacks("`", w, '!');
    WrappedLacks("`", w, '[');
    WrappedLacks("`", w, '*');
    WrappedLacks("`", w, '_');
    MarkupPassesSpare(s);
    PassSpares(s, "**", Bold);
    PassSpares(s, "*", Italic);
    PassSpares(s, "_", Italic);
    WrappedWordSplits("`", w, '`', Code);
  }
}

