/** Cutting a document into blocks and classifying each block
    (src/markdown.py:7-13 and 119-151). */
module Blocks {
  import opened Wrappers
  import opened Strings

  // ---------------------------------------------------------------------
  // markdown_to_blocks
  // ---------------------------------------------------------------------

  const BlankLine := "\n\n"

  /** What one piece contributes: its strip, unless that is empty. */
  function Kept(piece: string): seq<string>
  {
    if Strip(piece) != "" then [Strip(piece)] else []
  }

  /** The stripped pieces that are not blank, in order. */
  function KeptBlocks(pieces: seq<string>): seq<string>
  {
    if pieces == [] then [] else Kept(pieces[0]) + KeptBlocks(pieces[1..])
  }

  /** The specification of `markdown_to_blocks`: split on blank lines, strip
      each piece, drop the blank ones. */
  function MarkdownBlocks(markdown: string): seq<string>
  {
    KeptBlocks(Split(markdown, BlankLine))
  }

  method MarkdownToBlocks(markdown: string) returns (filteredBlocks: seq<string>)
    ensures filteredBlocks == MarkdownBlocks(markdown)
  {
    var blocks := Split(markdown, BlankLine);
    filteredBlocks := KeepBlocks(blocks);
  }

  /** The loop of `markdown_to_blocks` over the pieces. */
  method KeepBlocks(blocks: seq<string>) returns (filteredBlocks: seq<string>)
    ensures filteredBlocks == KeptBlocks(blocks)
  {
    filteredBlocks := [];
    var k := 0;
    assert blocks[k..] == blocks;
    while k < |blocks|
      invariant 0 <= k <= |blocks|
      invariant KeptBlocks(blocks) == filteredBlocks + KeptBlocks(blocks[k..])
    {
      ghost var kept := filteredBlocks;
      var stripped := Strip(blocks[k]);
      if stripped != "" {
        filteredBlocks := filteredBlocks + [stripped];
      }
      KeptBlocksStep(blocks, k, kept, filteredBlocks);
      k := k + 1;
    }
    assert blocks[k..] == [];
    assert filteredBlocks + [] == filteredBlocks;
  }

  /** One turn of the loop: keeping piece `k` after `kept` leaves the same
      blocks still to come. */
  lemma KeptBlocksStep(pieces: seq<string>, k: nat, kept: seq<string>, next: seq<string>)
    requires k < |pieces|
    requires next == kept + Kept(pieces[k])
    ensures kept + KeptBlocks(pieces[k..]) == next + KeptBlocks(pieces[k + 1..])
  {
    var step := Kept(pieces[k]);
    var later := KeptBlocks(pieces[k + 1..]);
    assert pieces[k..][1..] == pieces[k + 1..];
    assert KeptBlocks(pieces[k..]) == step + later;
    AppendAssociates(kept, step, later);
  }

  /** A stretch of a string lacking `d` lacks `d` too. */
  lemma SliceLacks(s: string, d: string, i: nat, j: nat)
    requires i <= j <= |s| && !Contains(s, d)
    ensures !Contains(s[i..j], d)
  {
    forall x | 0 <= x && x + |d| <= j - i ensures !OccursAt(s[i..j], d, x) {
      var inner := s[i..j][x..x + |d|];
      var outer := s[i + x..i + x + |d|];
      forall y | 0 <= y < |d| ensures inner[y] == outer[y] { }
      assert inner == outer;
      assert !OccursAt(s, d, i + x);
    }
  }

  /** A block as `markdown_to_blocks` keeps it: not empty, equal to its
      own strip, and free of blank lines. */
  ghost predicate CleanBlock(b: string)
  {
    b != "" && Strip(b) == b && !Contains(b, BlankLine)
  }

  /** Each kept block is one piece, stripped: it is not empty, stripping
      it again changes nothing, and it holds no blank line. */
  lemma {:induction false} KeptBlocksAreClean(pieces: seq<string>)
    requires forall k :: 0 <= k < |pieces| ==> !Contains(pieces[k], BlankLine)
    ensures |KeptBlocks(pieces)| <= |pieces|
    ensures forall b :: b in KeptBlocks(pieces) ==> CleanBlock(b)
  {
    if pieces != [] {
      assert forall k :: 0 <= k < |pieces[1..]| ==> pieces[1..][k] == pieces[k + 1];
      KeptBlocksAreClean(pieces[1..]);
      KeptIsClean(pieces[0]);
    }
  }

  lemma KeptIsClean(piece: string)
    requires !Contains(piece, BlankLine)
    ensures |Kept(piece)| <= 1
    ensures forall b :: b in Kept(piece) ==> CleanBlock(b)
  {
    if Strip(piece) != "" {
      StrippedPieceIsClean(piece);
      assert Kept(piece) == [Strip(piece)];
    }
  }

  lemma StrippedPieceIsClean(piece: string)
    requires !Contains(piece, BlankLine)
    ensures Strip(Strip(piece)) == Strip(piece) && !Contains(Strip(piece), BlankLine)
  {
    StripIdempotent(piece);
    StripKeepsLack(piece, BlankLine);
  }

  lemma StripKeepsLack(s: string, d: string)
    requires !Contains(s, d)
    ensures !Contains(Strip(s), d)
  {
    var i := StripSlice(s);
    SliceLacks(s, d, i, i + |Strip(s)|);
  }

  /** The strip of `s` is a stretch of `s`. */
  lemma StripSlice(s: string) returns (i: nat)
    ensures i + |Strip(s)| <= |s| && Strip(s) == s[i..i + |Strip(s)|]
  {
    i :| TrimmedAt(s, Strip(s), Whitespace, i);
  }

  /** `markdown_to_blocks` yields non-empty blocks, each equal to its own
      strip and free of blank lines, no more of them than there are pieces. */
  lemma MarkdownBlocksAreClean(markdown: string)
    ensures |MarkdownBlocks(markdown)| <= |Split(markdown, BlankLine)|
    ensures forall b :: b in MarkdownBlocks(markdown) ==> CleanBlock(b)
  {
    SplitPartsLackSeparator(markdown, BlankLine);
    KeptBlocksAreClean(Split(markdown, BlankLine));
  }

  /** Every piece, stripped. */
  function Strips(pieces: seq<string>): (ss: seq<string>)
    ensures |ss| == |pieces|
  {
    seq(|pieces|, i requires 0 <= i < |pieces| => Strip(pieces[i]))
  }

  /** The indices, from `from` on, of the non-empty strings of `ss`, in
      increasing order. */
  function NonEmptyFrom(ss: seq<string>, from: nat): (idx: seq<nat>)
    requires from <= |ss|
    ensures forall j :: 0 <= j < |idx| ==> from <= idx[j] < |ss| && ss[idx[j]] != ""
    decreases |ss| - from
  {
    if from == |ss| then []
    else if ss[from] != "" then [from] + NonEmptyFrom(ss, from + 1)
    else NonEmptyFrom(ss, from + 1)
  }

  /** The indices increase. */
  lemma {:induction false} NonEmptyIncreasing(ss: seq<string>, from: nat)
    requires from <= |ss|
    ensures forall j, k :: 0 <= j < k < |NonEmptyFrom(ss, from)| ==> NonEmptyFrom(ss, from)[j] < NonEmptyFrom(ss, from)[k]
    decreases |ss| - from
  {
    if from < |ss| {
      NonEmptyIncreasing(ss, from + 1);
      var rest := NonEmptyFrom(ss, from + 1);
      var idx := NonEmptyFrom(ss, from);
      if ss[from] != "" {
        assert idx == [from] + rest;
        forall j, k | 0 <= j < k < |idx| ensures idx[j] < idx[k] {
          assert idx[k] == rest[k - 1];
          if j > 0 { assert idx[j] == rest[j - 1]; }
        }
      }
    }
  }

  /** Every non-empty string from `from` on is listed. */
  lemma {:induction false} NonEmptyListsAll(ss: seq<string>, from: nat)
    requires from <= |ss|
    ensures forall i :: from <= i < |ss| && ss[i] != "" ==> i in NonEmptyFrom(ss, from)
    decreases |ss| - from
  {
    if from < |ss| {
      NonEmptyListsAll(ss, from + 1);
    }
  }

  /** The blocks kept from `pieces[from..]` are the non-empty strips, one
      for one and in order. */
  lemma {:induction false} KeptAtIndices(pieces: seq<string>, from: nat)
    requires from <= |pieces|
    ensures var idx := NonEmptyFrom(Strips(pieces), from);
            && |KeptBlocks(pieces[from..])| == |idx|
            && forall j :: 0 <= j < |idx| ==> KeptBlocks(pieces[from..])[j] == Strips(pieces)[idx[j]]
    decreases |pieces| - from
  {
    if from < |pieces| {
      var ss := Strips(pieces);
      KeptAtIndices(pieces, from + 1);
      KeptStep(pieces, from);
      var rest := KeptBlocks(pieces[from + 1..]);
      var kept := KeptBlocks(pieces[from..]);
      var idx := NonEmptyFrom(ss, from);
      var idxRest := NonEmptyFrom(ss, from + 1);
      if ss[from] != "" {
        assert kept == [ss[from]] + rest && idx == [from] + idxRest;
        forall j | 0 <= j < |idx| ensures kept[j] == ss[idx[j]] {
          if j > 0 {
            assert kept[j] == rest[j - 1] && idx[j] == idxRest[j - 1];
          }
        }
      } else {
        assert kept == rest && idx == idxRest;
      }
    }
  }

  /** One step of `KeptBlocks`, with the strip of the first piece named. */
  lemma KeptStep(pieces: seq<string>, from: nat)
    requires from < |pieces|
    ensures KeptBlocks(pieces[from..])
         == (if Strips(pieces)[from] != "" then [Strips(pieces)[from]] else []) + KeptBlocks(pieces[from + 1..])
  {
    assert pieces[from..][1..] == pieces[from + 1..];
    assert Strips(pieces)[from] == Strip(pieces[from]);
  }

  /** `markdown_to_blocks` loses no block and invents none. With `idx` the
      indices of the pieces whose strip is not empty: block `j` is the
      strip of piece `idx[j]`; the indices increase, so the order is kept;
      and every piece whose strip is not empty has its index in `idx`. */
  lemma MarkdownBlocksComplete(markdown: string)
    ensures var pieces := Split(markdown, BlankLine);
            var ss := Strips(pieces);
            var idx := NonEmptyFrom(ss, 0);
            && |MarkdownBlocks(markdown)| == |idx|
            && (forall j :: 0 <= j < |idx| ==> MarkdownBlocks(markdown)[j] == ss[idx[j]])
            && (forall j, k :: 0 <= j < k < |idx| ==> idx[j] < idx[k])
            && (forall i :: 0 <= i < |pieces| && ss[i] != "" ==> i in idx)
  {
    var pieces := Split(markdown, BlankLine);
    KeptAtIndices(pieces, 0);
    NonEmptyIncreasing(Strips(pieces), 0);
    NonEmptyListsAll(Strips(pieces), 0);
    assert pieces[0..] == pieces;
  }

  /** `Strips` is the strip of each piece. */
  lemma StripsAt(pieces: seq<string>, i: nat)
    requires i < |pieces|
    ensures Strips(pieces)[i] == Strip(pieces[i])
  {
  }

  // ---------------------------------------------------------------------
  // block_to_block_type
  // ---------------------------------------------------------------------

  datatype BlockType = Paragraph | Heading | CodeBlock | Quote | UnorderedList | OrderedList

  const HeadingPrefixes: seq<string> := ["# ", "## ", "### ", "#### ", "##### ", "###### "]

  predicate IsHeading(block: string)
  {
    exists k :: 0 <= k < |HeadingPrefixes| && StartsWith(block, HeadingPrefixes[k])
  }

  predicate IsQuote(lines: seq<string>)
  {
    forall i :: 0 <= i < |lines| ==> StartsWith(lines[i], ">")
  }

  predicate IsUnordered(lines: seq<string>)
  {
    forall i :: 0 <= i < |lines| ==> StartsWith(lines[i], "* ") || StartsWith(lines[i], "- ")
  }

  /** The marker of the `i`-th line of an ordered list, counting from 0. */
  function OrderedMarker(i: nat): string
  {
    NatToString(i + 1) + ". "
  }

  predicate IsOrdered(lines: seq<string>)
  {
    forall i :: 0 <= i < |lines| ==> StartsWith(lines[i], OrderedMarker(i))
  }

  /** `block_to_block_type`: the first test that holds wins, in the order
      heading, code, quote, unordered list, ordered list. */
  function BlockToBlockType(block: string): BlockType
  {
    var lines := Split(block, "\n");
    if IsHeading(block) then Heading
    else if StartsWith(block, "```") && EndsWith(block, "```") then CodeBlock
    else if IsQuote(lines) then Quote
    else if IsUnordered(lines) then UnorderedList
    else if IsOrdered(lines) then OrderedList
    else Paragraph
  }

  /** The number of `#` characters the block starts with, as the heading
      loop in `markdown_to_html_node` counts them. */
  function LeadingHashes(s: string): (n: nat)
    ensures n <= |s|
    ensures forall j :: 0 <= j < n ==> s[j] == '#'
    ensures n < |s| ==> s[n] != '#'
  {
    if |s| > 0 && s[0] == '#' then 1 + LeadingHashes(s[1..]) else 0
  }

  /** A block is a heading exactly when it opens with one to six `#`
      followed by a space. */
  lemma HeadingIffHashes(block: string)
    ensures var n := LeadingHashes(block);
            IsHeading(block) <==> 1 <= n <= 6 && n < |block| && block[n] == ' '
  {
    var n := LeadingHashes(block);
    if 1 <= n <= 6 && n < |block| && block[n] == ' ' {
      HashesMakeHeading(block, n);
    }
    if IsHeading(block) {
      HeadingHasHashes(block);
    }
  }

  /** The `k`-th heading prefix is `k + 1` hashes and a space. */
  lemma HeadingPrefixShape(k: nat)
    requires k < 6
    ensures |HeadingPrefixes[k]| == k + 2
    ensures forall j :: 0 <= j <= k ==> HeadingPrefixes[k][j] == '#'
    ensures HeadingPrefixes[k][k + 1] == ' '
  {
  }

  lemma HashesMakeHeading(block: string, n: nat)
    requires n == LeadingHashes(block) && 1 <= n <= 6 && n < |block| && block[n] == ' '
    ensures IsHeading(block)
  {
    HeadingPrefixShape(n - 1);
    HashesAndSpace(block, HeadingPrefixes[n - 1], n);
  }

  /** A string of `n` hashes and a space is a prefix of a block that
      starts with `n` hashes and a space. */
  lemma HashesAndSpace(block: string, p: string, n: nat)
    requires |p| == n + 1 && p[n] == ' ' && forall j :: 0 <= j < n ==> p[j] == '#'
    requires n < |block| && block[n] == ' ' && forall j :: 0 <= j < n ==> block[j] == '#'
    ensures StartsWith(block, p)
  {
    var head := block[..n + 1];
    forall j | 0 <= j < n + 1 ensures head[j] == p[j] {
      assert head[j] == block[j];
    }
  }

  lemma HeadingHasHashes(block: string)
    requires IsHeading(block)
    ensures var n := LeadingHashes(block); 1 <= n <= 6 && n < |block| && block[n] == ' '
  {
    var k :| 0 <= k < |HeadingPrefixes| && StartsWith(block, HeadingPrefixes[k]);
    HeadingPrefixShape(k);
    PrefixGivesHashes(block, HeadingPrefixes[k], k + 1);
  }

  /** A block that starts with `n` hashes and a space has exactly `n`
      leading hashes. */
  lemma PrefixGivesHashes(block: string, p: string, n: nat)
    requires |p| == n + 1 && p[n] == ' ' && forall j :: 0 <= j < n ==> p[j] == '#'
    requires StartsWith(block, p)
    ensures n < |block| && block[n] == ' ' && LeadingHashes(block) == n
  {
    var head := block[..|p|];
    forall j | 0 <= j <= n ensures block[j] == p[j] {
      assert head[j] == block[j];
    }
    RunOfHashes(block, n);
  }

  /** A run of `m` hashes followed by something else has length `m`. */
  lemma RunOfHashes(s: string, m: nat)
    requires m < |s| && s[m] != '#'
    requires forall j :: 0 <= j < m ==> s[j] == '#'
    ensures LeadingHashes(s) == m
  {
  }

  /** An ordered list is numbered from 1: its first line starts `1. `. */
  lemma OrderedListStartsAtOne(block: string)
    requires BlockToBlockType(block) == OrderedList
    ensures StartsWith(block, "1. ")
  {
    var lines := Split(block, "\n");
    assert StartsWith(lines[0], OrderedMarker(0));
    assert OrderedMarker(0) == "1. ";
    SplitFirstIsPrefix(block, "\n");
    assert block[..3] == lines[0][..3];
  }

  /** The run of decimal digits a line starts with. */
  function LeadingDigits(s: string): (d: string)
    ensures |d| <= |s| && d == s[..|d|]
  {
    if s == [] || !('0' <= s[0] <= '9') then [] else [s[0]] + LeadingDigits(s[1..])
  }

  /** Digits followed by a `.` are exactly the run of digits the text
      starts with. */
  lemma {:induction false} DigitsThenDot(d: string, rest: string)
    requires forall k :: 0 <= k < |d| ==> '0' <= d[k] <= '9'
    requires |rest| > 0 && rest[0] == '.'
    ensures LeadingDigits(d + rest) == d
  {
    if d != [] {
      assert (d + rest)[1..] == d[1..] + rest;
      DigitsThenDot(d[1..], rest);
    } else {
      assert d + rest == rest;
    }
  }

  /** An ordered list is numbered 1, 2, 3, ...: line `i` (from 0) starts
      with digits that read as `i + 1`, followed by `. `. */
  lemma OrderedListNumbered(block: string)
    requires BlockToBlockType(block) == OrderedList
    ensures var lines := Split(block, "\n");
            forall i :: 0 <= i < |lines| ==>
              && DecimalValue(LeadingDigits(lines[i])) == i + 1
              && StartsWith(lines[i][|LeadingDigits(lines[i])|..], ". ")
  {
    var lines := Split(block, "\n");
    forall i | 0 <= i < |lines|
      ensures DecimalValue(LeadingDigits(lines[i])) == i + 1
      ensures StartsWith(lines[i][|LeadingDigits(lines[i])|..], ". ")
    {
      NumberedLine(lines[i], i);
    }
  }

  /** A line opening with `digits` and `. ` is `digits` then a rest that
      opens with `. `. */
  lemma MarkerSplits(line: string, digits: string, rest: string)
    requires StartsWith(line, digits + ". ") && rest == line[|digits|..]
    ensures line == digits + rest && StartsWith(rest, ". ")
  {
    assert line[..|digits| + 2] == digits + ". ";
    assert rest[..2] == line[|digits|..|digits| + 2];
  }

  lemma NumberedLine(line: string, i: nat)
    requires StartsWith(line, OrderedMarker(i))
    ensures DecimalValue(LeadingDigits(line)) == i + 1
    ensures StartsWith(line[|LeadingDigits(line)|..], ". ")
  {
    var digits := NatToString(i + 1);
    assert OrderedMarker(i) == digits + ". ";
    assert |line| >= |digits| + 2;
    var rest := line[|digits|..];
    MarkerSplits(line, digits, rest);
    DigitsThenDot(digits, rest);
  }

  /** A block whose first character opens no marker (`#`, a backtick,
      `>`, `*`, `-` or `1`) is a paragraph. */
  lemma UnmarkedIsParagraph(block: string)
    requires |block| > 0 && block[0] !in {'#', '`', '>', '*', '-', '1'}
    ensures BlockToBlockType(block) == Paragraph
  {
    var lines := Split(block, "\n");
    SplitFirstIsPrefix(block, "\n");
    NotHeading(block);
    FirstCharRules(block, "```");
    FirstCharRules(lines[0], ">");
    FirstCharRules(lines[0], "* ");
    FirstCharRules(lines[0], "- ");
    assert OrderedMarker(0) == "1. " by {
      assert NatToString(1) == [DigitChar(1)] == "1";
    }
    FirstCharRules(lines[0], "1. ");
    FirstLineStart(block, lines[0]);
  }

  lemma NotHeading(block: string)
    requires |block| > 0 && block[0] != '#'
    ensures !IsHeading(block)
  {
    forall k | 0 <= k < |HeadingPrefixes| ensures !StartsWith(block, HeadingPrefixes[k]) {
      HeadingPrefixShape(k);
      FirstCharRules(block, HeadingPrefixes[k]);
    }
  }

  /** `s` starts with `m` only if their first characters agree. */
  lemma FirstCharRules(s: string, m: string)
    requires |m| > 0
    ensures StartsWith(s, m) ==> |s| > 0 && s[0] == m[0]
  {
    if |m| <= |s| {
      assert s[..|m|][0] == s[0];
    }
  }

  /** The first line of a block starts with the block's first character,
      unless it is empty. */
  lemma FirstLineStart(block: string, first: string)
    requires StartsWith(block, first)
    ensures |first| > 0 ==> first[0] == block[0]
  {
    if |first| > 0 {
      assert block[..|first|][0] == block[0];
    }
  }

  /** Numbering that does not start at 1 is not a list. */
  lemma OrderedListNeedsOne()
    ensures BlockToBlockType("2. x\n3. y") == Paragraph
  {
    UnmarkedIsParagraph("2. x\n3. y");
  }

  /** The text after the marker of an ordered-list line: the first `. ` is
      the one right after the number, since digits hold no `.`. */
  lemma OrderedItemText(line: string, i: nat)
    requires StartsWith(line, OrderedMarker(i))
    ensures |SplitOnce(line, ". ")| == 2
    ensures SplitOnce(line, ". ")[1] == line[|OrderedMarker(i)|..]
  {
    var digits := NatToString(i + 1);
    var at := |digits|;
    assert line[at..at + 2] == ". " by {
      assert line[..at + 2] == digits + ". ";
    }
    assert OccursAt(line, ". ", at);
    SplitOnceParts(line, ". ");
    var sections := SplitOnce(line, ". ");
    DigitsHoldNoSeparator(line, digits);
    assert line == sections[0] + ". " + sections[1];
    assert OccursAt(line, ". ", |sections[0]|) by {
      assert line[|sections[0]|..|sections[0]| + 2] == ". ";
    }
  }

  /** A line that starts with digits has no `. ` starting among them. */
  lemma DigitsHoldNoSeparator(line: string, digits: string)
    requires StartsWith(line, digits)
    requires forall k :: 0 <= k < |digits| ==> '0' <= digits[k] <= '9'
    ensures forall j :: 0 <= j < |digits| ==> !OccursAt(line, ". ", j)
  {
    forall j | 0 <= j < |digits| ensures !OccursAt(line, ". ", j) {
      assert line[j] == digits[j];
    }
  }

  // ---------------------------------------------------------------------
  // Each test of block_to_block_type, read from the lines
  // ---------------------------------------------------------------------

  /** The first line of a non-empty block starts with the block's first
      character. */
  lemma FirstLineFirstChar(block: string, m: string)
    requires |m| > 0 && StartsWith(Split(block, "\n")[0], m)
    ensures |block| > 0 && block[0] == m[0]
  {
    var first := Split(block, "\n")[0];
    SplitFirstIsPrefix(block, "\n");
    FirstCharRules(first, m);
    FirstLineStart(block, first);
  }

  /** A block fenced by three backticks at both ends is a code block. */
  lemma FencedIsCodeBlock(block: string)
    requires StartsWith(block, "```") && EndsWith(block, "```")
    ensures BlockToBlockType(block) == CodeBlock
  {
    FirstCharRules(block, "```");
    NotHeading(block);
  }

  /** A block whose every line starts with `>` is a quote. */
  lemma MarkedLinesAreQuote(block: string)
    requires IsQuote(Split(block, "\n"))
    ensures BlockToBlockType(block) == Quote
  {
    FirstLineFirstChar(block, ">");
    NotHeading(block);
    FirstCharRules(block, "```");
  }

  /** A block whose every line starts with `* ` or `- ` is an unordered
      list. */
  lemma BulletedLinesAreUnorderedList(block: string)
    requires IsUnordered(Split(block, "\n"))
    ensures BlockToBlockType(block) == UnorderedList
  {
    var lines := Split(block, "\n");
    if StartsWith(lines[0], "* ") {
      FirstLineFirstChar(block, "* ");
    } else {
      FirstLineFirstChar(block, "- ");
    }
    NotHeading(block);
    FirstCharRules(block, "```");
    FirstCharRules(lines[0], ">");
  }

  /** A block whose line `i` starts with the number `i + 1` and `. ` is an
      ordered list: the converse of `OrderedListNumbered`. */
  lemma NumberedLinesAreOrderedList(block: string)
    requires forall i :: 0 <= i < |Split(block, "\n")| ==>
               StartsWith(Split(block, "\n")[i], NatToString(i + 1) + ". ")
    ensures BlockToBlockType(block) == OrderedList
  {
    var lines := Split(block, "\n");
    assert OrderedMarker(0) == "1. " by {
      assert NatToString(1) == [DigitChar(1)] == "1";
    }
    assert StartsWith(lines[0], OrderedMarker(0));
    FirstLineFirstChar(block, "1. ");
    NotHeading(block);
    FirstCharRules(block, "```");
    FirstCharRules(lines[0], ">");
    FirstCharRules(lines[0], "* ");
    FirstCharRules(lines[0], "- ");
  }

  /** Two lines joined by a newline split back into those two lines. */
  lemma TwoLines(a: string, b: string)
    requires forall k :: 0 <= k < |a| ==> a[k] != '\n'
    requires forall k :: 0 <= k < |b| ==> b[k] != '\n'
    ensures Split(a + "\n" + b, "\n") == [a, b]
  {
    var s := a + "\n" + b;
    assert s[|a|..|a| + 1] == "\n";
    forall j | 0 <= j < |a| ensures !OccursAt(s, "\n", j) {
      assert s[j..j + 1][0] == s[j] == a[j];
    }
    FindIs(s, "\n", |a|);
    assert s[..|a|] == a && s[|a| + 1..] == b;
    LacksDelimiter(b, "\n");
    SplitWithout(b, "\n");
  }

  /** Lines numbered 1 and 2 make an ordered list: the positive twin of
      `OrderedListNeedsOne`. */
  lemma OrderedListFromOne()
    ensures BlockToBlockType("1. x\n2. y") == OrderedList
  {
    TwoNumberedLines("1. x", "2. y");
    assert "1. x" + "\n" + "2. y" == "1. x\n2. y";
  }

  /** A line starting `1. ` and a line starting `2. ` make an ordered list. */
  lemma TwoNumberedLines(a: string, b: string)
    requires forall k :: 0 <= k < |a| ==> a[k] != '\n'
    requires forall k :: 0 <= k < |b| ==> b[k] != '\n'
    requires StartsWith(a, "1. ") && StartsWith(b, "2. ")
    ensures BlockToBlockType(a + "\n" + b) == OrderedList
  {
    TwoLines(a, b);
    OneAndTwo();
    NumberedLinesAreOrderedList(a + "\n" + b);
  }

  lemma OneAndTwo()
    ensures NatToString(1) + ". " == "1. " && NatToString(2) + ". " == "2. "
  {
  }

  // ---------------------------------------------------------------------
  // The whole classification, in both directions
  // ---------------------------------------------------------------------

  /** Each block type holds exactly when its own test passes and every
      earlier test fails; a paragraph is what no test claims. */
  lemma BlockTypeSound(block: string)
    ensures var lines := Split(block, "\n");
            var fenced := StartsWith(block, "```") && EndsWith(block, "```");
            && (BlockToBlockType(block) == Heading <==> IsHeading(block))
            && (BlockToBlockType(block) == CodeBlock <==> !IsHeading(block) && fenced)
            && (BlockToBlockType(block) == Quote <==> !IsHeading(block) && !fenced && IsQuote(lines))
            && (BlockToBlockType(block) == UnorderedList
                <==> !IsHeading(block) && !fenced && !IsQuote(lines) && IsUnordered(lines))
            && (BlockToBlockType(block) == OrderedList
                <==> !IsHeading(block) && !fenced && !IsQuote(lines) && !IsUnordered(lines) && IsOrdered(lines))
            && (BlockToBlockType(block) == Paragraph
                <==> !IsHeading(block) && !fenced && !IsQuote(lines) && !IsUnordered(lines) && !IsOrdered(lines))
  {
  }

  /** A block is a paragraph when it starts with neither `#` nor a
      backtick, its first line does not start with `1. `, some line `q` does
      not start with `>`, and some line `u` starts with neither `* ` nor
      `- `. */
  lemma UnclaimedIsParagraph(block: string, q: nat, u: nat)
    requires |block| > 0 && block[0] !in {'#', '`'}
    requires q < |Split(block, "\n")| && !StartsWith(Split(block, "\n")[q], ">")
    requires u < |Split(block, "\n")| && !StartsWith(Split(block, "\n")[u], "* ")
                                        && !StartsWith(Split(block, "\n")[u], "- ")
    requires !StartsWith(Split(block, "\n")[0], OrderedMarker(0))
    ensures BlockToBlockType(block) == Paragraph
  {
    NotHeading(block);
    FirstCharRules(block, "```");
    BlockTypeSound(block);
  }

  /** `>a` then `b`: not every line is quoted, so a paragraph. */
  lemma HalfQuoteIsParagraph()
    ensures BlockToBlockType(">a\nb") == Paragraph
  {
    TwoLines(">a", "b");
    assert ">a" + "\n" + "b" == ">a\nb";
    FirstMarker();
    assert !StartsWith(">a", "1. ");
    assert !StartsWith("b", ">") && !StartsWith(">a", "* ") && !StartsWith(">a", "- ");
    UnclaimedIsParagraph(">a\nb", 1, 0);
  }

  /** `* a` then `b`: not every line is bulleted, so a paragraph. */
  lemma HalfListIsParagraph()
    ensures BlockToBlockType("* a\nb") == Paragraph
  {
    TwoLines("* a", "b");
    assert "* a" + "\n" + "b" == "* a\nb";
    FirstMarker();
    assert !StartsWith("* a", "1. ");
    assert !StartsWith("* a", ">") && !StartsWith("b", "* ") && !StartsWith("b", "- ");
    UnclaimedIsParagraph("* a\nb", 0, 1);
  }

  /** A block opened but not closed by three backticks is a paragraph. */
  lemma UnclosedFenceIsParagraph()
    ensures BlockToBlockType("```x") == Paragraph
  {
    var b := "```x";
    LacksDelimiter(b, "\n");
    SplitWithout(b, "\n");
    NotHeading(b);
    FirstMarker();
    assert !EndsWith(b, "```");
    var lines := Split(b, "\n");
    assert lines == [b] && lines[0] == b;
    assert !StartsWith(b, ">") && !StartsWith(b, "* ") && !StartsWith(b, "- ") && !StartsWith(b, "1. ");
    assert !IsQuote(lines) && !IsUnordered(lines) && !IsOrdered(lines);
    BlockTypeSound(b);
  }

  lemma FirstMarker()
    ensures OrderedMarker(0) == "1. "
  {
    assert NatToString(1) == "1";
  }
}

