/** The few Python `str` operations the converter relies on: `startswith`,
    `endswith`, `split(sep)`, `split(sep, 1)`, `sep.join(parts)`,
    `strip()`, `strip(chars)` and `str(n)` for a natural number. */
module Strings {
  import opened Wrappers

  predicate StartsWith(s: string, prefix: string)
  {
    |prefix| <= |s| && s[..|prefix|] == prefix
  }

  predicate EndsWith(s: string, suffix: string)
  {
    |suffix| <= |s| && s[|s| - |suffix|..] == suffix
  }

  /** `d` occurs in `s` starting at index `i`. */
  predicate OccursAt(s: string, d: string, i: int)
  {
    0 <= i && i + |d| <= |s| && s[i..i + |d|] == d
  }

  ghost predicate Contains(s: string, d: string)
  {
    exists i :: OccursAt(s, d, i)
  }

  /** The first index at or after `from` where `d` occurs, as `str.find`. */
  function Find(s: string, d: string, from: nat): (r: Option<nat>)
    ensures r.Some? ==> from <= r.value && OccursAt(s, d, r.value)
    ensures r.Some? ==> forall j :: from <= j < r.value ==> !OccursAt(s, d, j)
    ensures r.None? ==> forall j :: from <= j ==> !OccursAt(s, d, j)
    decreases |s| - from
  {
    if from + |d| > |s| then None
    else if s[from..from + |d|] == d then Some(from)
    else Find(s, d, from + 1)
  }

  /** The first index at or after `from` holding the character `c`. */
  function FindChar(s: string, c: char, from: nat): (r: Option<nat>)
    ensures r.Some? ==> from <= r.value < |s| && s[r.value] == c
    ensures r.Some? ==> forall j :: from <= j < r.value ==> s[j] != c
    ensures r.None? ==> forall j :: from <= j < |s| ==> s[j] != c
    decreases |s| - from
  {
    if from >= |s| then None
    else if s[from] == c then Some(from)
    else FindChar(s, c, from + 1)
  }

  /** `sep.join(parts)` */
  function Join(parts: seq<string>, sep: string): string
  {
    if |parts| == 0 then ""
    else if |parts| == 1 then parts[0]
    else parts[0] + sep + Join(parts[1..], sep)
  }

  /** `"".join(parts)` */
  function Concat(parts: seq<string>): string
  {
    if |parts| == 0 then "" else parts[0] + Concat(parts[1..])
  }

  lemma {:induction false} ConcatAppend(a: seq<string>, b: seq<string>)
    ensures Concat(a + b) == Concat(a) + Concat(b)
  {
    if |a| > 0 {
      assert (a + b)[1..] == a[1..] + b;
      ConcatAppend(a[1..], b);
    } else {
      assert a + b == b;
    }
  }

  /** A delimiter whose first character a text lacks does not occur in it. */
  lemma LacksDelimiter(t: string, d: string)
    requires |d| > 0 && forall x :: 0 <= x < |t| ==> t[x] != d[0]
    ensures !Contains(t, d)
  {
    forall i | OccursAt(t, d, i) ensures false {
      OccursAtChars(t, d, i);
    }
  }

  /** An occurrence of `d` at `i` spells `d` character by character. */
  lemma OccursAtChars(s: string, d: string, i: int)
    requires OccursAt(s, d, i)
    ensures forall x :: 0 <= x < |d| ==> s[i + x] == d[x]
    ensures |d| > 0 ==> s[i] == d[0]
  {
    forall x | 0 <= x < |d| ensures s[i + x] == d[x] {
      assert s[i..i + |d|][x] == s[i + x];
    }
  }

  /** A text without `d` is one part. */
  lemma SplitWithout(s: string, d: string)
    requires |d| > 0 && !Contains(s, d)
    ensures Split(s, d) == [s]
  {
  }

  /** `Find` returns the first occurrence. */
  lemma FindIs(s: string, d: string, i: nat)
    requires OccursAt(s, d, i) && forall j :: 0 <= j < i ==> !OccursAt(s, d, j)
    ensures Find(s, d, 0) == Some(i)
  {
  }

  /** Splitting at the first occurrence: the part before it, then the
      split of the rest. */
  lemma SplitAt(s: string, d: string, i: nat)
    requires |d| > 0 && OccursAt(s, d, i) && forall j :: 0 <= j < i ==> !OccursAt(s, d, j)
    ensures Split(s, d) == [s[..i]] + Split(s[i + |d|..], d)
  {
    FindIs(s, d, i);
  }

  /** A prefix of `s` that ends before the first occurrence of `d` holds no
      occurrence of `d`. */
  lemma PrefixKeepsNoOccurrence(s: string, d: string, i: nat)
    requires |d| > 0 && i <= |s|
    requires forall j :: 0 <= j < i ==> !OccursAt(s, d, j)
    ensures !Contains(s[..i], d)
  {
    forall j | OccursAt(s[..i], d, j)
      ensures false
    {
      assert s[..i][j..j + |d|] == s[j..j + |d|];
      assert OccursAt(s, d, j);
    }
  }

  /** `s.split(d)` for a non-empty separator: the pieces between the
      occurrences of `d` found left to right without overlap. */
  function Split(s: string, d: string): (parts: seq<string>)
    requires |d| > 0
    ensures |parts| >= 1
    decreases |s|
  {
    match Find(s, d, 0)
    case None => [s]
    case Some(i) => [s[..i]] + Split(s[i + |d|..], d)
  }

  /** The first piece is a prefix of the string. */
  lemma SplitFirstIsPrefix(s: string, d: string)
    requires |d| > 0
    ensures StartsWith(s, Split(s, d)[0])
  {
  }

  /** Joining the pieces with the separator gives back the string. */
  lemma {:induction false} SplitJoin(s: string, d: string)
    requires |d| > 0
    ensures Join(Split(s, d), d) == s
    decreases |s|
  {
    match Find(s, d, 0)
    case None =>
    case Some(i) =>
      var rest := Split(s[i + |d|..], d);
      SplitJoin(s[i + |d|..], d);
      assert s[..i] + d + s[i + |d|..] == s by {
        assert s[i..i + |d|] == d;
        assert s == s[..i] + s[i..i + |d|] + s[i + |d|..];
      }
      assert ([s[..i]] + rest)[1..] == rest;
  }

  /** No piece holds the separator. */
  lemma {:induction false} SplitPartsLackSeparator(s: string, d: string)
    requires |d| > 0
    ensures forall k :: 0 <= k < |Split(s, d)| ==> !Contains(Split(s, d)[k], d)
    decreases |s|
  {
    match Find(s, d, 0)
    case None =>
      assert !Contains(s, d) by {
        forall j | OccursAt(s, d, j) ensures false { }
      }
    case Some(i) =>
      var rest := Split(s[i + |d|..], d);
      SplitPartsLackSeparator(s[i + |d|..], d);
      PrefixKeepsNoOccurrence(s, d, i);
      assert Split(s, d) == [s[..i]] + rest;
  }

  /** Every character of a piece is a character of the joined string. */
  lemma {:induction false} JoinHasPart(parts: seq<string>, sep: string, i: nat)
    requires i < |parts|
    ensures forall c :: c in parts[i] ==> c in Join(parts, sep)
    decreases i
  {
    if |parts| > 1 {
      if i > 0 {
        JoinHasPart(parts[1..], sep, i - 1);
        assert parts[1..][i - 1] == parts[i];
      }
      assert Join(parts, sep) == parts[0] + sep + Join(parts[1..], sep);
    }
  }

  /** `s` with every occurrence of `d` deleted, scanning left to right: an
      independent reading of `"".join(s.split(d))`. */
  function RemoveAll(s: string, d: string): string
    requires |d| > 0
    decreases |s|
  {
    if |s| == 0 then ""
    else if StartsWith(s, d) then RemoveAll(s[|d|..], d)
    else [s[0]] + RemoveAll(s[1..], d)
  }

  /** Before the first occurrence of `d`, `RemoveAll` keeps every character. */
  lemma {:induction false} RemoveAllKeepsPrefix(s: string, d: string, i: nat)
    requires |d| > 0 && i <= |s|
    requires forall j :: 0 <= j < i ==> !OccursAt(s, d, j)
    ensures RemoveAll(s, d) == s[..i] + RemoveAll(s[i..], d)
    decreases i
  {
    if i == 0 {
      assert s[..0] + RemoveAll(s[0..], d) == RemoveAll(s, d) by {
        assert s[0..] == s;
      }
    } else {
      assert !OccursAt(s, d, 0);
      var t := s[1..];
      NoOccurrenceAfterFirst(s, d, i);
      RemoveAllKeepsPrefix(t, d, i - 1);
      assert t[i - 1..] == s[i..];
      assert [s[0]] + t[..i - 1] == s[..i];
      AppendAssociates([s[0]], t[..i - 1], RemoveAll(t[i - 1..], d));
    }
  }

  /** With no occurrence of `d` before `i`, dropping the first character
      leaves none before `i - 1`. */
  lemma NoOccurrenceAfterFirst(s: string, d: string, i: nat)
    requires 0 < i <= |s|
    requires forall j :: 0 <= j < i ==> !OccursAt(s, d, j)
    ensures forall j :: 0 <= j < i - 1 ==> !OccursAt(s[1..], d, j)
  {
    var t := s[1..];
    forall j | 0 <= j < i - 1 ensures !OccursAt(t, d, j) {
      if OccursAt(t, d, j) {
        assert s[j + 1..j + 1 + |d|] == t[j..j + |d|];
        assert OccursAt(s, d, j + 1);
      }
    }
  }

  /** Splitting on `d` and concatenating the pieces deletes every `d`. */
  lemma {:induction false} SplitConcat(s: string, d: string)
    requires |d| > 0
    ensures Concat(Split(s, d)) == RemoveAll(s, d)
    decreases |s|
  {
    match Find(s, d, 0)
    case None => SplitConcatWithout(s, d);
    case Some(i) =>
      SplitConcat(s[i + |d|..], d);
      SplitConcatAt(s, d, i);
  }

  lemma SplitConcatWithout(s: string, d: string)
    requires |d| > 0 && Find(s, d, 0).None?
    ensures Concat(Split(s, d)) == RemoveAll(s, d)
  {
    RemoveAllKeepsPrefix(s, d, |s|);
    assert s[..|s|] == s && s[|s|..] == "";
    assert Concat([s]) == s + Concat([]);
  }

  lemma SplitConcatAt(s: string, d: string, i: nat)
    requires |d| > 0 && Find(s, d, 0) == Some(i)
    requires Concat(Split(s[i + |d|..], d)) == RemoveAll(s[i + |d|..], d)
    ensures Concat(Split(s, d)) == RemoveAll(s, d)
  {
    RemoveAllKeepsPrefix(s, d, i);
    RemoveAllAtOccurrence(s, d, i);
    ConcatCons(s[..i], Split(s[i + |d|..], d));
  }

  /** At an occurrence of `d`, `RemoveAll` deletes it and goes on after it. */
  lemma RemoveAllAtOccurrence(s: string, d: string, i: nat)
    requires |d| > 0 && OccursAt(s, d, i)
    ensures RemoveAll(s[i..], d) == RemoveAll(s[i + |d|..], d)
  {
    assert s[i..][..|d|] == d;
    assert s[i..][|d|..] == s[i + |d|..];
  }

  lemma ConcatCons(x: string, xs: seq<string>)
    ensures Concat([x] + xs) == x + Concat(xs)
  {
    assert ([x] + xs)[1..] == xs;
  }

  /** `s.split(d, 1)`: the text before and after the first occurrence of `d`,
      or `[s]` when `d` does not occur. */
  function SplitOnce(s: string, d: string): (parts: seq<string>)
    requires |d| > 0
    ensures 1 <= |parts| <= 2
  {
    match Find(s, d, 0)
    case None => [s]
    case Some(i) => [s[..i], s[i + |d|..]]
  }

  /** `split(d, 1)` cuts at the first occurrence of `d`: two parts around
      it when there is one, else the whole text. */
  lemma SplitOnceParts(s: string, d: string)
    requires |d| > 0
    ensures var parts := SplitOnce(s, d);
            && (|parts| == 1 <==> !Contains(s, d))
            && (|parts| == 1 ==> parts[0] == s)
            && (|parts| == 2 ==> parts[0] + d + parts[1] == s && !Contains(parts[0], d))
            && (|parts| == 2 ==> forall j :: OccursAt(s, d, j) ==> |parts[0]| <= j)
  {
    match Find(s, d, 0)
    case None =>
      assert !Contains(s, d) by {
        forall j | OccursAt(s, d, j) ensures false { }
      }
    case Some(i) =>
      PrefixKeepsNoOccurrence(s, d, i);
      assert s[..i] + d + s[i + |d|..] == s by {
        assert s[i..i + |d|] == d;
        assert s == s[..i] + s[i..i + |d|] + s[i + |d|..];
      }
  }

  /** `s[k:]` with Python's clamped slicing. */
  function Drop(s: string, k: nat): (r: string)
    ensures |s| <= k ==> r == ""
    ensures k < |s| ==> |r| == |s| - k && forall j :: 0 <= j < |r| ==> r[j] == s[k + j]
  {
    if k <= |s| then s[k..] else ""
  }

  /** The characters `str.strip()` removes: the ASCII characters Python's
      `str.isspace` accepts. */
  const Whitespace: set<char> :=
    {' ', '\t', '\n', '\r', '\U{0B}', '\U{0C}', '\U{1C}', '\U{1D}', '\U{1E}', '\U{1F}'}

  function StripLeft(s: string, cs: set<char>): (r: string)
    ensures |r| <= |s| && r == s[|s| - |r|..]
    ensures forall k :: 0 <= k < |s| - |r| ==> s[k] in cs
    ensures |r| > 0 ==> r[0] !in cs
  {
    if |s| > 0 && s[0] in cs then StripLeft(s[1..], cs) else s
  }

  function StripRight(s: string, cs: set<char>): (r: string)
    ensures |r| <= |s| && r == s[..|r|]
    ensures forall k :: |r| <= k < |s| ==> s[k] in cs
    ensures |r| > 0 ==> r[|r| - 1] !in cs
  {
    if |s| > 0 && s[|s| - 1] in cs then StripRight(s[..|s| - 1], cs) else s
  }

  /** `r` is `s[i..i + |r|]` and every character of `s` outside it is in `cs`. */
  ghost predicate TrimmedAt(s: string, r: string, cs: set<char>, i: int)
  {
    && 0 <= i <= |s| - |r| && r == s[i..i + |r|]
    && (forall k :: 0 <= k < i ==> s[k] in cs)
    && (forall k :: i + |r| <= k < |s| ==> s[k] in cs)
  }

  /** `s.strip(chars)`: drops every leading and trailing character in `cs`. */
  function StripChars(s: string, cs: set<char>): (r: string)
    ensures |r| > 0 ==> r[0] !in cs && r[|r| - 1] !in cs
    ensures exists i :: TrimmedAt(s, r, cs, i)
  {
    var l := StripLeft(s, cs);
    var r := StripRight(l, cs);
    var i := |s| - |l|;
    assert TrimmedAt(s, r, cs, i);
    r
  }

  /** `s.strip()` */
  function Strip(s: string): string
  {
    StripChars(s, Whitespace)
  }

  lemma StripCharsIdempotent(s: string, cs: set<char>)
    ensures StripChars(StripChars(s, cs), cs) == StripChars(s, cs)
  {
    var r := StripChars(s, cs);
    assert StripLeft(r, cs) == r;
    assert StripRight(r, cs) == r;
  }

  lemma StripIdempotent(s: string)
    ensures Strip(Strip(s)) == Strip(s)
  {
    StripCharsIdempotent(s, Whitespace);
  }

  /** `s.strip()` is empty exactly when every character of `s` is whitespace. */
  lemma StripEmpty(s: string)
    ensures Strip(s) == "" <==> forall k :: 0 <= k < |s| ==> s[k] in Whitespace
  {
    var l := StripLeft(s, Whitespace);
  }

  function DigitChar(d: nat): (c: char)
    requires d < 10
    ensures '0' <= c <= '9'
    ensures DigitValue(c) == d
  {
    "0123456789"[d]
  }

  /** The value of one decimal digit character. */
  function DigitValue(c: char): int
  {
    c as int - '0' as int
  }

  /** Reading a string of digits as a decimal number, left to right: each
      digit multiplies what was read so far by ten and adds itself. */
  function DecimalValue(s: string): int
  {
    if s == [] then 0 else DecimalValue(s[..|s| - 1]) * 10 + DigitValue(s[|s| - 1])
  }

  /** `str(n)`: the decimal digits of `n`, most significant first, without
      leading zeros, which read back as `n`. */
  function NatToString(n: nat): (r: string)
    ensures |r| >= 1
    ensures forall k :: 0 <= k < |r| ==> '0' <= r[k] <= '9'
    ensures DecimalValue(r) == n
    ensures n > 0 ==> r[0] != '0'
  {
    if n < 10 then
      var r := [DigitChar(n)];
      assert r[..0] == [];
      r
    else
      var high := NatToString(n / 10);
      var r := high + [DigitChar(n % 10)];
      assert r[..|r| - 1] == high;
      r
  }
}
