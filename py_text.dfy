/**
  The Python `str` built-ins the cover-letter generator relies on: `isspace`,
  `strip()`, `split(sep)`, `sep.join(parts)` and the one-character form of
  `replace(old, new)`. Strings are sequences of Unicode code points, as in
  Python 3.
 */
module PyText {
  import opened Wrappers

  /** `c.isspace()` in Python 3: the code points Python treats as whitespace. */
  predicate IsSpace(c: char) {
    || ('\t' <= c <= '\r')             // tab, line feed, vertical tab, form feed, carriage return
    || ('\U{1C}' <= c <= '\U{1F}')     // file, group, record and unit separators
    || c == ' '
    || c == '\U{85}'                   // next line
    || c == '\U{A0}'                   // no-break space
    || c == '\U{1680}'                 // ogham space mark
    || ('\U{2000}' <= c <= '\U{200A}') // en quad .. hair space
    || c == '\U{2028}'                 // line separator
    || c == '\U{2029}'                 // paragraph separator
    || c == '\U{202F}'                 // narrow no-break space
    || c == '\U{205F}'                 // medium mathematical space
    || c == '\U{3000}'                 // ideographic space
  }

  /** Every character of `s` in `lo..hi` is whitespace. */
  predicate SpaceBetween(s: string, lo: int, hi: int)
    requires 0 <= lo && hi <= |s|
  {
    forall m :: lo <= m < hi ==> IsSpace(s[m])
  }

  predicate AllSpace(s: string) {
    SpaceBetween(s, 0, |s|)
  }

  /** Neither the first nor the last character of `s` is whitespace. */
  predicate Trimmed(s: string) {
    s == [] || (!IsSpace(s[0]) && !IsSpace(s[|s| - 1]))
  }

  // ---------------------------------------------------------------------
  // strip()
  // ---------------------------------------------------------------------

  /** The length of the longest whitespace prefix of `s`. */
  function LeadingSpace(s: string): (k: nat)
    ensures k <= |s| && SpaceBetween(s, 0, k)
    ensures k == |s| || !IsSpace(s[k])
  {
    if |s| > 0 && IsSpace(s[0]) then 1 + LeadingSpace(s[1..]) else 0
  }

  /** The length of the longest whitespace suffix of `s`. */
  function TrailingSpace(s: string): (k: nat)
    ensures k <= |s| && SpaceBetween(s, |s| - k, |s|)
    ensures k == |s| || !IsSpace(s[|s| - k - 1])
  {
    if |s| > 0 && IsSpace(s[|s| - 1]) then 1 + TrailingSpace(s[..|s| - 1]) else 0
  }

  /** `s.strip()`: `s` without its leading and trailing whitespace. */
  function Strip(s: string): (r: string)
    ensures |r| <= |s| && Trimmed(r)
    ensures exists i :: 0 <= i <= |s| - |r| && r == s[i..i + |r|] && SpaceBetween(s, 0, i) && SpaceBetween(s, i + |r|, |s|)
  {
    var i := LeadingSpace(s);
    var t := s[i..];
    var e := |t| - TrailingSpace(t);
    assert SpaceBetween(s, i + e, |s|) by {
      forall m | i + e <= m < |s| ensures IsSpace(s[m]) { assert s[m] == t[m - i]; }
    }
    s[i..i + e]
  }

  /** Where the stripped text starts in `s`. */
  lemma StripPosition(s: string) returns (i: int)
    ensures 0 <= i <= |s| - |Strip(s)| && Strip(s) == s[i..i + |Strip(s)|]
    ensures SpaceBetween(s, 0, i) && SpaceBetween(s, i + |Strip(s)|, |s|)
  {
    i := LeadingSpace(s);
    var t := s[i..];
    var e := |t| - TrailingSpace(t);
    assert Strip(s) == s[i..i + e];
    forall m | i + e <= m < |s| ensures IsSpace(s[m]) { assert s[m] == t[m - i]; }
  }

  /** The whitespace prefix ends at the first character that is not whitespace. */
  lemma LeadingSpaceIs(s: string, i: nat)
    requires i <= |s| && SpaceBetween(s, 0, i)
    requires i == |s| || !IsSpace(s[i])
    ensures LeadingSpace(s) == i
  {
  }

  /** The whitespace suffix starts after the last character that is not whitespace. */
  lemma TrailingSpaceIs(s: string, n: nat)
    requires n <= |s| && SpaceBetween(s, |s| - n, |s|)
    requires n == |s| || !IsSpace(s[|s| - n - 1])
    ensures TrailingSpace(s) == n
  {
  }

  /**
    Strip has exactly one answer: whichever way `s` is cut into a whitespace
    prefix, a trimmed middle and a whitespace suffix, the middle is `Strip(s)`.
   */
  lemma {:induction false} StripUnique(s: string, i: nat, j: nat)
    requires i <= j <= |s|
    requires SpaceBetween(s, 0, i) && SpaceBetween(s, j, |s|) && Trimmed(s[i..j])
    ensures Strip(s) == s[i..j]
  {
    if i == j {
      assert SpaceBetween(s, 0, |s|) by {
        forall m | 0 <= m < |s| ensures IsSpace(s[m]) {
          if m >= i { assert m >= j; }
        }
      }
      LeadingSpaceIs(s, |s|);
      TrailingSpaceIs(s[|s|..], 0);
      assert Strip(s) == s[|s|..|s|];
    } else {
      assert !IsSpace(s[i]) && !IsSpace(s[j - 1]) by {
        assert s[i..j][0] == s[i] && s[i..j][j - i - 1] == s[j - 1];
      }
      LeadingSpaceIs(s, i);
      var t := s[i..];
      assert SpaceBetween(t, j - i, |t|) by {
        forall m | j - i <= m < |t| ensures IsSpace(t[m]) { assert t[m] == s[i + m]; }
      }
      assert t[j - i - 1] == s[j - 1];
      TrailingSpaceIs(t, |s| - j);
    }
  }

  /** Stripping a second time changes nothing. */
  lemma {:induction false} StripIdempotent(s: string)
    ensures Strip(Strip(s)) == Strip(s)
  {
    var r := Strip(s);
    assert r[0..|r|] == r;
    StripUnique(r, 0, |r|);
  }

  /** `s.strip()` is empty exactly when `s` is entirely whitespace. */
  lemma {:induction false} StripEmptyIffBlank(s: string)
    ensures Strip(s) == [] <==> AllSpace(s)
  {
    if AllSpace(s) {
      StripUnique(s, 0, 0);
    }
  }

  // ---------------------------------------------------------------------
  // replace(from, to) for one-character from and to
  // ---------------------------------------------------------------------

  /** `s.replace(old, new)` where `old` and `new` are single characters. */
  function ReplaceChar(s: string, from: char, to: char): (r: string)
    ensures |r| == |s|
    ensures forall k :: 0 <= k < |s| ==> r[k] == (if s[k] == from then to else s[k])
  {
    if s == [] then []
    else [if s[0] == from then to else s[0]] + ReplaceChar(s[1..], from, to)
  }

  // ---------------------------------------------------------------------
  // find and split(sep)
  // ---------------------------------------------------------------------

  /** `sep` occurs in `s` starting at index `k`. */
  predicate MatchAt(s: string, sep: string, k: int) {
    0 <= k && k + |sep| <= |s| && s[k..k + |sep|] == sep
  }

  /** `sep` does not occur in `s` at any index below `k`. */
  predicate NoMatchBefore(s: string, sep: string, k: int) {
    forall m :: 0 <= m < k ==> !MatchAt(s, sep, m)
  }

  /** `s.find(sep, k)`: the first index at or after `k` where `sep` occurs. */
  function FindFrom(s: string, sep: string, k: nat): (r: Option<nat>)
    ensures r.Some? ==> k <= r.value && MatchAt(s, sep, r.value)
    ensures r.Some? ==> forall m :: k <= m < r.value ==> !MatchAt(s, sep, m)
    ensures r.None? ==> forall m :: k <= m ==> !MatchAt(s, sep, m)
    decreases |s| - k
  {
    if k + |sep| > |s| then None
    else if s[k..k + |sep|] == sep then Some(k)
    else FindFrom(s, sep, k + 1)
  }

  /** The first-occurrence contract of FindFrom determines its result. */
  lemma FindFromIs(s: string, sep: string, k: nat, v: nat)
    requires k <= v && MatchAt(s, sep, v)
    requires forall m :: k <= m < v ==> !MatchAt(s, sep, m)
    ensures FindFrom(s, sep, k) == Some(v)
  {
  }

  /**
    `s.split(sep)` for a non-empty separator: cut `s` at each leftmost,
    non-overlapping occurrence of `sep`, left to right, keeping empty pieces.
   */
  function Split(s: string, sep: string): (r: seq<string>)
    requires sep != []
    ensures |r| >= 1
    decreases |s|
  {
    match FindFrom(s, sep, 0)
    case None => [s]
    case Some(i) => [s[..i]] + Split(s[i + |sep|..], sep)
  }

  /** `sep.join(parts)`: the parts in order, with `sep` between neighbours. */
  function Join(sep: string, parts: seq<string>): string {
    if |parts| == 0 then ""
    else if |parts| == 1 then parts[0]
    else parts[0] + sep + Join(sep, parts[1..])
  }

  /**
    What it means for `parts` to be the left-to-right cut of some string at
    `sep`: in each piece but the last, the first occurrence of `sep` in
    `piece + sep` is the appended one; the last piece holds no `sep` at all.
   */
  predicate LeftmostPieces(parts: seq<string>, sep: string) {
    && |parts| >= 1
    && (forall j :: 0 <= j < |parts| - 1 ==> NoMatchBefore(parts[j] + sep, sep, |parts[j]|))
    && NoMatchBefore(parts[|parts| - 1], sep, |parts[|parts| - 1]|)
  }

  /** Joining a part onto a non-empty join puts one separator between them. */
  lemma JoinCons(sep: string, p: string, tail: seq<string>)
    requires tail != []
    ensures Join(sep, [p] + tail) == p + sep + Join(sep, tail)
  {
    assert ([p] + tail)[1..] == tail;
  }

  /** A leftmost cut stays leftmost when a leftmost piece is put in front. */
  lemma {:induction false} LeftmostCons(p: string, tail: seq<string>, sep: string)
    requires NoMatchBefore(p + sep, sep, |p|) && LeftmostPieces(tail, sep)
    ensures LeftmostPieces([p] + tail, sep)
  {
    var parts := [p] + tail;
    forall j | 0 <= j < |parts| - 1 ensures NoMatchBefore(parts[j] + sep, sep, |parts[j]|) {
      if j > 0 { assert parts[j] == tail[j - 1]; }
    }
  }

  /** The tail of a leftmost cut is a leftmost cut. */
  lemma {:induction false} LeftmostTail(parts: seq<string>, sep: string)
    requires LeftmostPieces(parts, sep) && |parts| > 1
    ensures LeftmostPieces(parts[1..], sep)
  {
    var rest := parts[1..];
    forall j | 0 <= j < |rest| - 1 ensures NoMatchBefore(rest[j] + sep, sep, |rest[j]|) {
      assert rest[j] == parts[j + 1];
    }
  }

  /** If `sep` first occurs in `s` at `i`, then `s[..i] + sep` has no earlier occurrence. */
  lemma {:induction false} FirstPieceLeftmost(s: string, sep: string, i: nat)
    requires FindFrom(s, sep, 0) == Some(i)
    ensures NoMatchBefore(s[..i] + sep, sep, i)
  {
    var q := s[..i] + sep;
    assert q == s[..i + |sep|];
    forall m | 0 <= m < i ensures !MatchAt(q, sep, m) {
      assert !MatchAt(s, sep, m);
      assert q[m..m + |sep|] == s[m..m + |sep|];
    }
  }

  /** Joining the pieces of a split gives back the string. */
  lemma {:induction false} SplitJoin(s: string, sep: string)
    requires sep != []
    ensures Join(sep, Split(s, sep)) == s
    decreases |s|
  {
    var f := FindFrom(s, sep, 0);
    if f.None? {
      assert Split(s, sep) == [s];
    } else {
      var i := f.value;
      var rest := s[i + |sep|..];
      SplitJoin(rest, sep);
      var tail := Split(rest, sep);
      assert Split(s, sep) == [s[..i]] + tail;
      JoinCons(sep, s[..i], tail);
      assert s == s[..i] + sep + rest by { assert s[i..i + |sep|] == sep; }
    }
  }

  /** The pieces of a split are cut at leftmost occurrences of the separator. */
  lemma {:induction false} SplitLeftmost(s: string, sep: string)
    requires sep != []
    ensures LeftmostPieces(Split(s, sep), sep)
    decreases |s|
  {
    var f := FindFrom(s, sep, 0);
    if f.None? {
      assert Split(s, sep) == [s];
      assert NoMatchBefore(s, sep, |s|);
    } else {
      var i := f.value;
      var rest := s[i + |sep|..];
      SplitLeftmost(rest, sep);
      var tail := Split(rest, sep);
      assert Split(s, sep) == [s[..i]] + tail;
      FirstPieceLeftmost(s, sep, i);
      LeftmostCons(s[..i], tail, sep);
    }
  }

  /** A piece that is leftmost, followed by the separator, puts the first occurrence right after the piece. */
  lemma {:induction false} FirstCut(p: string, sep: string, rest: string)
    requires NoMatchBefore(p + sep, sep, |p|)
    ensures FindFrom(p + sep + rest, sep, 0) == Some(|p|)
  {
    var s := p + sep + rest;
    assert MatchAt(s, sep, |p|) by { assert s[|p|..|p| + |sep|] == sep; }
    forall m | 0 <= m < |p| ensures !MatchAt(s, sep, m) {
      assert !MatchAt(p + sep, sep, m);
      assert s[m..m + |sep|] == (p + sep)[m..m + |sep|];
    }
    FindFromIs(s, sep, 0, |p|);
  }

  /** Splitting a leftmost piece, the separator and a tail gives the piece, then the tail's split. */
  lemma {:induction false} SplitCons(p: string, sep: string, tail: string)
    requires sep != []
    requires NoMatchBefore(p + sep, sep, |p|)
    ensures Split(p + sep + tail, sep) == [p] + Split(tail, sep)
  {
    var s := p + sep + tail;
    FirstCut(p, sep, tail);
    assert s[..|p|] == p;
    assert s[|p| + |sep|..] == tail;
  }

  /**
    The converse of SplitJoin and SplitLeftmost: a leftmost cut is the split of
    its join. With them this pins `Split(s, sep)` down as the one leftmost cut of `s`.
   */
  lemma {:induction false} SplitUnique(parts: seq<string>, sep: string)
    requires sep != []
    requires LeftmostPieces(parts, sep)
    ensures Split(Join(sep, parts), sep) == parts
    decreases |parts|
  {
    var s := Join(sep, parts);
    var p := parts[0];
    if |parts| == 1 {
      assert s == p;
      assert NoMatchBefore(s, sep, |s|);
    } else {
      var rest := parts[1..];
      LeftmostTail(parts, sep);
      SplitUnique(rest, sep);
      JoinCons(sep, p, rest);
      SplitCons(p, sep, Join(sep, rest));
      assert parts == [p] + rest;
    }
  }

  /** A string with no occurrence of the separator splits into itself alone. */
  lemma {:induction false} SplitWithoutSeparator(s: string, sep: string)
    requires sep != []
    requires NoMatchBefore(s, sep, |s|)
    ensures Split(s, sep) == [s]
  {
    SplitUnique([s], sep);
  }

  /** No piece of a split contains the separator. */
  lemma {:induction false} SplitPiecesAvoidSeparator(s: string, sep: string, j: nat, m: int)
    requires sep != [] && j < |Split(s, sep)|
    ensures !MatchAt(Split(s, sep)[j], sep, m)
  {
    SplitLeftmost(s, sep);
    var parts := Split(s, sep);
    var p := parts[j];
    if j < |parts| - 1 {
      assert NoMatchBefore(p + sep, sep, |p|);
      if 0 <= m && m + |sep| <= |p| {
        assert !MatchAt(p + sep, sep, m);
        assert (p + sep)[m..m + |sep|] == p[m..m + |sep|];
      }
    }
  }

  // ---------------------------------------------------------------------
  // Facts about join
  // ---------------------------------------------------------------------

  function TotalLength(parts: seq<string>): nat {
    if parts == [] then 0 else |parts[0]| + TotalLength(parts[1..])
  }

  /** Where `parts[i]` starts inside `Join(sep, parts)`: after every earlier part and one separator each. */
  function Offset(sep: string, parts: seq<string>, i: nat): nat
    requires i <= |parts|
  {
    TotalLength(parts[..i]) + i * |sep|
  }

  /** A join is as long as its parts plus one separator between each pair of neighbours. */
  lemma {:induction false} JoinLength(sep: string, parts: seq<string>)
    ensures |Join(sep, parts)| == TotalLength(parts) + (if parts == [] then 0 else (|parts| - 1) * |sep|)
    decreases |parts|
  {
    if |parts| > 1 {
      JoinLength(sep, parts[1..]);
      assert (|parts| - 1) * |sep| == (|parts| - 2) * |sep| + |sep|;
    } else if |parts| == 1 {
      assert parts[1..] == [];
    }
  }

  /** Dropping the first part moves every later offset back by that part and one separator. */
  lemma OffsetStep(sep: string, parts: seq<string>, i: nat)
    requires 0 < i <= |parts|
    ensures Offset(sep, parts, i) == |parts[0]| + |sep| + Offset(sep, parts[1..], i - 1)
  {
    assert parts[..i][1..] == parts[1..][..i - 1];
    assert i * |sep| == (i - 1) * |sep| + |sep|;
  }

  /** A slice lying inside the right operand of a concatenation. */
  lemma SliceRight(a: string, b: string, lo: int, hi: int)
    requires 0 <= lo <= hi <= |b|
    ensures (a + b)[|a| + lo..|a| + hi] == b[lo..hi]
  {
  }

  /**
    In `Join(sep, parts)`, part `i` appears unchanged at `Offset(sep, parts, i)`
    and, unless it is the last part, is followed by exactly one `sep`.
   */
  lemma {:induction false} JoinPieceAt(sep: string, parts: seq<string>, i: nat)
    requires i < |parts|
    ensures Offset(sep, parts, i) + |parts[i]| <= |Join(sep, parts)|
    ensures Join(sep, parts)[Offset(sep, parts, i)..Offset(sep, parts, i) + |parts[i]|] == parts[i]
    ensures i + 1 < |parts| ==>
              Offset(sep, parts, i) + |parts[i]| + |sep| <= |Join(sep, parts)| &&
              Join(sep, parts)[Offset(sep, parts, i) + |parts[i]|..Offset(sep, parts, i) + |parts[i]| + |sep|] == sep
    decreases i
  {
    var j := Join(sep, parts);
    if i == 0 {
      assert parts[..0] == [];
      if |parts| > 1 {
        assert j == parts[0] + sep + Join(sep, parts[1..]);
        assert j[..|parts[0]|] == parts[0];
        assert j[|parts[0]|..|parts[0]| + |sep|] == sep;
      }
    } else {
      var rest := parts[1..];
      var head := parts[0] + sep;
      JoinPieceAt(sep, rest, i - 1);
      assert j == head + Join(sep, rest);
      OffsetStep(sep, parts, i);
      var o := Offset(sep, rest, i - 1);
      var n := |parts[i]|;
      assert rest[i - 1] == parts[i];
      SliceRight(head, Join(sep, rest), o, o + n);
      if i + 1 < |parts| {
        SliceRight(head, Join(sep, rest), o + n, o + n + |sep|);
      }
    }
  }

  /** Each part followed by the separator, all concatenated. */
  function Terminated(sep: string, parts: seq<string>): string {
    if parts == [] then "" else parts[0] + sep + Terminated(sep, parts[1..])
  }

  /** A non-empty join lacks only the final separator of the terminated form. */
  lemma {:induction false} JoinThenSeparator(sep: string, parts: seq<string>)
    requires parts != []
    ensures Join(sep, parts) + sep == Terminated(sep, parts)
    decreases |parts|
  {
    if |parts| == 1 {
      assert parts[1..] == [];
    } else {
      JoinThenSeparator(sep, parts[1..]);
    }
  }

  /** Occurrences of `c` in `s`. */
  function Count(c: char, s: string): nat {
    if s == [] then 0 else (if s[0] == c then 1 else 0) + Count(c, s[1..])
  }

  lemma {:induction false} CountConcat(c: char, a: string, b: string)
    ensures Count(c, a + b) == Count(c, a) + Count(c, b)
    decreases |a|
  {
    if a == [] {
      assert a + b == b;
    } else {
      assert (a + b)[1..] == a[1..] + b;
      CountConcat(c, a[1..], b);
    }
  }

  /** Occurrences of `c` over all parts. */
  function TotalCount(c: char, parts: seq<string>): nat {
    if parts == [] then 0 else Count(c, parts[0]) + TotalCount(c, parts[1..])
  }

  /** Joining with the one-character separator `[c]` inserts exactly `|parts| - 1` copies of `c`. */
  lemma {:induction false} JoinCount(c: char, parts: seq<string>)
    requires parts != []
    ensures Count(c, Join([c], parts)) == TotalCount(c, parts) + |parts| - 1
    decreases |parts|
  {
    if |parts| == 1 {
      assert parts[1..] == [];
    } else {
      JoinCount(c, parts[1..]);
      CountConcat(c, parts[0] + [c], Join([c], parts[1..]));
      CountConcat(c, parts[0], [c]);
      assert Count(c, [c]) == 1 by { assert [c][1..] == []; }
    }
  }
}
