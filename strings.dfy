/** The parts of Go's `strings` package that the command table relies on:
    `TrimSpace` (ASCII whitespace only), `Index`/`Contains`, and `Join`,
    with `Split` on a single separator as the inverse of `Join`.
    Strings are sequences of characters. */
module Strings {

  /** The ASCII whitespace Go's `TrimSpace` strips: tab, newline, vertical tab,
      form feed, carriage return and space. */
  predicate IsSpace(c: char) {
    c == '\t' || c == '\n' || c == '\U{B}' || c == '\U{C}' || c == '\r' || c == ' '
  }

  predicate AllSpace(s: string) {
    forall i :: 0 <= i < |s| ==> IsSpace(s[i])
  }

  /** Every character of `s` from position `lo` up to `hi` is whitespace. */
  predicate SpaceBetween(s: string, lo: int, hi: int)
    requires 0 <= lo && hi <= |s|
  {
    forall k :: lo <= k < hi ==> IsSpace(s[k])
  }

  /** A string with no whitespace at either end (the empty string included). */
  predicate IsTrimmed(s: string) {
    s == [] || (!IsSpace(s[0]) && !IsSpace(s[|s| - 1]))
  }

  /** Go's first loop in `TrimSpace`: from `start`, the position of the first
      non-whitespace character, or `|s|` when there is none. */
  function SkipSpace(s: string, start: nat): (r: nat)
    requires start <= |s|
    ensures start <= r <= |s|
    ensures SpaceBetween(s, start, r)
    ensures r == |s| || !IsSpace(s[r])
    decreases |s| - start
  {
    if start < |s| && IsSpace(s[start]) then SkipSpace(s, start + 1) else start
  }

  /** Go's second loop in `TrimSpace`: from `stop` back towards `start`, the
      position just after the last non-whitespace character, or `start`. */
  function SkipSpaceBack(s: string, start: nat, stop: nat): (r: nat)
    requires start <= stop <= |s|
    ensures start <= r <= stop
    ensures SpaceBetween(s, r, stop)
    ensures r == start || !IsSpace(s[r - 1])
    decreases stop
  {
    if stop > start && IsSpace(s[stop - 1]) then SkipSpaceBack(s, start, stop - 1) else stop
  }

  /** Go's `strings.TrimSpace` on ASCII input: `s` is whitespace, then the
      result, then whitespace, and the result has no whitespace at either end. */
  function TrimSpace(s: string): (r: string)
    ensures IsTrimmed(r)
    ensures exists i, j :: 0 <= i <= j <= |s| && r == s[i..j]
              && SpaceBetween(s, 0, i) && SpaceBetween(s, j, |s|)
  {
    var start := SkipSpace(s, 0);
    var stop := SkipSpaceBack(s, start, |s|);
    s[start..stop]
  }

  /** The first loop stops at the first non-whitespace character. */
  lemma {:induction false} SkipSpaceStopsAt(s: string, start: nat, j: nat)
    requires start <= j <= |s|
    requires SpaceBetween(s, start, j) && (j == |s| || !IsSpace(s[j]))
    ensures SkipSpace(s, start) == j
    decreases |s| - start
  {
    if start < j {
      SkipSpaceStopsAt(s, start + 1, j);
    }
  }

  /** The second loop stops just after the last non-whitespace character. */
  lemma {:induction false} SkipSpaceBackStopsAt(s: string, start: nat, stop: nat, j: nat)
    requires start <= j <= stop <= |s|
    requires SpaceBetween(s, j, stop) && (j == start || !IsSpace(s[j - 1]))
    ensures SkipSpaceBack(s, start, stop) == j
    decreases stop
  {
    if j < stop {
      SkipSpaceBackStopsAt(s, start, stop - 1, j);
    }
  }

  /** Whitespace around a string without whitespace at its ends is removed
      again, and nothing more: for instance the newline an editor appends. */
  lemma {:induction false} TrimSpaceOfPadded(w1: string, s: string, w2: string)
    requires AllSpace(w1) && AllSpace(w2) && IsTrimmed(s)
    ensures TrimSpace(w1 + s + w2) == s
  {
    var t := w1 + s + w2;
    if s == [] {
      assert SpaceBetween(t, 0, |t|) by {
        forall k | 0 <= k < |t| ensures IsSpace(t[k]) {
          if k < |w1| { assert t[k] == w1[k]; } else { assert t[k] == w2[k - |w1|]; }
        }
      }
      SkipSpaceStopsAt(t, 0, |t|);
    } else {
      var i, j := |w1|, |w1| + |s|;
      assert SpaceBetween(t, 0, i) by {
        forall k | 0 <= k < i ensures IsSpace(t[k]) { assert t[k] == w1[k]; }
      }
      assert t[i] == s[0];
      SkipSpaceStopsAt(t, 0, i);
      assert SpaceBetween(t, j, |t|) by {
        forall k | j <= k < |t| ensures IsSpace(t[k]) { assert t[k] == w2[k - j]; }
      }
      assert t[j - 1] == s[|s| - 1];
      SkipSpaceBackStopsAt(t, i, |t|, j);
      assert t[i..j] == s;
    }
  }

  /** Removing whitespace from a string that has none at its ends changes nothing. */
  lemma TrimSpaceOfTrimmed(s: string)
    requires IsTrimmed(s)
    ensures TrimSpace(s) == s
  {
    assert "" + s + "" == s;
    TrimSpaceOfPadded("", s, "");
  }

  /** `TrimSpace` is idempotent. */
  lemma TrimSpaceIdempotent(s: string)
    ensures TrimSpace(TrimSpace(s)) == TrimSpace(s)
  {
    TrimSpaceOfTrimmed(TrimSpace(s));
  }

  // ---------------------------------------------------------------- Index

  /** `sub` occurs in `s` starting at position `i`. */
  predicate OccursAt(s: string, sub: string, i: int) {
    0 <= i && i + |sub| <= |s| && s[i..i + |sub|] == sub
  }

  /** Go's `strings.Index`: the first position at which `sub` occurs in `s`,
      or -1 when it occurs nowhere. */
  function Index(s: string, sub: string): (r: int)
    ensures r == -1 || 0 <= r <= |s| - |sub|
    ensures r >= 0 ==> OccursAt(s, sub, r) && forall j :: 0 <= j < r ==> !OccursAt(s, sub, j)
    ensures r == -1 <==> forall j :: !OccursAt(s, sub, j)
  {
    if |sub| > |s| then -1
    else if s[..|sub|] == sub then 0
    else
      var r := Index(s[1..], sub);
      ShiftOccurrence(s, sub);
      if r < 0 then -1 else r + 1
  }

  /** An occurrence past the first position of `s` is an occurrence in `s[1..]`. */
  lemma ShiftOccurrence(s: string, sub: string)
    requires |s| > 0
    ensures forall j :: 1 <= j ==> (OccursAt(s, sub, j) <==> OccursAt(s[1..], sub, j - 1))
  {
    forall j | 1 <= j
      ensures OccursAt(s, sub, j) <==> OccursAt(s[1..], sub, j - 1)
    {
      if j + |sub| <= |s| {
        assert s[1..][j - 1..j - 1 + |sub|] == s[j..j + |sub|];
      }
    }
  }

  /** Go's `strings.Contains`: case-sensitive substring test. */
  predicate Contains(s: string, sub: string) {
    Index(s, sub) >= 0
  }

  /** Every string contains the empty string. */
  lemma ContainsEmpty(s: string)
    ensures Contains(s, "")
  {
    assert OccursAt(s, "", 0);
  }

  /** Every string contains itself and each of its slices. */
  lemma ContainsSlice(s: string, i: nat, j: nat)
    requires i <= j <= |s|
    ensures Contains(s, s[i..j])
  {
    assert OccursAt(s, s[i..j], i);
  }

  /** A string that contains a non-empty keyword holds its first character. */
  lemma ContainedFirstChar(s: string, sub: string)
    requires |sub| > 0
    ensures Contains(s, sub) ==> sub[0] in s
  {
    if Contains(s, sub) {
      var j := Index(s, sub);
      assert s[j..j + |sub|][0] == s[j];
    }
  }

  // ---------------------------------------------------------------- Join / Split

  /** Go's `strings.Join`: the parts with `sep` between neighbours. */
  function Join(parts: seq<string>, sep: string): string {
    if |parts| == 0 then ""
    else if |parts| == 1 then parts[0]
    else parts[0] + sep + Join(parts[1..], sep)
  }

  /** The length of a join: every part plus one separator between each pair. */
  function TotalLength(parts: seq<string>): nat {
    if parts == [] then 0 else |parts[0]| + TotalLength(parts[1..])
  }

  lemma {:induction false} JoinLength(parts: seq<string>, sep: string)
    requires |parts| >= 1
    ensures |Join(parts, sep)| == TotalLength(parts) + (|parts| - 1) * |sep|
  {
    if |parts| > 1 {
      JoinLength(parts[1..], sep);
    }
  }

  /** Go's `strings.Split` on a one-character separator: the pieces between
      separators, so a string without the separator is one piece. */
  function Split(s: string, sep: char): (r: seq<string>)
    ensures |r| >= 1
  {
    if s == [] then [""]
    else if s[0] == sep then [""] + Split(s[1..], sep)
    else
      var rest := Split(s[1..], sep);
      [[s[0]] + rest[0]] + rest[1..]
  }

  lemma {:induction false} SplitWithoutSeparator(p: string, sep: char)
    requires sep !in p
    ensures Split(p, sep) == [p]
  {
    if p != [] {
      SplitWithoutSeparator(p[1..], sep);
      assert [p[0]] + p[1..] == p;
    }
  }

  lemma {:induction false} SplitAtFirstSeparator(p: string, sep: char, t: string)
    requires sep !in p
    ensures Split(p + [sep] + t, sep) == [p] + Split(t, sep)
  {
    if p == [] {
      assert p + [sep] + t == [sep] + t;
      assert ([sep] + t)[1..] == t;
    } else {
      assert (p + [sep] + t)[1..] == p[1..] + [sep] + t;
      SplitAtFirstSeparator(p[1..], sep, t);
      assert [p[0]] + p[1..] == p;
    }
  }

  /** Splitting a join at the separator gives the parts back, provided there is
      at least one part and no part contains the separator. */
  lemma {:induction false} SplitJoin(parts: seq<string>, sep: char)
    requires |parts| >= 1
    requires forall k :: 0 <= k < |parts| ==> sep !in parts[k]
    ensures Split(Join(parts, [sep]), sep) == parts
  {
    if |parts| == 1 {
      SplitWithoutSeparator(parts[0], sep);
    } else {
      SplitJoin(parts[1..], sep);
      SplitAtFirstSeparator(parts[0], sep, Join(parts[1..], [sep]));
      assert [parts[0]] + parts[1..] == parts;
    }
  }
}
