/** Substring search and replacement over strings, with the semantics of
    Python's `str.find`, `in` and `str.replace` for a non-empty pattern:
    occurrences are found left to right and replaced without overlap, and
    text produced by a replacement is never searched again by the same call. */
module Strings {
  import opened Optional

  /** True when `pat` occurs in `s` starting at index `i`. */
  predicate MatchAt(s: string, pat: string, i: int) {
    0 <= i && i + |pat| <= |s| && s[i..i + |pat|] == pat
  }

  /** `pat` is a substring of `s`. */
  ghost predicate Occurs(pat: string, s: string) {
    exists i :: MatchAt(s, pat, i)
  }

  /** The first index at or after `k` where `pat` occurs in `s`. */
  function FindFrom(s: string, pat: string, k: nat): (r: Option<nat>)
    decreases |s| - k
    ensures r.Some? ==> k <= r.value && MatchAt(s, pat, r.value)
    ensures r.Some? ==> forall j :: k <= j < r.value ==> !MatchAt(s, pat, j)
    ensures r.None? ==> forall j :: k <= j ==> !MatchAt(s, pat, j)
  {
    if k + |pat| > |s| then None
    else if s[k..k + |pat|] == pat then Some(k)
    else FindFrom(s, pat, k + 1)
  }

  /** Python's `pat in s`. */
  function Contains(s: string, pat: string): (r: bool)
    ensures r <==> Occurs(pat, s)
  {
    FindFrom(s, pat, 0).Some?
  }

  /** Python's `s.replace(pat, rep)`: find the leftmost occurrence, keep the
      text before it, emit `rep`, and continue after the occurrence. */
  function ReplaceAll(s: string, pat: string, rep: string): string
    requires |pat| > 0
    decreases |s|
  {
    var f := FindFrom(s, pat, 0);
    if f.None? then s
    else s[..f.value] + rep + ReplaceAll(s[f.value + |pat|..], pat, rep)
  }

  /** An independent reference for `ReplaceAll`: a scanner that looks at one
      position at a time, consumes a whole occurrence when one starts there
      and otherwise copies one character. */
  function ReplaceScan(s: string, pat: string, rep: string): string
    requires |pat| > 0
    decreases |s|
  {
    if |s| < |pat| then s
    else if s[..|pat|] == pat then rep + ReplaceScan(s[|pat|..], pat, rep)
    else [s[0]] + ReplaceScan(s[1..], pat, rep)
  }

  /** Dropping a prefix of length `d` shifts every match position by `d`. */
  lemma MatchDrop(s: string, d: nat, pat: string, j: int)
    requires d <= |s| && 0 <= j
    ensures MatchAt(s[d..], pat, j) <==> MatchAt(s, pat, j + d)
  {
    if j + |pat| <= |s| - d {
      assert s[d..][j..j + |pat|] == s[j + d..j + d + |pat|];
    }
  }

  /** The scanner copies, unchanged, every prefix in which no match starts. */
  lemma {:induction false} ScanSkip(s: string, pat: string, rep: string, k: nat)
    requires |pat| > 0 && k <= |s|
    requires forall j :: 0 <= j < k ==> !MatchAt(s, pat, j)
    ensures ReplaceScan(s, pat, rep) == s[..k] + ReplaceScan(s[k..], pat, rep)
    decreases k
  {
    if k == 0 {
      assert s[..0] + s[0..] == s;
    } else if |s| < |pat| {
      assert s[..k] + s[k..] == s;
    } else {
      forall j | 0 <= j < k - 1
        ensures !MatchAt(s[1..], pat, j)
      {
        MatchDrop(s, 1, pat, j);
      }
      var x := ReplaceScan(s[k..], pat, rep);
      calc {
        ReplaceScan(s, pat, rep);
        { ScanCopyStep(s, pat, rep); }
        [s[0]] + ReplaceScan(s[1..], pat, rep);
        { ScanSkip(s[1..], pat, rep, k - 1); DropTwice(s, 1, k - 1); }
        [s[0]] + (s[1..][..k - 1] + x);
        { ConsPrefix(s, k, x); }
        s[..k] + x;
      }
    }
  }

  lemma ConsPrefix(s: string, k: nat, x: string)
    requires 0 < k <= |s|
    ensures [s[0]] + (s[1..][..k - 1] + x) == s[..k] + x
  {
    assert [s[0]] + s[1..][..k - 1] == s[..k];
  }

  /** With no match anywhere the scanner returns its input. */
  lemma ScanWithoutMatch(s: string, pat: string, rep: string)
    requires |pat| > 0
    requires forall j :: 0 <= j ==> !MatchAt(s, pat, j)
    ensures ReplaceScan(s, pat, rep) == s
  {
    ScanSkip(s, pat, rep, |s|);
    assert s[|s|..] == [];
    assert s[..|s|] == s;
  }

  /** `ReplaceAll` agrees with the character-by-character scanner on every
      input: the find-and-jump strategy of `str.replace` is the leftmost,
      non-overlapping replacement. */
  lemma {:induction false} ReplaceAllIsScan(s: string, pat: string, rep: string)
    requires |pat| > 0
    ensures ReplaceAll(s, pat, rep) == ReplaceScan(s, pat, rep)
    decreases |s|
  {
    match FindFrom(s, pat, 0)
    case None =>
      ScanWithoutMatch(s, pat, rep);
    case Some(i) =>
      ReplaceAllIsScan(s[i + |pat|..], pat, rep);
      ReplaceAllIsScanStep(s, pat, rep, i);
  }

  /** The inductive step of `ReplaceAllIsScan`, at the first match `i`. */
  lemma ReplaceAllIsScanStep(s: string, pat: string, rep: string, i: nat)
    requires |pat| > 0 && FindFrom(s, pat, 0) == Some(i)
    requires ReplaceAll(s[i + |pat|..], pat, rep) == ReplaceScan(s[i + |pat|..], pat, rep)
    ensures ReplaceAll(s, pat, rep) == ReplaceScan(s, pat, rep)
  {
    ReplaceAllAt(s, pat, rep, i, s[i + |pat|..]);
    ScanAtFirstMatch(s, pat, rep, i);
  }

  /** `ReplaceAll` at its first match `i`, with `rest` the text after it. */
  lemma ReplaceAllAt(s: string, pat: string, rep: string, i: nat, rest: string)
    requires |pat| > 0 && FindFrom(s, pat, 0) == Some(i)
    requires rest == s[i + |pat|..]
    ensures ReplaceAll(s, pat, rep) == s[..i] + rep + ReplaceAll(rest, pat, rep)
  {
  }

  /** From the first match on, the scanner does what `ReplaceAll` does: it
      copies the text before the match and emits `rep` for it. */
  lemma ScanAtFirstMatch(s: string, pat: string, rep: string, i: nat)
    requires |pat| > 0 && FindFrom(s, pat, 0) == Some(i)
    ensures ReplaceScan(s, pat, rep) == s[..i] + rep + ReplaceScan(s[i + |pat|..], pat, rep)
  {
    ScanToFirstMatch(s, pat, rep, i);
    ScanFromFirstMatch(s, pat, rep, i);
    Assoc(s[..i], rep, ReplaceScan(s[i + |pat|..], pat, rep));
  }

  /** The scanner copies the text before the first match. */
  lemma ScanToFirstMatch(s: string, pat: string, rep: string, i: nat)
    requires |pat| > 0 && FindFrom(s, pat, 0) == Some(i)
    ensures ReplaceScan(s, pat, rep) == s[..i] + ReplaceScan(s[i..], pat, rep)
  {
    ScanSkip(s, pat, rep, i);
  }

  /** At the first match the scanner emits `rep` and continues after it. */
  lemma ScanFromFirstMatch(s: string, pat: string, rep: string, i: nat)
    requires |pat| > 0 && FindFrom(s, pat, 0) == Some(i)
    ensures ReplaceScan(s[i..], pat, rep) == rep + ReplaceScan(s[i + |pat|..], pat, rep)
  {
    MatchDrop(s, i, pat, 0);
    DropTwice(s, i, |pat|);
    ScanMatchStep(s[i..], pat, rep);
  }

  lemma DropTwice(s: string, i: nat, k: nat)
    requires i + k <= |s|
    ensures s[i..][k..] == s[i + k..]
  {
  }

  lemma Assoc(x: string, y: string, z: string)
    ensures x + (y + z) == x + y + z
  {
  }

  /** Replacing a pattern that does not occur changes nothing, so a guard
      `if pat in s` before the replacement makes no difference. */
  lemma ReplaceAbsent(s: string, pat: string, rep: string)
    requires |pat| > 0 && !Occurs(pat, s)
    ensures ReplaceAll(s, pat, rep) == s
  {
  }

  /** Replacing a pattern by itself is the identity. */
  lemma {:induction false} ReplaceWithItself(s: string, pat: string)
    requires |pat| > 0
    ensures ReplaceAll(s, pat, pat) == s
    decreases |s|
  {
    match FindFrom(s, pat, 0)
    case None =>
    case Some(i) =>
      ReplaceWithItself(s[i + |pat|..], pat);
      assert s == s[..i] + s[i..i + |pat|] + s[i + |pat|..];
  }

  /** An occurrence at the front is replaced once and the inserted text is not
      searched again, even when `rep` itself contains `pat`. */
  lemma ReplaceLeading(pat: string, rest: string, rep: string)
    requires |pat| > 0
    ensures ReplaceAll(pat + rest, pat, rep) == rep + ReplaceAll(rest, pat, rep)
  {
    var s := pat + rest;
    assert s[0..|pat|] == pat;
    assert s[..0] == [];
    assert s[|pat|..] == rest;
  }

  /** No match of `pat` in `a + m + b` starts inside `m` or straddles one of
      its ends. */
  ghost predicate Barrier(a: string, m: string, b: string, pat: string) {
    forall j :: |a| - |pat| < j < |a| + |m| ==> !MatchAt(a + m + b, pat, j)
  }

  /** A barrier survives dropping `d` characters of the text before it. */
  lemma BarrierDrop(a: string, m: string, b: string, pat: string, d: nat)
    requires d <= |a| && Barrier(a, m, b, pat)
    ensures Barrier(a[d..], m, b, pat)
  {
    var s := a + m + b;
    assert s[d..] == a[d..] + m + b;
    forall j | |a[d..]| - |pat| < j < |a[d..]| + |m|
      ensures !MatchAt(a[d..] + m + b, pat, j)
    {
      if 0 <= j {
        MatchDrop(s, d, pat, j);
      }
    }
  }

  /** `ScanAround` with nothing before the barrier. */
  lemma ScanAroundFront(m: string, b: string, pat: string, rep: string)
    requires |pat| > 0
    requires forall j :: 0 <= j < |m| ==> !MatchAt(m + b, pat, j)
    ensures ReplaceScan(m + b, pat, rep) == m + ReplaceScan(b, pat, rep)
  {
    var s := m + b;
    ScanSkip(s, pat, rep, |m|);
    assert s[..|m|] == m;
    assert s[|m|..] == b;
  }

  /** One step of the scanner where a match starts at the front. */
  lemma ScanMatchStep(s: string, pat: string, rep: string)
    requires |pat| > 0 && MatchAt(s, pat, 0)
    ensures ReplaceScan(s, pat, rep) == rep + ReplaceScan(s[|pat|..], pat, rep)
  {
    assert s[..|pat|] == s[0..|pat|];
  }

  /** The step of `ScanAround` where a match starts at the front of `a`. */
  lemma ScanAroundMatch(a: string, m: string, b: string, pat: string, rep: string)
    requires |pat| > 0 && MatchAt(a, pat, 0)
    requires ReplaceScan(a[|pat|..] + m + b, pat, rep)
          == ReplaceScan(a[|pat|..], pat, rep) + m + ReplaceScan(b, pat, rep)
    ensures ReplaceScan(a + m + b, pat, rep)
         == ReplaceScan(a, pat, rep) + m + ReplaceScan(b, pat, rep)
  {
    assert ReplaceScan(a + m + b, pat, rep) == rep + ReplaceScan(a[|pat|..] + m + b, pat, rep) by {
      MatchAtFront(a, m, b, pat);
      ScanMatchStep(a + m + b, pat, rep);
      DropFront(a, m, b, |pat|);
    }
    ScanMatchStep(a, pat, rep);
    PrependAssoc(rep, ReplaceScan(a[|pat|..], pat, rep), m, ReplaceScan(b, pat, rep));
  }

  /** One step of the scanner where no match starts at the front. */
  lemma ScanCopyStep(s: string, pat: string, rep: string)
    requires |pat| > 0 && |s| >= |pat| && !MatchAt(s, pat, 0)
    ensures ReplaceScan(s, pat, rep) == [s[0]] + ReplaceScan(s[1..], pat, rep)
  {
    assert s[..|pat|] != pat;
  }

  /** The scanner drops the first character of a text and puts it back. */
  lemma ScanFirst(a: string, pat: string, rep: string)
    requires |pat| > 0 && |a| > 0 && !MatchAt(a, pat, 0)
    ensures ReplaceScan(a, pat, rep) == [a[0]] + ReplaceScan(a[1..], pat, rep)
  {
    if |a| < |pat| {
      assert a == [a[0]] + a[1..];
    } else {
      ScanCopyStep(a, pat, rep);
    }
  }

  /** A prefix of a text has no match at the start when the text has none. */
  lemma NoMatchInPrefix(a: string, m: string, b: string, pat: string)
    requires !MatchAt(a + m + b, pat, 0)
    ensures !MatchAt(a, pat, 0)
  {
    if |a| >= |pat| {
      assert a[..|pat|] == (a + m + b)[..|pat|];
    }
  }

  /** Dropping part of the first of three concatenated texts. */
  lemma DropFront(a: string, m: string, b: string, d: nat)
    requires d <= |a|
    ensures (a + m + b)[d..] == a[d..] + m + b
  {
    var s := a + m + b;
    assert |s[d..]| == |a[d..] + m + b|;
    forall k | 0 <= k < |s| - d
      ensures s[d..][k] == (a[d..] + m + b)[k]
    {
      if k < |a| - d {
        assert s[k + d] == a[k + d];
      } else if k < |a| - d + |m| {
        assert s[k + d] == m[k + d - |a|];
      } else {
        assert s[k + d] == b[k + d - |a| - |m|];
      }
    }
  }

  /** A match at the start of the first of three texts is a match at the
      start of their concatenation. */
  lemma MatchAtFront(a: string, m: string, b: string, pat: string)
    requires MatchAt(a, pat, 0)
    ensures MatchAt(a + m + b, pat, 0)
  {
    assert (a + m + b)[0..|pat|] == a[0..|pat|];
  }

  lemma PrependAssoc(p: string, x: string, m: string, y: string)
    ensures p + (x + m + y) == (p + x) + m + y
  {
  }

  /** The step of `ScanAround` where no match starts at the front of `a`. */
  lemma ScanAroundCopy(a: string, m: string, b: string, pat: string, rep: string)
    requires |pat| > 0 && |a| > 0 && |a + m + b| >= |pat|
    requires !MatchAt(a + m + b, pat, 0)
    requires ReplaceScan(a[1..] + m + b, pat, rep)
          == ReplaceScan(a[1..], pat, rep) + m + ReplaceScan(b, pat, rep)
    ensures ReplaceScan(a + m + b, pat, rep)
         == ReplaceScan(a, pat, rep) + m + ReplaceScan(b, pat, rep)
  {
    NoMatchInPrefix(a, m, b, pat);
    assert ReplaceScan(a + m + b, pat, rep) == [a[0]] + ReplaceScan(a[1..] + m + b, pat, rep) by {
      ScanCopyStep(a + m + b, pat, rep);
      DropFront(a, m, b, 1);
      assert (a + m + b)[0] == a[0];
    }
    assert ReplaceScan(a, pat, rep) == [a[0]] + ReplaceScan(a[1..], pat, rep) by {
      ScanFirst(a, pat, rep);
    }
    PrependAssoc([a[0]], ReplaceScan(a[1..], pat, rep), m, ReplaceScan(b, pat, rep));
  }

  /** The scanner copies a barrier unchanged and rewrites the text on either
      side of it as if on its own. */
  lemma {:induction false} ScanAround(a: string, m: string, b: string, pat: string, rep: string)
    requires |pat| > 0 && Barrier(a, m, b, pat)
    ensures ReplaceScan(a + m + b, pat, rep)
         == ReplaceScan(a, pat, rep) + m + ReplaceScan(b, pat, rep)
    decreases |a|
  {
    if |a| == 0 {
      assert a + m + b == m + b;
      ScanAroundFront(m, b, pat, rep);
    } else if |a + m + b| < |pat| {
    } else if MatchAt(a + m + b, pat, 0) {
      assert a[..|pat|] == (a + m + b)[..|pat|];
      BarrierDrop(a, m, b, pat, |pat|);
      ScanAround(a[|pat|..], m, b, pat, rep);
      ScanAroundMatch(a, m, b, pat, rep);
    } else {
      BarrierDrop(a, m, b, pat, 1);
      ScanAround(a[1..], m, b, pat, rep);
      ScanAroundCopy(a, m, b, pat, rep);
    }
  }

  /** `ReplaceAll` copies a barrier unchanged and rewrites the text on either
      side of it as if on its own. */
  lemma ReplaceAround(a: string, m: string, b: string, pat: string, rep: string)
    requires |pat| > 0 && Barrier(a, m, b, pat)
    ensures ReplaceAll(a + m + b, pat, rep)
         == ReplaceAll(a, pat, rep) + m + ReplaceAll(b, pat, rep)
  {
    ReplaceAllIsScan(a + m + b, pat, rep);
    ReplaceAllIsScan(a, pat, rep);
    ReplaceAllIsScan(b, pat, rep);
    ScanAround(a, m, b, pat, rep);
  }
}
