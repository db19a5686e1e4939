/**
 * The JavaScript string operations the pipeline relies on: `startsWith`,
 * `endsWith`, `split` on one character, and `replace` with a string pattern
 * (which replaces only the first occurrence).
 */
module Strings {

  predicate StartsWith(s: string, prefix: string) {
    |prefix| <= |s| && s[..|prefix|] == prefix
  }

  predicate EndsWith(s: string, suffix: string) {
    |suffix| <= |s| && s[|s| - |suffix|..] == suffix
  }

  /** `pat` occurs in `s` starting at index `k`. */
  predicate OccursAt(s: string, pat: string, k: nat) {
    k + |pat| <= |s| && s[k..k + |pat|] == pat
  }

  /** `s.split(sep)`: never empty, and no part contains the separator. */
  function Split(s: string, sep: char): (parts: seq<string>)
    ensures |parts| >= 1
    ensures forall i :: 0 <= i < |parts| ==> sep !in parts[i]
    decreases |s|
  {
    if |s| == 0 then [""]
    else
      var rest := Split(s[1..], sep);
      if s[0] == sep then [""] + rest
      else [[s[0]] + rest[0]] + rest[1..]
  }

  /** `parts.join(sep)`, the inverse of `Split`. */
  function Glue(parts: seq<string>, sep: char): string
    requires |parts| >= 1
    decreases |parts|
  {
    if |parts| == 1 then parts[0] else parts[0] + [sep] + Glue(parts[1..], sep)
  }

  lemma {:induction false} SplitGlue(s: string, sep: char)
    ensures Glue(Split(s, sep), sep) == s
    decreases |s|
  {
    if |s| > 0 {
      var rest := Split(s[1..], sep);
      SplitGlue(s[1..], sep);
      if s[0] == sep {
        assert s == [sep] + s[1..];
      } else if |rest| == 1 {
        assert s == [s[0]] + s[1..];
      } else {
        assert Split(s, sep)[1..] == rest[1..];
        assert s == [s[0]] + s[1..];
      }
    }
  }

  /** The last element of a split: JavaScript's `split(sep).pop()`. */
  function LastPart(s: string, sep: char): string {
    var parts := Split(s, sep);
    parts[|parts| - 1]
  }

  /** The last part of `s` is that of its tail, extended by the first character when it belongs to it. */
  lemma LastPartCons(s: string, sep: char)
    requires |s| > 0
    ensures LastPart(s, sep) ==
      if s[0] != sep && |Split(s[1..], sep)| == 1 then [s[0]] + LastPart(s[1..], sep) else LastPart(s[1..], sep)
  {
  }

  /** A split into several parts ends in a part shorter than the string. */
  lemma LastPartShorter(s: string, sep: char)
    requires |Split(s, sep)| > 1
    ensures |LastPart(s, sep)| < |s|
  {
    SplitGlue(s, sep);
    GlueLongerThanLast(Split(s, sep), sep);
  }

  /** When the tail splits into one part and `s` does not start with the separator, `s` is its own last part. */
  lemma WholeIsLastPart(s: string, sep: char)
    requires |s| > 0 && s[0] != sep && |Split(s[1..], sep)| == 1
    ensures LastPart(s, sep) == s && sep !in s
  {
    var t := s[1..];
    SplitGlue(t, sep);
    assert LastPart(t, sep) == t;
    LastPartCons(s, sep);
    assert s == [s[0]] + t;
  }

  /** A separator-free suffix of the tail that is preceded by a separator in `s` is such a suffix of `s`. */
  lemma SuffixOfTail(s: string, b: string, sep: char)
    requires |s| > 0 && |b| <= |s| - 1
    requires s[1..][|s| - 1 - |b|..] == b && sep !in b
    requires |b| == |s| - 1 ==> s[0] == sep
    requires |b| < |s| - 1 ==> s[1..][|s| - 2 - |b|] == sep
    ensures s[|s| - |b|..] == b
    ensures |b| < |s| && s[|s| - |b| - 1] == sep
  {
    assert s[|s| - |b|..] == s[1..][|s| - 1 - |b|..];
  }

  /**
   * `LastPart` is the longest suffix of `s` without the separator: it is a
   * suffix, it holds no separator, and it is either all of `s` or preceded by one.
   */
  lemma {:induction false} LastPartIsLastSegment(s: string, sep: char)
    ensures var b := LastPart(s, sep);
      && |b| <= |s| && s[|s| - |b|..] == b
      && sep !in b
      && (|b| == |s| || s[|s| - |b| - 1] == sep)
    decreases |s|
  {
    if |s| > 0 {
      var t := s[1..];
      var bt := LastPart(t, sep);
      LastPartIsLastSegment(t, sep);
      LastPartCons(s, sep);
      if s[0] != sep && |Split(t, sep)| == 1 {
        WholeIsLastPart(s, sep);
      } else {
        if s[0] != sep {
          LastPartShorter(t, sep);
        }
        SuffixOfTail(s, bt, sep);
      }
    }
  }

  lemma {:induction false} GlueLongerThanLast(parts: seq<string>, sep: char)
    requires |parts| >= 2
    ensures |Glue(parts, sep)| > |parts[|parts| - 1]|
    decreases |parts|
  {
    if |parts| > 2 {
      GlueLongerThanLast(parts[1..], sep);
    }
  }

  /** `s.replace(pat, rep)` for a string `pat`: only the first occurrence is replaced. */
  function ReplaceFirst(s: string, pat: string, rep: string): string
    decreases |s|
  {
    if |s| < |pat| then s
    else if s[..|pat|] == pat then rep + s[|pat|..]
    else [s[0]] + ReplaceFirst(s[1..], pat, rep)
  }

  /** An occurrence in the tail of `s` is an occurrence in `s` one place later. */
  lemma OccursInTail(s: string, pat: string, j: nat)
    requires |s| > 0
    ensures OccursAt(s[1..], pat, j) <==> OccursAt(s, pat, j + 1)
  {
    if j + |pat| <= |s[1..]| {
      assert s[1..][j..j + |pat|] == s[j + 1..j + 1 + |pat|];
    }
  }

  /** Without an occurrence of `pat`, `ReplaceFirst` leaves `s` alone. */
  lemma {:induction false} ReplaceFirstAbsent(s: string, pat: string, rep: string)
    requires forall k: nat :: !OccursAt(s, pat, k)
    ensures ReplaceFirst(s, pat, rep) == s
    decreases |s|
  {
    if |s| >= |pat| {
      assert !OccursAt(s, pat, 0);
      forall k: nat ensures !OccursAt(s[1..], pat, k) {
        OccursInTail(s, pat, k);
      }
      ReplaceFirstAbsent(s[1..], pat, rep);
      assert s == [s[0]] + s[1..];
    }
  }

  /** With a first occurrence at `k`, `ReplaceFirst` rewrites exactly that one. */
  lemma {:induction false} ReplaceFirstAt(s: string, pat: string, rep: string, k: nat)
    requires OccursAt(s, pat, k)
    requires forall j: nat :: j < k ==> !OccursAt(s, pat, j)
    ensures ReplaceFirst(s, pat, rep) == s[..k] + rep + s[k + |pat|..]
    decreases k
  {
    if k == 0 {
      assert s[..|pat|] == pat;
    } else {
      var t := s[1..];
      assert !OccursAt(s, pat, 0);
      assert ReplaceFirst(s, pat, rep) == [s[0]] + ReplaceFirst(t, pat, rep);
      forall j: nat | j < k - 1 ensures !OccursAt(t, pat, j) {
        OccursInTail(s, pat, j);
      }
      OccursInTail(s, pat, k - 1);
      ReplaceFirstAt(t, pat, rep, k - 1);
      assert s[..k] == [s[0]] + t[..k - 1];
      assert s[k + |pat|..] == t[k - 1 + |pat|..];
    }
  }
}
