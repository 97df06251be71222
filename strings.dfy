/**
 * The string operations of the .NET base library that the program relies on:
 * ordinal ordering (used by `orderby`), substring search (`Contains`,
 * `LastIndexOf`) and the separator join built by the method renderer.
 */
module Strings {

  /** Ordinal lexicographic order on strings: a proper prefix comes first. */
  predicate LessEq(a: string, b: string)
    decreases |a|
  {
    |a| == 0 || (|b| > 0 && (a[0] < b[0] || (a[0] == b[0] && LessEq(a[1..], b[1..]))))
  }

  lemma {:induction false} LessEqReflexive(a: string)
    ensures LessEq(a, a)
    decreases |a|
  {
    if |a| > 0 {
      LessEqReflexive(a[1..]);
    }
  }

  lemma {:induction false} LessEqTotal(a: string, b: string)
    ensures LessEq(a, b) || LessEq(b, a)
    decreases |a|
  {
    if |a| > 0 && |b| > 0 && a[0] == b[0] {
      LessEqTotal(a[1..], b[1..]);
    }
  }

  lemma {:induction false} LessEqTransitive(a: string, b: string, c: string)
    requires LessEq(a, b) && LessEq(b, c)
    ensures LessEq(a, c)
    decreases |a|
  {
    if |a| > 0 && a[0] == b[0] && b[0] == c[0] {
      LessEqTransitive(a[1..], b[1..], c[1..]);
    }
  }

  lemma {:induction false} LessEqAntisymmetric(a: string, b: string)
    requires LessEq(a, b) && LessEq(b, a)
    ensures a == b
    decreases |a|
  {
    if |a| > 0 {
      LessEqAntisymmetric(a[1..], b[1..]);
      assert a == [a[0]] + a[1..] && b == [b[0]] + b[1..];
    }
  }

  /** `pat` occurs in `s` starting at index `i`. */
  predicate OccursAt(s: string, pat: string, i: int)
  {
    0 <= i && i + |pat| <= |s| && s[i..i + |pat|] == pat
  }

  /** `String.Contains`: ordinal substring test. */
  predicate Contains(s: string, pat: string)
  {
    exists i | 0 <= i <= |s| :: OccursAt(s, pat, i)
  }

  /** The last start index below `n` at which `pat` occurs, or -1. */
  function LastIndexBelow(s: string, pat: string, n: nat): (r: int)
    requires n <= |s| + 1
    ensures -1 <= r < n
    ensures r >= 0 ==> OccursAt(s, pat, r)
    ensures forall q :: r < q < n ==> !OccursAt(s, pat, q)
    decreases n
  {
    if n == 0 then -1
    else if OccursAt(s, pat, n - 1) then n - 1
    else LastIndexBelow(s, pat, n - 1)
  }

  /** `String.LastIndexOf`: the start of the last occurrence of `pat`, or -1 when there is none. */
  function LastIndexOf(s: string, pat: string): (r: int)
    ensures -1 <= r <= |s|
    ensures r == -1 <==> !Contains(s, pat)
    ensures r >= 0 ==> OccursAt(s, pat, r) && forall q :: r < q ==> !OccursAt(s, pat, q)
  {
    LastIndexBelow(s, pat, |s| + 1)
  }

  /** The items separated by ", ", as the method renderer writes a parameter list. */
  function Join(items: seq<string>): string
  {
    if |items| == 0 then ""
    else if |items| == 1 then items[0]
    else Join(items[..|items| - 1]) + ", " + items[|items| - 1]
  }

  /** Joining two non-empty runs puts exactly one separator between them. */
  lemma {:induction false} JoinAppend(a: seq<string>, b: seq<string>)
    requires |a| > 0 && |b| > 0
    ensures Join(a + b) == Join(a) + ", " + Join(b)
    decreases |b|
  {
    var ab := a + b;
    if |b| == 1 {
      assert ab[..|ab| - 1] == a;
    } else {
      var b' := b[..|b| - 1];
      assert ab[..|ab| - 1] == a + b';
      JoinAppend(a, b');
      assert b[..|b| - 1] == b';
    }
  }
}
