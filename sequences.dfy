/** Subsequences: what is left of a sequence after deleting some of its elements. */
module Sequences {

  /** `a` is obtained from `b` by deleting elements. */
  predicate IsSubsequence<T(==)>(a: seq<T>, b: seq<T>)
    decreases |b|
  {
    if |a| == 0 then true
    else if |b| == 0 then false
    else if a[0] == b[0] then IsSubsequence(a[1..], b[1..])
    else IsSubsequence(a, b[1..])
  }

  /** Deleting elements from a subsequence keeps it a subsequence. */
  lemma {:induction false} SubsequenceDrop<T>(a: seq<T>, b: seq<T>)
    requires |a| > 0 && IsSubsequence(a, b)
    ensures IsSubsequence(a[1..], b)
    decreases |b|
  {
    var a' := a[1..];
    if a[0] != b[0] {
      SubsequenceDrop(a, b[1..]);
    }
    if |a'| > 0 && a'[0] == b[0] {
      SubsequenceDrop(a', b[1..]);
    }
  }

  /** A subsequence of a suffix of `b` is a subsequence of `b`. */
  lemma {:induction false} SubsequenceOfLonger<T>(a: seq<T>, b: seq<T>, n: nat)
    requires n <= |b| && IsSubsequence(a, b[n..])
    ensures IsSubsequence(a, b)
    decreases n
  {
    if n > 0 {
      var b' := b[n - 1..];
      assert b'[1..] == b[n..];
      if |a| > 0 && a[0] == b'[0] {
        SubsequenceDrop(a, b[n..]);
      }
      SubsequenceOfLonger(a, b, n - 1);
    }
  }

  /** A subsequence of a later suffix of `b` is a subsequence of an earlier one. */
  lemma SubsequenceOfSuffix<T>(a: seq<T>, b: seq<T>, i: nat, e: nat)
    requires i <= e <= |b| && IsSubsequence(a, b[e..])
    ensures IsSubsequence(a, b[i..])
  {
    assert b[i..][e - i..] == b[e..];
    SubsequenceOfLonger(a, b[i..], e - i);
  }

  /** Every sequence is a subsequence of itself. */
  lemma {:induction false} SubsequenceSelf<T>(a: seq<T>)
    ensures IsSubsequence(a, a)
    decreases |a|
  {
    if |a| > 0 {
      SubsequenceSelf(a[1..]);
    }
  }

  /** A common prefix can be put in front of a subsequence and its sequence. */
  lemma {:induction false} PrefixSubsequence<T>(p: seq<T>, a: seq<T>, b: seq<T>)
    requires IsSubsequence(a, b)
    ensures IsSubsequence(p + a, p + b)
    decreases |p|
  {
    if |p| > 0 {
      PrefixSubsequence(p[1..], a, b);
      assert (p + a)[0] == (p + b)[0];
      assert (p + a)[1..] == p[1..] + a;
      assert (p + b)[1..] == p[1..] + b;
      assert IsSubsequence(p + a, p + b) == IsSubsequence((p + a)[1..], (p + b)[1..]);
    } else {
      assert p + a == a && p + b == b;
    }
  }

  /**
   * Keeping `a[from..i]`, dropping what `mid` stood for and keeping a subsequence of the suffix
   * from `e` gives a subsequence of the suffix from `from` that is at least `e - i` shorter.
   */
  lemma {:induction false} DropMiddle<T>(a: seq<T>, from: nat, i: nat, e: nat, mid: seq<T>, rest: seq<T>, out: seq<T>)
    requires from <= i <= e <= |a| && |mid| == 0 && IsSubsequence(rest, a[e..]) && |rest| <= |a| - e
    requires out == a[from..i] + mid + rest
    ensures IsSubsequence(out, a[from..]) && |out| <= |a| - from - (e - i)
  {
    assert out == a[from..i] + rest;
    SubsequenceOfSuffix(rest, a, i, e);
    PrefixSubsequence(a[from..i], rest, a[i..]);
    assert a[from..i] + a[i..] == a[from..];
  }
}
