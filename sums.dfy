/** Running sums over a sequence: the reference every scan in the model is measured against. */
module Sums {

  function Min(a: int, b: int): (m: int) {
    if a <= b then a else b
  }

  /** The sum of s[lo..hi). */
  function Sum(s: seq<int>, lo: nat, hi: nat): (r: int)
    requires lo <= hi <= |s|
    decreases hi
  {
    if lo == hi then 0 else Sum(s, lo, hi - 1) + s[hi - 1]
  }

  /** Sums over adjacent ranges add up. */
  lemma {:induction false} SumSplit(s: seq<int>, a: nat, b: nat, c: nat)
    requires a <= b <= c <= |s|
    ensures Sum(s, a, c) == Sum(s, a, b) + Sum(s, b, c)
    decreases c
  {
    if c > b {
      SumSplit(s, a, b, c - 1);
    }
  }

  /** A sum only depends on the elements inside its range. */
  lemma {:induction false} SumAgree(s: seq<int>, t: seq<int>, lo: nat, hi: nat)
    requires lo <= hi <= |s| && hi <= |t|
    requires forall j :: lo <= j < hi ==> s[j] == t[j]
    ensures Sum(s, lo, hi) == Sum(t, lo, hi)
    decreases hi
  {
    if lo < hi {
      SumAgree(s, t, lo, hi - 1);
    }
  }

  /** The running sums of a buffer of ones count the elements. */
  lemma {:induction false} SumOfOnes(s: seq<int>, i: nat)
    requires i <= |s|
    requires forall j :: 0 <= j < |s| ==> s[j] == 1
    ensures Sum(s, 0, i) == i
  {
    if i > 0 {
      SumOfOnes(s, i - 1);
    }
  }
}
