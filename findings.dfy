/**
 * The final write of both kernels, `local_inclusive_prefix_sum - local_item + LOCAL_SUM[0]`,
 * leaves every element holding the sum of the elements strictly BEFORE it (an exclusive scan),
 * while `hostInlineScan`, the function's name and its role as the device counterpart of
 * that host scan call for the inclusive scan. This module shows the discrepancy and proves
 * the evidently intended write.
 */
module Findings {
  import opened Sums
  import opened KernelSteps

  /**
   * The device result (exclusive) agrees with the host result (inclusive) at position i
   * exactly when the input element there is 0.
   */
  lemma DeviceMatchesHostIff(input: seq<int>, i: nat)
    requires i < |input|
    ensures Sum(input, 0, i) == Sum(input, 0, i + 1) <==> input[i] == 0
  {
    assert Sum(input, 0, i + 1) == Sum(input, 0, i) + input[i];
  }

  /**
   * The smallest input that shows it: one element 5. Lane 0 of group 0 loads 5, its local
   * inclusive value is 5 and its carry 0, so it writes 0 where the inclusive scan has 5.
   */
  lemma SingleElementCounterexample(w: nat)
    requires w >= 1
    ensures LoadGroup([5], 0, w)[0] == 5
    ensures FinalValue(Sum(LoadGroup([5], 0, w), 0, 1), LoadGroup([5], 0, w)[0], 0) == 0
    ensures Sum([5], 0, 1) == 5
  {
    assert Sum(LoadGroup([5], 0, w), 0, 1) == 5;
  }

  /**
   * The driver's own input, a buffer of ones: the kernel as written leaves i at position i,
   * where the inclusive scan has i + 1.
   */
  lemma OnesCounterexample(input: seq<int>, i: nat)
    requires i < |input|
    requires forall j :: 0 <= j < |input| ==> input[j] == 1
    ensures Sum(input, 0, i) == i && Sum(input, 0, i + 1) == i + 1
  {
    SumOfOnes(input, i);
    SumOfOnes(input, i + 1);
  }

  /** The evidently intended write: the local inclusive value plus the carry. */
  function FinalValueInclusive(localInclusive: int, carry: int): (v: int) {
    localInclusive + carry
  }

  /** With the intended write every lane holds the inclusive prefix, as `hostInlineScan` computes. */
  lemma CorrectedLaneIsInclusivePrefix(input: seq<int>, base: nat, w: nat, l: nat, inclusive: int, carry: int)
    requires l < w && base + l < |input|
    requires inclusive == Sum(LoadGroup(input, base, w), 0, l + 1)
    requires carry == Sum(input, 0, base)
    ensures FinalValueInclusive(inclusive, carry) == Sum(input, 0, base + l + 1)
  {
    LoadGroupSum(input, base, w, l + 1);
    SumSplit(input, 0, base, base + l + 1);
  }

  /**
   * The intended write, for a whole group: if the elements before the group already hold their
   * inclusive prefix and every lane writes FinalValueInclusive, the group's elements hold
   * their inclusive prefix too, so the kernel loop would end in the host scan's result.
   */
  lemma CorrectedGroupWriteStep(input: seq<int>, before: seq<int>, after: seq<int>, base: nat, w: nat,
                                items: seq<int>, inclusive: seq<int>, carry: int)
    requires base < |input| && |before| == |after| == |input|
    requires forall j :: 0 <= j < |input| ==> before[j] == if j < base then Sum(input, 0, j + 1) else input[j]
    requires items == LoadGroup(before, base, w)
    requires |inclusive| == w
    requires forall l :: 0 <= l < w ==> inclusive[l] == Sum(items, 0, l + 1)
    requires carry == Sum(input, 0, base)
    requires forall j :: 0 <= j < |after| ==>
      after[j] == if base <= j < base + w then FinalValueInclusive(inclusive[j - base], carry) else before[j]
    ensures forall j :: 0 <= j < |input| ==> after[j] == if j < base + w then Sum(input, 0, j + 1) else input[j]
  {
    LoadGroupAgree(before, input, base, w);
    forall j | base <= j < base + w && j < |input|
      ensures after[j] == Sum(input, 0, j + 1)
    {
      CorrectedLaneIsInclusivePrefix(input, base, w, j - base, inclusive[j - base], carry);
    }
  }
}
