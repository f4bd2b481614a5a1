/**
 * The per-lane steps the two kernels share: loading a group's zero-padded slice, the final
 * write of every lane, and what these steps compute in terms of sums over the input.
 */
module KernelSteps {
  import opened Sums
  import opened LookBack

  /** The items of the group whose first global id is `base`: lanes past the input load 0. */
  function LoadGroup(input: seq<int>, base: nat, w: nat): (items: seq<int>)
    ensures |items| == w
  {
    seq(w, (l: int) => if 0 <= base + l < |input| then input[base + l] else 0)
  }

  /** The padding does not disturb sums: a prefix of the group's items sums to the in-range slice. */
  lemma {:induction false} LoadGroupSum(input: seq<int>, base: nat, w: nat, k: nat)
    requires k <= w
    ensures Sum(LoadGroup(input, base, w), 0, k) == Sum(input, Min(base, |input|), Min(base + k, |input|))
    decreases k
  {
    if k > 0 {
      LoadGroupSum(input, base, w, k - 1);
    }
  }

  /** A group's items only depend on the input from its first id on. */
  lemma LoadGroupAgree(a: seq<int>, b: seq<int>, base: nat, w: nat)
    requires |a| == |b|
    requires forall j :: base <= j < |a| ==> a[j] == b[j]
    ensures LoadGroup(a, base, w) == LoadGroup(b, base, w)
  {
  }

  /** `local_inclusive_prefix_sum - local_item + LOCAL_SUM[0]`: the value a lane writes back. */
  function FinalValue(localInclusive: int, localItem: int, carry: int): (v: int) {
    localInclusive - localItem + carry
  }

  /**
   * Every lane that holds a real element writes FinalValue over it; lanes past the end of
   * the buffer write nothing.
   */
  method WriteGroup(data: array<int>, base: nat, items: seq<int>, inclusive: seq<int>, carry: int)
    requires |items| == |inclusive|
    modifies data
    ensures forall j :: 0 <= j < data.Length ==>
      data[j] == if base <= j < base + |items| then FinalValue(inclusive[j - base], items[j - base], carry)
                 else old(data[j])
  {
    for l := 0 to |items|
      invariant forall j :: 0 <= j < data.Length ==>
        data[j] == if base <= j < base + l then FinalValue(inclusive[j - base], items[j - base], carry)
                   else old(data[j])
    {
      if base + l < data.Length {
        data[base + l] := FinalValue(inclusive[l], items[l], carry);
      }
    }
  }

  /**
   * With the local inclusive value and the carry of all earlier groups, a lane writes the sum
   * of all elements strictly before its own: the exclusive prefix.
   */
  lemma LaneIsExclusivePrefix(input: seq<int>, base: nat, w: nat, l: nat, inclusive: int, carry: int)
    requires l < w && base + l < |input|
    requires inclusive == Sum(LoadGroup(input, base, w), 0, l + 1)
    requires carry == Sum(input, 0, base)
    ensures FinalValue(inclusive, LoadGroup(input, base, w)[l], carry) == Sum(input, 0, base + l)
  {
    LoadGroupSum(input, base, w, l);
    SumSplit(input, 0, base, base + l);
  }

  /** The group total is the sum of the group's in-range slice. */
  lemma GroupTotalIsSliceSum(input: seq<int>, base: nat, w: nat, inclusive: seq<int>)
    requires w >= 1 && |inclusive| == w
    requires forall l :: 0 <= l < w ==> inclusive[l] == Sum(LoadGroup(input, base, w), 0, l + 1)
    ensures inclusive[w - 1] == Sum(input, Min(base, |input|), Min(base + w, |input|))
  {
    LoadGroupSum(input, base, w, w);
  }

  /**
   * One group's final write, as it changes the buffer: elements before the group already hold
   * their exclusive prefix, the group's own elements still hold the input; afterwards the
   * group's elements hold their exclusive prefix as well.
   */
  lemma GroupWriteStep(input: seq<int>, before: seq<int>, after: seq<int>, base: nat, w: nat,
                       items: seq<int>, inclusive: seq<int>, carry: int)
    requires base < |input| && |before| == |after| == |input|
    requires forall j :: 0 <= j < |input| ==> before[j] == if j < base then Sum(input, 0, j) else input[j]
    requires items == LoadGroup(before, base, w)
    requires |inclusive| == w
    requires forall l :: 0 <= l < w ==> inclusive[l] == Sum(items, 0, l + 1)
    requires carry == Sum(input, 0, base)
    requires forall j :: 0 <= j < |after| ==>
      after[j] == if base <= j < base + w then FinalValue(inclusive[j - base], items[j - base], carry) else before[j]
    ensures forall j :: 0 <= j < |input| ==> after[j] == if j < base + w then Sum(input, 0, j) else input[j]
  {
    LoadGroupAgree(before, input, base, w);
    forall j | base <= j < base + w && j < |input|
      ensures after[j] == Sum(input, 0, j)
    {
      LaneIsExclusivePrefix(input, base, w, j - base, inclusive[j - base], carry);
    }
  }

  /**
   * The part of a group's run after its local scan, for virtual group g at its turn (the
   * counter equals g): the worker thread publishes and broadcasts the carry, then every lane
   * writes back. Slot g receives the inclusive total of groups 0..g, later slots are left alone,
   * and the group's elements receive their exclusive prefix.
   */
  method PublishAndWrite(data: array<int>, dev: Device, g: nat, w: nat, ghost input: seq<int>,
                         items: seq<int>, inclusive: seq<int>, groupTotal: int)
    requires dev.groupSum != data && w >= 1
    requires g < dev.groupSum.Length && dev.counter == g && g * w < data.Length
    requires |input| == data.Length && Chained(dev.groupSum[..], g, input, w)
    requires forall j :: 0 <= j < |input| ==> data[j] == if j < g * w then Sum(input, 0, j) else input[j]
    requires items == LoadGroup(data[..], g * w, w)
    requires |inclusive| == w && forall l :: 0 <= l < w ==> inclusive[l] == Sum(items, 0, l + 1)
    requires groupTotal == inclusive[w - 1]
    modifies data, dev, dev.groupSum
    ensures dev.counter == g + 1 && dev.dynamicGroupId == old(dev.dynamicGroupId)
    ensures dev.writes == old(dev.writes) + [g]
    ensures Chained(dev.groupSum[..], g + 1, input, w)
    ensures forall j :: g < j < dev.groupSum.Length ==> dev.groupSum[j] == old(dev.groupSum[j])
    ensures forall j :: 0 <= j < |input| ==> data[j] == if j < g * w + w then Sum(input, 0, j) else input[j]
  {
    var base := g * w;
    LoadGroupAgree(data[..], input, base, w);
    GroupTotalIsSliceSum(input, base, w, inclusive);
    ghost var sums0 := dev.groupSum[..];
    var ready, carry := dev.Publish(g, groupTotal);
    assert ready;
    PublishExtendsChain(sums0, g, input, w, carry, groupTotal);
    ghost var before := data[..];
    WriteGroup(data, base, items, inclusive, carry);
    GroupWriteStep(input, before, data[..], base, w, items, inclusive, carry);
  }
}
