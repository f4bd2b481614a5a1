/**
 * The cross-group look-back: the global state every group's worker thread (local id 0)
 * shares. `fetch_add` on the dynamic group id hands out virtual ids; the completion counter
 * gates publication, so virtual group g publishes its inclusive total only once groups
 * 0..g-1 have published theirs.
 */
module LookBack {
  import opened Sums

  class Device {
    /** DEVICE_DYNAMIC_GROUP_ID[0]: the next virtual group id to hand out. */
    var dynamicGroupId: nat
    /** DEVICE_COUNTER[0]: how many groups have published their total. */
    var counter: nat
    /** DEVICE_GROUP_SUM: slot g holds the inclusive total of groups 0..g. */
    const groupSum: array<int>
    /** The slots of DEVICE_GROUP_SUM in the order they were written. */
    ghost var writes: seq<nat>

    /** Both counters are zeroed by `memset`; the group sums start as whatever the allocation holds. */
    constructor (initialSums: seq<int>)
      ensures dynamicGroupId == 0 && counter == 0 && writes == []
      ensures fresh(groupSum) && groupSum[..] == initialSums
    {
      dynamicGroupId := 0;
      counter := 0;
      writes := [];
      groupSum := new int[|initialSums|](i requires 0 <= i < |initialSums| => initialSums[i]);
    }

    /** `ATOMIC_GROUP_ID.fetch_add(1)`: returns the old value and raises it by one. */
    method FetchGroupId() returns (g: nat)
      modifies this
      ensures g == old(dynamicGroupId) && dynamicGroupId == old(dynamicGroupId) + 1
      ensures counter == old(counter) && writes == old(writes)
    {
      g := dynamicGroupId;
      dynamicGroupId := dynamicGroupId + 1;
    }

    /**
     * One step of the worker thread of virtual group g holding its group total. Group 0
     * publishes at once with carry 0. Any other group publishes only when the counter equals
     * g, reading the predecessor's slot as its carry; otherwise this poll of the spin-wait
     * finds the group not ready and changes nothing. A publication writes slot g alone and
     * raises the counter by exactly one.
     */
    method Publish(g: nat, groupTotal: int) returns (ready: bool, carry: int)
      requires g < groupSum.Length
      modifies this, groupSum
      ensures dynamicGroupId == old(dynamicGroupId)
      ensures ready <==> (g == 0 || old(counter) == g)
      ensures ready ==> carry == (if g == 0 then 0 else old(groupSum[g - 1]))
      ensures ready ==> counter == old(counter) + 1 && groupSum[..] == old(groupSum[..])[g := carry + groupTotal]
      ensures ready ==> writes == old(writes) + [g]
      ensures !ready ==> counter == old(counter) && groupSum[..] == old(groupSum[..]) && writes == old(writes)
    {
      if g == 0 {
        groupSum[g] := groupTotal;
        writes := writes + [g];
        counter := counter + 1;
        ready, carry := true, 0;
      } else if counter == g {
        carry := groupSum[g - 1];
        groupSum[g] := carry + groupTotal;
        writes := writes + [g];
        counter := counter + 1;
        ready := true;
      } else {
        ready, carry := false, 0;
      }
    }
  }

  /**
   * The look-back invariant: each of the first `published` slots holds the sum of the input
   * up to the end of its group (the last group clipped to the input).
   */
  ghost predicate Chained(groupSum: seq<int>, published: nat, input: seq<int>, w: nat) {
    published <= |groupSum| &&
    forall k :: 0 <= k < published ==> groupSum[k] == Sum(input, 0, Min((k + 1) * w, |input|))
  }

  /**
   * A publication by the group whose id equals the counter keeps the invariant one slot
   * further, and the carry it hands to its lanes is the sum of everything before the group.
   */
  lemma PublishExtendsChain(groupSum: seq<int>, g: nat, input: seq<int>, w: nat, carry: int, groupTotal: int)
    requires Chained(groupSum, g, input, w) && g < |groupSum|
    requires g * w <= |input|
    requires carry == (if g == 0 then 0 else groupSum[g - 1])
    requires groupTotal == Sum(input, g * w, Min(g * w + w, |input|))
    ensures carry == Sum(input, 0, g * w)
    ensures Chained(groupSum[g := carry + groupTotal], g + 1, input, w)
  {
    if g > 0 {
      assert (g - 1 + 1) * w == g * w;
    }
    assert (g + 1) * w == g * w + w;
    SumSplit(input, 0, g * w, Min(g * w + w, |input|));
  }
}
