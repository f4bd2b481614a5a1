/**
 * The group-local scan: each lane ends with the inclusive prefix sum of the group's items
 * up to its own. One kernel calls the SYCL library's `inclusive_scan_over_group`; the other
 * runs the barrier-phased doubling (Hillis-Steele) scan over LOCAL_SCAN_SPACE itself.
 */
module LocalScan {
  import opened Sums
  import opened Logarithm

  /**
   * The library primitive, known only by its contract: lane l receives the sum of lanes
   * 0..l. The body is one reference computation of that contract, not the library's.
   */
  function InclusiveScanOverGroup(items: seq<int>): (r: seq<int>)
    ensures |r| == |items|
    ensures forall l :: 0 <= l < |items| ==> r[l] == Sum(items, 0, l + 1)
    decreases |items|
  {
    if items == [] then []
    else
      var front := items[..|items| - 1];
      var r' := InclusiveScanOverGroup(front);
      assert forall l :: 0 <= l < |front| ==> r'[l] == Sum(items, 0, l + 1) by {
        forall l | 0 <= l < |front| {
          SumAgree(front, items, 0, l + 1);
        }
      }
      r' + [Sum(items, 0, |items|)]
  }

  /** What lane l holds before the round with offset o: the sum of the o items ending at l. */
  ghost function Window(items: seq<int>, l: nat, o: nat): (r: int)
    requires l < |items| && o >= 1
  {
    Sum(items, if l + 1 >= o then l + 1 - o else 0, l + 1)
  }

  /**
   * A round with offset o doubles every window: a lane at or past o adds the window ending
   * o lanes back, which is the adjacent one; a lane before o already holds its full prefix.
   */
  lemma WindowDoubles(items: seq<int>, l: nat, o: nat)
    requires l < |items| && o >= 1
    ensures l >= o ==> Window(items, l, o) + Window(items, l - o, o) == Window(items, l, 2 * o)
    ensures l < o ==> Window(items, l, o) == Window(items, l, 2 * o)
  {
    if l >= o {
      SumSplit(items, if l + 1 >= 2 * o then l + 1 - 2 * o else 0, l + 1 - o, l + 1);
    }
  }

  /**
   * One round of the doubling loop. Between the two barriers every lane at or past `offset`
   * adds into its private running value the slot `offset` lanes back, as it was before the
   * round; after the second barrier those lanes store their running value. Lanes before
   * `offset` keep both.
   */
  method Round(space: array<int>, reg: array<int>, offset: nat)
    requires space != reg && space.Length == reg.Length && offset >= 1
    modifies space, reg
    ensures forall l :: 0 <= l < reg.Length ==>
      reg[l] == old(reg[l]) + (if l >= offset then old(space[l - offset]) else 0)
    ensures forall l :: 0 <= l < space.Length ==>
      space[l] == (if l >= offset then reg[l] else old(space[l]))
  {
    // read phase: LOCAL_SCAN_SPACE is only read
    for l := 0 to reg.Length
      modifies reg
      invariant forall j :: 0 <= j < l ==>
        reg[j] == old(reg[j]) + (if j >= offset then old(space[j - offset]) else 0)
      invariant forall j :: l <= j < reg.Length ==> reg[j] == old(reg[j])
    {
      if l >= offset {
        reg[l] := reg[l] + space[l - offset];
      }
    }
    // write phase: each lane stores only its own slot
    for l := 0 to space.Length
      modifies space
      invariant forall j :: 0 <= j < l ==> space[j] == (if j >= offset then reg[j] else old(space[j]))
      invariant forall j :: l <= j < space.Length ==> space[j] == old(space[j])
    {
      if l >= offset {
        space[l] := reg[l];
      }
    }
  }

  /** The offsets of the first k rounds: 1, 2, 4, ..., 2^(k-1). */
  ghost function Doublings(k: nat): (d: seq<nat>)
    ensures |d| == k && forall r :: 0 <= r < k ==> d[r] == Pow2(r)
  {
    if k == 0 then [] else Doublings(k - 1) + [Pow2(k - 1)]
  }

  /** A round turns windows of width `offset` into windows of width 2 * `offset`, in every lane. */
  method RoundDoublesWindows(space: array<int>, reg: array<int>, offset: nat, ghost items: seq<int>)
    requires space != reg && space.Length == reg.Length == |items| && offset >= 1
    requires forall j :: 0 <= j < |items| ==> reg[j] == space[j] == Window(items, j, offset)
    modifies space, reg
    ensures forall j :: 0 <= j < |items| ==> reg[j] == space[j] == Window(items, j, 2 * offset)
  {
    ghost var reg0, space0 := reg[..], space[..];
    Round(space, reg, offset);
    forall j | 0 <= j < |items|
      ensures reg[j] == space[j] == Window(items, j, 2 * offset)
    {
      WindowDoubles(items, j, offset);
      if j >= offset {
        assert reg[j] == reg0[j] + space0[j - offset];
      }
    }
  }

  /**
   * The explicit local scan of one group of |items| lanes: returns each lane's
   * local_inclusive_prefix_sum, the group total the worker thread reads from the last slot
   * of LOCAL_SCAN_SPACE, the number of rounds the doubling loop ran and the offset of each
   * round: 1, 2, 4, ..., each below the group width.
   */
  method BarrierScan(items: seq<int>) returns (inclusive: seq<int>, groupTotal: int, rounds: nat, ghost offsets: seq<nat>)
    requires 1 <= |items| < UINT_MAX as int
    ensures |inclusive| == |items|
    ensures forall l :: 0 <= l < |items| ==> inclusive[l] == Sum(items, 0, l + 1)
    ensures groupTotal == Sum(items, 0, |items|)
    ensures rounds == Log2(|items| as U32)
    ensures |offsets| == rounds
    ensures forall r :: 0 <= r < rounds ==> offsets[r] == Pow2(r) && offsets[r] < |items|
  {
    var w := |items|;
    var space := new int[w];  // LOCAL_SCAN_SPACE
    var reg := new int[w];    // each lane's local_inclusive_prefix_sum
    for l := 0 to w
      invariant forall j :: 0 <= j < l ==> reg[j] == items[j] && space[j] == items[j]
    {
      reg[l] := items[l];
      space[l] := reg[l];
    }
    forall j | 0 <= j < w
      ensures Window(items, j, 1) == items[j]
    {
      assert Sum(items, j, j + 1) == Sum(items, j, j) + items[j];
    }
    var offset := 1;
    rounds := 0;
    offsets := [];
    while offset < w
      invariant offset == Pow2(rounds)
      invariant |offsets| == rounds
      invariant offsets == Doublings(rounds)
      invariant forall r :: 0 <= r < rounds ==> offsets[r] < w
      invariant rounds > 0 ==> Pow2(rounds - 1) < w
      invariant forall j :: 0 <= j < w ==> reg[j] == space[j] == Window(items, j, offset)
      decreases w - offset
    {
      RoundDoublesWindows(space, reg, offset, items);
      offsets := offsets + [offset];
      offset := offset * 2;
      rounds := rounds + 1;
    }
    inclusive := reg[..];
    groupTotal := space[w - 1];
    assert IsCeilLog2(w, rounds);
    Log2IsCeilLog2(w as U32);
    CeilLog2Unique(w, rounds, Log2(w as U32));
  }

  /** With the 64-lane groups the explicit loop runs 6 rounds, with offsets 1, 2, 4, 8, 16, 32. */
  method RoundsFor64Lanes(items: seq<int>) returns (rounds: nat, ghost offsets: seq<nat>)
    requires |items| == 64
    ensures rounds == 6 && offsets == [1, 2, 4, 8, 16, 32]
  {
    var _, _, r, o := BarrierScan(items);
    rounds, offsets := r, o;
    Log2OfGroupWidths();
    assert Pow2(1) == 2 && Pow2(2) == 4 && Pow2(3) == 8 && Pow2(4) == 16 && Pow2(5) == 32;
  }
}
