/**
 * The launch geometry: how many groups of `w` lanes cover `numItems` elements, and how a
 * (virtual group id, local id) pair names one element.
 */
module Groups {

  /** `(num_items + W - 1) / W`: the ceiling of numItems / w. */
  function NumGroups(numItems: nat, w: nat): (g: nat)
    requires w >= 1
    ensures g * w >= numItems
    ensures numItems > 0 ==> g >= 1 && (g - 1) * w < numItems
    ensures numItems == 0 ==> g == 0
  {
    var q := (numItems + w - 1) / w;
    var r := (numItems + w - 1) % w;
    assert numItems + w - 1 == q * w + r;
    assert (q - 1) * w == q * w - w;
    q
  }

  /** `v_global_id = v_group_id * W + local_id`. */
  function GlobalId(group: nat, lane: nat, w: nat): (id: nat) {
    group * w + lane
  }

  lemma {:induction false} MulMonotone(a: nat, b: nat, w: nat)
    requires a <= b
    ensures a * w <= b * w
    decreases b
  {
    if a < b {
      MulMonotone(a, b - 1, w);
      assert b * w == (b - 1) * w + w;
    }
  }

  /** Every (group, lane) pair of the launch lands inside the padded range [0, numGroups * w). */
  lemma GlobalIdInRange(group: nat, lane: nat, w: nat, numGroups: nat)
    requires lane < w && group < numGroups
    ensures GlobalId(group, lane, w) < numGroups * w
  {
    MulMonotone(group + 1, numGroups, w);
    assert (group + 1) * w == group * w + w;
  }

  /** No two (group, lane) pairs share an id. */
  lemma GlobalIdInjective(g1: nat, l1: nat, g2: nat, l2: nat, w: nat)
    requires l1 < w && l2 < w
    requires GlobalId(g1, l1, w) == GlobalId(g2, l2, w)
    ensures g1 == g2 && l1 == l2
  {
    if g1 < g2 {
      assert (g1 + 1) * w == g1 * w + w;
      MulMonotone(g1 + 1, g2, w);
    } else if g2 < g1 {
      assert (g2 + 1) * w == g2 * w + w;
      MulMonotone(g2 + 1, g1, w);
    }
  }

  /** Every id of the padded range is the id of some (group, lane) pair. */
  lemma GlobalIdSurjective(i: nat, w: nat, numGroups: nat)
    requires w >= 1 && i < numGroups * w
    ensures i / w < numGroups && i % w < w
    ensures GlobalId(i / w, i % w, w) == i
  {
    var q := i / w;
    assert i == q * w + i % w;
    if q >= numGroups {
      MulMonotone(numGroups, q, w);
    }
  }

  /**
   * The order in which the physical groups reach the `fetch_add`: a permutation of the
   * physical group ids 0..numGroups-1, chosen by the device scheduler.
   */
  ghost predicate IsArrivalOrder(arrival: seq<nat>, numGroups: nat) {
    && |arrival| == numGroups
    && (forall k :: 0 <= k < numGroups ==> arrival[k] < numGroups)
    && (forall i, j :: 0 <= i < j < numGroups ==> arrival[i] != arrival[j])
  }

  /**
   * Recording that the k-th arriving physical group got virtual id k keeps the ids of the
   * groups that arrived before it: distinct physical groups never share an entry.
   */
  lemma RecordArrival(virtualOf: seq<nat>, arrival: seq<nat>, k: nat, numGroups: nat)
    requires IsArrivalOrder(arrival, numGroups) && k < numGroups && |virtualOf| == numGroups
    requires forall j :: 0 <= j < k ==> virtualOf[arrival[j]] == j
    ensures forall j :: 0 <= j <= k ==> virtualOf[arrival[k] := k][arrival[j]] == j
  {
    forall j | 0 <= j < k
      ensures virtualOf[arrival[k] := k][arrival[j]] == j
    {
      assert arrival[j] != arrival[k];
    }
  }
}
