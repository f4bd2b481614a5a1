/**
 * The kernel of src/atomic_scan.cpp (512 lanes per group, library group scan), serialised
 * in the order its completion counter enforces: virtual group 0, then 1, and so on. Groups
 * touch each other only through the look-back state, and each group reads and writes only
 * its own slice of the buffer, so running them one after another in virtual-id order gives
 * exactly the values of any concurrent run that completes.
 */
module LibraryScanKernel {
  import opened Sums
  import opened Groups
  import opened KernelSteps
  import opened LookBack
  import opened LocalScan

  const NUM_THREADS_PER_GROUP: nat := 512

  /**
   * The kernel over DEVICE_RESULT (`data`). Physical group arrival[k] is the k-th to reach
   * the `fetch_add` and so runs as virtual group k; the results never mention `arrival`, so
   * every scheduling gives the same output. Every element ends as the sum of the elements
   * strictly before it (the EXCLUSIVE scan), every group-sum slot as the inclusive total of its
   * group and all earlier ones, and both counters at the number of groups. The slots were
   * written once each, in the order 0, 1, 2, ...
   */
  method Kernel(data: array<int>, dev: Device, arrival: seq<nat>) returns (virtualOf: seq<nat>)
    requires dev.groupSum != data
    requires dev.counter == 0 && dev.dynamicGroupId == 0 && dev.writes == []
    requires dev.groupSum.Length == NumGroups(data.Length, NUM_THREADS_PER_GROUP)
    requires IsArrivalOrder(arrival, dev.groupSum.Length)
    modifies data, dev, dev.groupSum
    ensures forall i :: 0 <= i < data.Length ==> data[i] == Sum(old(data[..]), 0, i)
    ensures dev.counter == dev.groupSum.Length && dev.dynamicGroupId == dev.groupSum.Length
    ensures |dev.writes| == dev.groupSum.Length && forall k :: 0 <= k < |dev.writes| ==> dev.writes[k] == k
    ensures Chained(dev.groupSum[..], dev.groupSum.Length, old(data[..]), NUM_THREADS_PER_GROUP)
    ensures |virtualOf| == dev.groupSum.Length
    ensures forall k :: 0 <= k < |virtualOf| ==> virtualOf[arrival[k]] == k
  {
    ghost var input := data[..];
    var w := NUM_THREADS_PER_GROUP;
    var n := data.Length;
    var numGroups := dev.groupSum.Length;
    virtualOf := seq(numGroups, _ => 0);
    for k := 0 to numGroups
      invariant dev.counter == k && dev.dynamicGroupId == k
      invariant |dev.writes| == k && forall j :: 0 <= j < k ==> dev.writes[j] == j
      invariant Chained(dev.groupSum[..], k, input, w)
      invariant forall j :: k <= j < numGroups ==> dev.groupSum[j] == old(dev.groupSum[j])
      invariant forall j :: 0 <= j < n ==> data[j] == if j < k * w then Sum(input, 0, j) else input[j]
      invariant |virtualOf| == numGroups
      invariant forall j :: 0 <= j < k ==> virtualOf[arrival[j]] == j
    {
      // the worker thread takes the next virtual id; LOCAL_GROUP_ID broadcasts it
      var g := dev.FetchGroupId();
      RecordArrival(virtualOf, arrival, k, numGroups);
      virtualOf := virtualOf[arrival[k] := g];
      var base := g * w;
      assert base < n;
      // each lane loads its item, 0 past num_items
      var items := LoadGroup(data[..], base, w);
      var inclusive := InclusiveScanOverGroup(items);
      // the last lane leaves its inclusive value in LOCAL_SCAN_SPACE for the worker
      var groupTotal := inclusive[w - 1];
      PublishAndWrite(data, dev, g, w, input, items, inclusive, groupTotal);
    }
  }

  /**
   * `deviceInlineScan`: the buffer is copied to DEVICE_RESULT, the kernel runs once over
   * `NumGroups` groups with both counters zeroed, and DEVICE_RESULT is copied back over the
   * buffer. `initialGroupSums` is whatever the uninitialised DEVICE_GROUP_SUM allocation holds.
   */
  method DeviceInlineScan(hostBuf: array<int>, arrival: seq<nat>, initialGroupSums: seq<int>)
    requires |initialGroupSums| == NumGroups(hostBuf.Length, NUM_THREADS_PER_GROUP)
    requires IsArrivalOrder(arrival, |initialGroupSums|)
    modifies hostBuf
    ensures forall i :: 0 <= i < hostBuf.Length ==> hostBuf[i] == Sum(old(hostBuf[..]), 0, i)
  {
    var dev := new Device(initialGroupSums);
    var _ := Kernel(hostBuf, dev, arrival);
  }
}
