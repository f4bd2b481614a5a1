# Single-pass SYCL scan with a counter-gated look-back, in Dafny

This project models the computation of a single-pass prefix-sum kernel written in SYCL, in
two versions. `src/atomic_scan.cpp` has 512 lanes per group and does the group-local scan
with the library's `inclusive_scan_over_group`. `atomic_scan.cpp` has 64 lanes per group and
its own barrier-phased doubling scan (Hillis–Steele).

In both kernels, each group works in the same order:
- It takes a virtual group id from an atomic `fetch_add`.
- Each lane loads its element. Lanes past `num_items` load 0.
- The group scans its slice locally.
- Its worker thread waits until the completion counter equals the group's id.
- It publishes the running total in `DEVICE_GROUP_SUM` and broadcasts the carry.
- Every lane writes `local_inclusive - local_item + carry`.

The project also models the host-side `hostInlineScan` and the helper `log2`.

The counter makes group g publish only after groups 0..g-1 have published. Groups touch
each other only through the counter and `DEVICE_GROUP_SUM`. Each group reads and writes only
its own slice of the buffer. So the model runs the groups one after another in virtual-id
order. The physical order in which groups reach the `fetch_add` is a permutation `arrival`.
The kernel's postconditions never mention `arrival`, so every schedule gives the same output.

What the model proves, end to end, for both kernels (`LibraryScanKernel.Kernel`,
`BarrierScanKernel.Kernel`):
- Element i ends as the sum of the input elements before it, so element 0 ends as 0.
- `DEVICE_GROUP_SUM[g]` ends as the sum of the input up to the end of group g.
- The slots are written once each, in the order 0, 1, 2, and so on, as recorded by the
  ghost write log `Device.writes`.
- Both counters end at the number of groups.

So the kernel, as written, computes the **exclusive** prefix sum. The repository expects the
inclusive one: `hostInlineScan` computes the inclusive scan, `deviceInlineScan` is named as
its device counterpart, and `main` runs one after the other on the same buffer. The model
follows the code and records the difference under "Findings".

Modules:
- `Sums`: `Sum(s, lo, hi)`, the reference for every scan.
- `Logarithm`: `log2`.
- `HostScan`: `hostInlineScan`.
- `Groups`: group count, index mapping, arrival order.
- `LookBack`: the `Device` class holding `DEVICE_DYNAMIC_GROUP_ID`, `DEVICE_COUNTER` and
  `DEVICE_GROUP_SUM`, plus the chain invariant.
- `LocalScan`: the library contract and the doubling scan.
- `KernelSteps`: load, final write, publish-and-write.
- `LibraryScanKernel` and `BarrierScanKernel`: one per source file.
- `Findings`: the two findings below.

## Model

| member | source | states |
|---|---|---|
| `Logarithm.Log2IsCeilLog2` | src/atomic_scan.cpp:16-18 | For every 32-bit n below UINT_MAX, `log2(n)` is 0 when n ≤ 1. Otherwise it is the ceiling logarithm r, with 2^(r-1) < n ≤ 2^r. The recursion terminates because the halved argument is smaller. The same function is at atomic_scan.cpp:14-16. |
| `Logarithm.Log2WrapsAtMax` | src/atomic_scan.cpp:16-18 | As written, `n + 1` wraps in `unsigned int`, so `log2(UINT_MAX)` is 1, which is not the ceiling logarithm. |
| `Logarithm.Log2FixedIsCeilLog2` | src/atomic_scan.cpp:16-18 | If the halving rounds up without computing `n + 1`, the result is the ceiling logarithm for every 32-bit n. |
| `Logarithm.Log2AgreesWithFixed` | src/atomic_scan.cpp:16-18 | Below UINT_MAX, the written `log2` and the corrected one return the same value. |
| `Logarithm.Log2OfGroupWidths` | src/atomic_scan.cpp:19-20 | `LOG2_NUM_THREADS_PER_GROUP` is 9 for the 512-lane groups. It is 6 for the 64-lane groups of atomic_scan.cpp:17-18. |
| `HostScan.HostInlineScan` | src/atomic_scan.cpp:22-26 | After the in-place loop, `buf[i]` is the sum of the original `buf[0..i]` for every i. Buffers of length 0 or 1 are unchanged. The same function is at atomic_scan.cpp:20-25. |
| `Groups.NumGroups` | src/atomic_scan.cpp:31-33 | `num_groups` is the ceiling of `num_items / W`: `num_groups*W ≥ num_items`. When `num_items > 0`, `(num_groups-1)*W < num_items`. It is 0 exactly when there are no items. |
| `Groups.GlobalIdInRange` | src/atomic_scan.cpp:82 | Each pair (virtual group < num_groups, local id < W) maps to a global id in `[0, num_groups*W)`. |
| `Groups.GlobalIdInjective` | src/atomic_scan.cpp:82 | Two (group, lane) pairs with lanes below W that give the same global id are the same pair. |
| `Groups.GlobalIdSurjective` | src/atomic_scan.cpp:82 | Every id in `[0, num_groups*W)` is `GlobalId(i / W, i % W)`, and that pair is in range. With the two lemmas above, the mapping is a bijection. |
| `Groups.RecordArrival` | src/atomic_scan.cpp:72-81 | Giving the k-th arriving physical group virtual id k keeps the ids already given to the groups that arrived before it. |
| `KernelSteps.LoadGroupSum` | src/atomic_scan.cpp:87-92 | Lanes at or past `num_items` load 0, so any prefix of a group's loaded items sums to the in-range part of its slice. |
| `KernelSteps.GroupTotalIsSliceSum` | src/atomic_scan.cpp:115-139 | The group total the worker thread reads is the last lane's inclusive value. That value is the sum of the group's zero-padded slice, that is, of its in-range elements. |
| `KernelSteps.WriteGroup` | src/atomic_scan.cpp:168-171 | Every lane with a global id below `num_items` writes `local_inclusive - local_item + carry` at that id. Padded lanes write nothing, and nothing else changes. |
| `KernelSteps.LaneIsExclusivePrefix` | src/atomic_scan.cpp:168-170 | Given the lane's local inclusive value and the sum of all earlier groups as the carry, the written value is the sum of the input strictly before the lane's global id. |
| `KernelSteps.GroupWriteStep` | src/atomic_scan.cpp:165-171 | Before the group's write, elements before the group hold their exclusive prefix and the group's elements hold the input. After it, the group's elements hold their exclusive prefix too. |
| `KernelSteps.PublishAndWrite` | src/atomic_scan.cpp:125-171 | Virtual group g runs at its turn (counter = g). Afterwards the counter is g+1, slot g holds the total through group g, later slots are untouched, and the group's elements hold their exclusive prefix. |
| `LookBack.Device.constructor` | src/atomic_scan.cpp:36-44 | Both counters start at 0 after the `memset`, and no slot has been written yet. `DEVICE_GROUP_SUM` holds whatever the allocation holds. |
| `LookBack.Device.FetchGroupId` | src/atomic_scan.cpp:72-79 | `fetch_add(1)` returns the old dynamic group id and raises it by one. The completion counter does not change. |
| `LookBack.Device.Publish` | src/atomic_scan.cpp:140-160 | Group 0 publishes its total with carry 0. Group g > 0 proceeds only when the counter equals g: it reads slot g-1 as its carry and writes carry + total to slot g. A publication writes only slot g, appends g to the write log and raises the counter by exactly one. Otherwise this poll changes nothing. |
| `LookBack.PublishExtendsChain` | src/atomic_scan.cpp:140-160 | Before g publishes, slots 0..g-1 hold the totals through their groups. Then g's carry is the sum of the input before the group (0 for g = 0), and after publishing, slots 0..g hold the totals through their groups. |
| `LocalScan.InclusiveScanOverGroup` | src/atomic_scan.cpp:115 | The library group scan is modelled only by its contract: lane l receives the sum of lanes 0..l of the group. |
| `LocalScan.WindowDoubles` | atomic_scan.cpp:97-108 | One round with offset o doubles each lane's window. After it, lane i holds the sum of items `max(0, i-2o+1)..i`. Lanes below o already hold their full prefix. |
| `LocalScan.Round` | atomic_scan.cpp:99-107 | In a round, lanes with `local_id < offset` keep their value. The other lanes add `LOCAL_SCAN_SPACE[local_id - offset]` as it was before the round, and only then store their new value. |
| `LocalScan.BarrierScan` | atomic_scan.cpp:93-125 | When the doubling loop exits, each lane's `local_inclusive_prefix_sum` is the inclusive local prefix sum, and the last slot of `LOCAL_SCAN_SPACE` is the group total. The loop ran exactly `log2(W)` rounds. Round r used offset 2^r, and every offset was below W. |
| `LocalScan.RoundsFor64Lanes` | atomic_scan.cpp:17-18 | A run of the explicit scan on 64 lanes takes 6 rounds, with offsets exactly 1, 2, 4, 8, 16, 32. |
| `LibraryScanKernel.Kernel` | src/atomic_scan.cpp:62-172 | Serialised in virtual-id order for any arrival permutation: every `DEVICE_RESULT[i]` ends as the sum of `input[0..i-1]`, and `DEVICE_GROUP_SUM[g]` as the sum through group g. Each slot is written exactly once, in order 0, 1, 2, … Both counters end at `num_groups`. Physical group `arrival[k]` receives virtual id k. |
| `LibraryScanKernel.DeviceInlineScan` | src/atomic_scan.cpp:28-177 | After `deviceInlineScan` with 512-lane groups, the host buffer holds the exclusive prefix sums of its old contents. |
| `BarrierScanKernel.Kernel` | atomic_scan.cpp:58-149 | The same end-to-end result for the 64-lane kernel whose local scan is the explicit doubling loop, including the write-once order of the group-sum slots. |
| `BarrierScanKernel.DeviceInlineScan` | atomic_scan.cpp:27-154 | After `deviceInlineScan` with 64-lane groups, the host buffer holds the exclusive prefix sums of its old contents. |
| `Findings.DeviceMatchesHostIff` | src/atomic_scan.cpp:168-170 | The device result and the host result agree at a position if and only if the input element there is 0. |
| `Findings.SingleElementCounterexample` | src/atomic_scan.cpp:168-170 | For the one-element input [5], lane 0 writes 0 where the inclusive scan has 5. |
| `Findings.OnesCounterexample` | src/atomic_scan.cpp:208-210 | For the driver's buffer of ones, the exclusive result at i is i, while the inclusive scan has i + 1. |
| `Findings.CorrectedLaneIsInclusivePrefix` | src/atomic_scan.cpp:168-170 | With the write `local_inclusive + carry`, every lane holds the inclusive prefix through its own element, which is what `hostInlineScan` computes. |
| `Findings.CorrectedGroupWriteStep` | src/atomic_scan.cpp:165-171 | With the corrected write, one group's write extends "every element before the group holds its inclusive prefix" across the whole group's slice. |

## Findings

| source | as written | input that shows it | evidently intended | confidence | as-written member | corrected member |
|---|---|---|---|---|---|---|
| src/atomic_scan.cpp:168-170 (and atomic_scan.cpp:145-147) | each lane writes `local_inclusive - local_item + carry`, the exclusive prefix sum | `[5]`: the device writes 0 where the host scan gives 5. A buffer of ones gives i instead of i + 1. | `local_inclusive + carry`, the inclusive scan that `hostInlineScan` computes | not executed; high that this is what the code computes | `Findings.SingleElementCounterexample` | `Findings.CorrectedGroupWriteStep` |
| src/atomic_scan.cpp:16-18 (and atomic_scan.cpp:14-16) | `(n + 1) / 2` in `unsigned int` wraps at `n = UINT_MAX` | `log2(4294967295)` returns 1 instead of 32 | halve rounding up without overflow (`n / 2 + n % 2`) | not executed; low impact, since only 512 and 64 are passed | `Logarithm.Log2WrapsAtMax` | `Logarithm.Log2FixedIsCeilLog2` |

The kernel models keep the final write as written, because that is what the code does.
The corrected write is proved per lane (`Findings.CorrectedLaneIsInclusivePrefix`) and per
group (`Findings.CorrectedGroupWriteStep`). With it, the same kernel loop would end in the
inclusive scan.

For `log2`, the kernel model only ever applies it to group widths, which are far below
UINT_MAX. There, `Logarithm.Log2AgreesWithFixed` shows the written and corrected versions
are equal.

## Left out

- Device plumbing is not modelled:
  - queue and device selection;
  - `malloc_device`, `memset`, `memcpy`, `free`;
  - `q.wait()`.

  The copy to `DEVICE_RESULT` and back is modelled as the kernel working on the host
  buffer in place. Also left out: the double free of `DEVICE_DYNAMIC_GROUP_ID`
  (atomic_scan.cpp:163-164) and the buffers that are never freed.
- Concurrency is not modelled:
  - the `relaxed` and `acq_rel` memory orders;
  - barriers as hardware synchronisation;
  - forward progress of the spin-wait.

  The groups run one after another in virtual-id order. Each group's lanes run one after
  another inside each barrier-separated phase. `Device.Publish` models one poll of the
  spin-wait.
- `inclusive_scan_over_group` is a library call. It is given only its contract. The body of
  `LocalScan.InclusiveScanOverGroup` is one reference computation of that contract, not the
  library's algorithm.
- Launch size: the `nd_range` uses `num_items` as its global size, and `num_threads` is never
  used. SYCL rejects a global size that W does not divide. The model covers the padded
  general case as the kernel body is written, with `NumGroups(num_items, W)` groups.
- In src/atomic_scan.cpp:116-118, the last lane stores its inclusive value in
  `LOCAL_SCAN_SPACE[W-1]` for the worker thread. The model hands that value to the worker
  directly.
- Not modelled: profiling, the millisecond and GB/s printing, `TimeStamp`, and `main`'s
  argument parsing and printing. `main` re-scans the device output with `hostInlineScan`
  instead of checking it.
- Fixed-width overflow is not modelled: `int` element sums, the `int` global id, and the
  `size_t` group-count arithmetic are all unbounded integers. The one exception is the
  `unsigned int` wrap-around inside `log2`, which is modelled explicitly.
- Group widths are the constants 512 and 64 in the two kernel modules. The shared steps
  and lemmas are proved for any width of at least 1.
