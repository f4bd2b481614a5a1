/** `hostInlineScan`: the sequential inclusive scan, in place on the host buffer. */
module HostScan {
  import opened Sums

  method HostInlineScan(buf: array<int>)
    modifies buf
    ensures forall i :: 0 <= i < buf.Length ==> buf[i] == Sum(old(buf[..]), 0, i + 1)
    ensures buf.Length <= 1 ==> buf[..] == old(buf[..])
  {
    ghost var orig := buf[..];
    var i := 1;
    while i < buf.Length
      invariant 1 <= i
      invariant buf.Length > 0 ==> i <= buf.Length
      invariant forall j :: 0 <= j < i && j < buf.Length ==> buf[j] == Sum(orig, 0, j + 1)
      invariant forall j :: i <= j < buf.Length ==> buf[j] == orig[j]
    {
      buf[i] := buf[i] + buf[i - 1];
      i := i + 1;
    }
  }
}
