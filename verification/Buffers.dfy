/** Copies between byte strings and buffers. */
module Buffers {
  import opened Common

  /** Writes bytes at an offset of the buffer. */
  method Write(buf: array<byte>, at: nat, data: Bytes)
    requires at + |data| <= buf.Length
    modifies buf
    ensures buf[..] == old(buf[..])[..at] + data + old(buf[..])[at + |data|..]
    ensures buf[..at + |data|] == old(buf[..at]) + data
  {
    ghost var was := buf[..];
    for i := 0 to |data|
      invariant buf[..] == was[..at] + data[..i] + was[at + i..]
    {
      buf[at + i] := data[i];
      assert data[..i + 1] == data[..i] + [data[i]];
    }
    assert data[..|data|] == data;
    assert buf[..at + |data|] == buf[..][..at + |data|] == was[..at] + data;
  }

  /** Moves n bytes from an offset to the front of a buffer. */
  method ShiftToFront(a: array<byte>, from: nat, n: nat)
    requires from + n <= a.Length
    modifies a
    ensures a[..n] == old(a[from..from + n])
  {
    for i := 0 to n
      invariant a[..i] == old(a[from..from + i])
      invariant forall j :: i <= j < a.Length ==> a[j] == old(a[j])
    {
      a[i] := a[from + i];
    }
  }
}
