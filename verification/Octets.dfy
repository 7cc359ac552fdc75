/** Bytes, and the copies between byte buffers. */
module Octets {
  type byte = x: int | 0 <= x < 256
  type Bytes = seq<byte>

  function Put(buf: Bytes, j: int, bytes: Bytes): (r: Bytes)
    requires 0 <= j && j + |bytes| <= |buf|
    ensures |r| == |buf| && r[..j] == buf[..j]
    ensures r[j..j + |bytes|] == bytes && r[j + |bytes|..] == buf[j + |bytes|..]
  {
    buf[..j] + bytes + buf[j + |bytes|..]
  }

  method Copy(buf: array<byte>, j: int, bytes: Bytes)
    requires 0 <= j && j + |bytes| <= buf.Length
    modifies buf
    ensures buf[..] == Put(old(buf[..]), j, bytes)
  {
    ghost var was := buf[..];
    var i := 0;
    while i < |bytes|
      invariant 0 <= i <= |bytes|
      invariant forall k :: 0 <= k < buf.Length ==> buf[k] == if j <= k < j + i then bytes[k - j] else was[k]
    {
      buf[j + i] := bytes[i];
      i := i + 1;
    }
  }

  /** `memmove` to the start of a buffer. */
  method MoveToFront(a: array<byte>, from: nat, n: nat)
    requires from + n <= a.Length
    modifies a
    ensures a[..n] == old(a[from..from + n])
  {
    ghost var c := a[from..from + n];
    var i := 0;
    while i < n
      invariant 0 <= i <= n
      invariant forall k :: 0 <= k < i ==> a[k] == c[k]
      invariant forall k :: from + i <= k < from + n ==> a[k] == c[k - from]
    {
      a[i] := a[from + i];
      i := i + 1;
    }
  }

  /** `realloc` to a larger size. */
  method Enlarge(a: array<byte>, length: nat) returns (b: array<byte>)
    requires a.Length <= length
    ensures fresh(b) && b.Length == length && b[..a.Length] == a[..]
  {
    b := new byte[length](_ => 0);
    var i := 0;
    while i < a.Length
      invariant 0 <= i <= a.Length
      invariant b[..i] == a[..i]
    {
      b[i] := a[i];
      i := i + 1;
    }
    assert a[..i] == a[..];
  }
}
