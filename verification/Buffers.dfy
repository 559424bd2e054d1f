/** Byte buffers that are written piece by piece. */
module Buffers {
  import opened Bytes

  /** The buffer with data written at a position. */
  function Patched(buf: seq<byte>, at: nat, data: seq<byte>): (r: seq<byte>)
    requires at + |data| <= |buf|
    ensures |r| == |buf|
  {
    buf[..at] + data + buf[at + |data|..]
  }

  /** memcpy to a place in a buffer. */
  method Copy(buf: array<byte>, at: nat, data: seq<byte>)
    requires at + |data| <= buf.Length
    modifies buf
    ensures buf[..] == Patched(old(buf[..]), at, data)
    ensures buf[..at + |data|] == old(buf[..at]) + data
  {
    forall i | 0 <= i < |data| {
      buf[at + i] := data[i];
    }
  }

  lemma PatchedTwice(buf: seq<byte>, at: nat, a: seq<byte>, b: seq<byte>)
    requires at + |a| + |b| <= |buf|
    ensures Patched(Patched(buf, at, a), at + |a|, b) == Patched(buf, at, a + b)
  {}

  lemma PatchedPrefix(buf: seq<byte>, a: seq<byte>)
    requires |a| <= |buf|
    ensures Patched(buf, 0, a)[..|a|] == a
  {}

  lemma PatchedAppend(buf: seq<byte>, at: nat, data: seq<byte>)
    requires at + |data| <= |buf|
    ensures Patched(buf, at, data)[..at + |data|] == buf[..at] + data
  {}

  /** Filling a buffer of exactly the right size leaves nothing of what it held. */
  lemma PatchedWhole(buf: seq<byte>, data: seq<byte>)
    requires |buf| == |data|
    ensures Patched(buf, 0, data) == data
  {}

  /** A change inside the first size bytes, seen in those bytes alone. */
  lemma PatchedInside(buf: seq<byte>, size: nat, at: nat, data: seq<byte>)
    requires at + |data| <= size <= |buf|
    ensures Patched(buf, at, data)[..size] == Patched(buf[..size], at, data)
  {}
}
