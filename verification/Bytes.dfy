/** Fixed-width integers in byte buffers, as the on-disk structures hold them. */
module Bytes {

  type Byte = x: int | 0 <= x < 256

  const U16: nat := 0x1_0000
  const U32: nat := 0x1_0000_0000

  function Get16(buf: seq<Byte>, at: nat): (v: nat)
    requires at + 2 <= |buf|
    ensures v < U16
  {
    (buf[at] as int) + 256 * (buf[at + 1] as int)
  }

  function Get32(buf: seq<Byte>, at: nat): (v: nat)
    requires at + 4 <= |buf|
    ensures v < U32
  {
    (buf[at] as int) + 256 * (buf[at + 1] as int) + 0x1_0000 * (buf[at + 2] as int) + 0x100_0000 * (buf[at + 3] as int)
  }

  /** buf with `part` written at `at`. */
  function Put(buf: seq<Byte>, at: nat, part: seq<Byte>): (r: seq<Byte>)
    requires at + |part| <= |buf|
    ensures |r| == |buf|
  {
    buf[..at] + part + buf[at + |part|..]
  }

  function Bytes16(v: nat): (r: seq<Byte>)
    requires v < U16
    ensures |r| == 2
  {
    [v % 256, v / 256]
  }

  function Bytes32(v: nat): (r: seq<Byte>)
    requires v < U32
    ensures |r| == 4
  {
    [v % 256, v / 256 % 256, v / 0x1_0000 % 256, v / 0x100_0000]
  }

  /** The lowest byte comes first. */
  lemma LowFirst(buf: seq<Byte>, at: nat)
    ensures at + 2 <= |buf| ==> Get16(buf, at) == (buf[at] as int) + 0x100 * (buf[at + 1] as int)
    ensures at + 4 <= |buf| ==>
      Get32(buf, at) == (buf[at] as int) + 0x100 * (buf[at + 1] as int) + 0x1_0000 * (buf[at + 2] as int) + 0x100_0000 * (buf[at + 3] as int)
  {
  }

  lemma Get16Put(buf: seq<Byte>, at: nat, v: nat)
    requires at + 2 <= |buf| && v < U16
    ensures Get16(Put(buf, at, Bytes16(v)), at) == v
  {
  }

  lemma Split32(v: nat)
    requires v < U32
    ensures v % 256 + 256 * (v / 256 % 256) + 0x1_0000 * (v / 0x1_0000 % 256) + 0x100_0000 * (v / 0x100_0000) == v
  {
    assert v == 256 * (v / 256) + v % 256;
    assert v / 256 == 256 * (v / 0x1_0000) + v / 256 % 256;
    assert v / 0x1_0000 == 256 * (v / 0x100_0000) + v / 0x1_0000 % 256;
  }

  lemma Get32Put(buf: seq<Byte>, at: nat, v: nat)
    requires at + 4 <= |buf| && v < U32
    ensures Get32(Put(buf, at, Bytes32(v)), at) == v
  {
    Split32(v);
  }

  /** Reading elsewhere is not disturbed. */
  lemma GetOther(buf: seq<Byte>, at: nat, part: seq<Byte>, i: nat)
    requires at + |part| <= |buf|
    ensures i + 2 <= |buf| && (i + 2 <= at || at + |part| <= i) ==> Get16(Put(buf, at, part), i) == Get16(buf, i)
    ensures i + 4 <= |buf| && (i + 4 <= at || at + |part| <= i) ==> Get32(Put(buf, at, part), i) == Get32(buf, i)
  {
  }
}
