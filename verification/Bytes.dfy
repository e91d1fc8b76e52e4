/** Byte strings and the big-endian fields read from and written to them. */
module Bytes {
  type byte = x: int | 0 <= x < 0x100
  type uint16 = x: int | 0 <= x < 0x1_0000
  type uint32 = x: int | 0 <= x < 0x1_0000_0000

  datatype Option<+T> = None | Some(value: T)

  function Get16(b: seq<byte>, i: nat): (v: uint16)
    requires i + 2 <= |b|
  {
    b[i] as int * 0x100 + b[i + 1] as int
  }

  function Put16(b: seq<byte>, i: nat, v: uint16): (r: seq<byte>)
    requires i + 2 <= |b|
    ensures |r| == |b| && Get16(r, i) == v
  {
    b[i := v / 256][i + 1 := v % 256]
  }

  function Get32(b: seq<byte>, i: nat): (v: uint32)
    requires i + 4 <= |b|
  {
    Get16(b, i) as int * 0x1_0000 + Get16(b, i + 2) as int
  }

  function Put32(b: seq<byte>, i: nat, v: uint32): (r: seq<byte>)
    requires i + 4 <= |b|
    ensures |r| == |b| && Get32(r, i) == v
  {
    Put16(Put16(b, i, v / 0x1_0000), i + 2, v % 0x1_0000)
  }

  lemma PutFront(p: seq<byte>, q: seq<byte>, i: nat, v: uint16)
    requires i + 2 <= |p|
    ensures Put16(p + q, i, v) == Put16(p, i, v) + q
  {
  }

  lemma PutBack(p: seq<byte>, q: seq<byte>, i: nat, v: uint16)
    requires i + 2 <= |q|
    ensures Put16(p + q, |p| + i, v) == p + Put16(q, i, v)
  {
  }
}
