/** Bytes, optional values, addresses and the big-endian fields shared by the parsers. */
module Bytes {

  type Byte = x: int | 0 <= x < 256

  type Word = x: int | 0 <= x < 0x1_0000_0000

  /** A client's UDP address. */
  datatype Addr = Addr(ip: seq<bv8>, port: bv16)

  datatype Option<+T> = None | Some(value: T)

  function Max(a: int, b: int): int {
    if a >= b then a else b
  }

  function Min(a: int, b: int): int {
    if a <= b then a else b
  }

  /** The two-byte big-endian field that starts at `at`. */
  function U16(data: seq<Byte>, at: nat): nat
    requires at + 2 <= |data|
  {
    data[at] as int * 256 + data[at + 1] as int
  }

  /** The three-byte big-endian field that starts at `at`. */
  function U24(data: seq<Byte>, at: nat): nat
    requires at + 3 <= |data|
  {
    data[at] as int * 65536 + data[at + 1] as int * 256 + data[at + 2] as int
  }

  function PutU16(v: nat): (bs: seq<Byte>)
    requires v < 0x1_0000
    ensures |bs| == 2 && U16(bs, 0) == v
  {
    [v / 256, v % 256]
  }

  function PutU24(v: nat): (bs: seq<Byte>)
    requires v < 0x100_0000
    ensures |bs| == 3 && U24(bs, 0) == v
  {
    [v / 65536, v / 256 % 256, v % 256]
  }

  /** `bs` stands in `data` at offset `at`. */
  predicate At(data: seq<Byte>, at: nat, bs: seq<Byte>) {
    at + |bs| <= |data| && data[at..at + |bs|] == bs
  }

  lemma AtSplit(data: seq<Byte>, at: nat, a: seq<Byte>, b: seq<Byte>)
    requires At(data, at, a + b)
    ensures At(data, at, a) && At(data, at + |a|, b)
  {
    var whole := data[at..at + |a + b|];
    assert whole[..|a|] == a && whole[|a|..] == b;
  }

  /** A prefix, or the whole, stands at the front. */
  lemma AtPrefix(data: seq<Byte>, bs: seq<Byte>)
    requires bs <= data
    ensures At(data, 0, bs)
  {
    assert data[0..0 + |bs|] == data[..|bs|];
  }

  lemma AtBound(data: seq<Byte>, at: nat, bs: seq<Byte>)
    requires At(data, at, bs)
    ensures at + |bs| <= |data| && data[at..at + |bs|] == bs
  {}

  lemma ByteAt(data: seq<Byte>, at: nat, b: Byte)
    requires At(data, at, [b])
    ensures at < |data| && data[at] == b
  {
    assert data[at..at + 1][0] == b;
  }

  lemma U16At(data: seq<Byte>, at: nat, v: nat)
    requires v < 0x1_0000 && At(data, at, PutU16(v))
    ensures at + 2 <= |data| && U16(data, at) == v
  {
    assert data[at] == PutU16(v)[0] && data[at + 1] == PutU16(v)[1];
  }

  lemma U24At(data: seq<Byte>, at: nat, v: nat)
    requires v < 0x100_0000 && At(data, at, PutU24(v))
    ensures at + 3 <= |data| && U24(data, at) == v
  {
    assert data[at] == PutU24(v)[0] && data[at + 1] == PutU24(v)[1] && data[at + 2] == PutU24(v)[2];
  }

  /** Big-endian by example. */
  lemma BigEndian()
    ensures U16([0x12, 0x34], 0) == 0x1234 && U24([0x12, 0x34, 0x56], 0) == 0x12_3456
  {}
}
