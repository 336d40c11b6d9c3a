/** QUIC variable-length integers, section 16 of RFC 9000. */
module QuicVarInt {
  import opened Bytes

  datatype Reading = Reading(value: nat, size: nat)

  /** Reads one integer from the front of `data`; None stands for either error. */
  function ReadVarInt(data: seq<Byte>): (r: Option<Reading>)
    ensures r.Some? ==> 1 <= r.value.size <= |data|
  {
    if |data| == 0 then None
    else
      var prefix := data[0] as int / 64;
      var first := data[0] as int % 64;
      if prefix == 0 then
        Some(Reading(first, 1))
      else if prefix == 1 then
        if |data| < 2 then None else Some(Reading(first * 0x100 + data[1] as int, 2))
      else if prefix == 2 then
        if |data| < 4 then None else Some(Reading(Value4(first, data), 4))
      else
        if |data| < 8 then None else Some(Reading(Value8(first, data), 8))
  }

  function Value4(first: nat, data: seq<Byte>): nat
    requires |data| >= 4
  {
    first * 0x100_0000 + data[1] as int * 0x1_0000 + data[2] as int * 0x100 + data[3] as int
  }

  function Value8(first: nat, data: seq<Byte>): nat
    requires |data| >= 8
  {
    first * 0x100_0000_0000_0000 + data[1] as int * 0x1_0000_0000_0000 +
    data[2] as int * 0x100_0000_0000 + data[3] as int * 0x1_0000_0000 +
    data[4] as int * 0x100_0000 + data[5] as int * 0x1_0000 +
    data[6] as int * 0x100 + data[7] as int
  }

  /** An integer together with the width its sender chose; any width that fits is legal. */
  datatype VarInt = VarInt(value: nat, width: nat) {
    predicate Valid() {
      || (width == 1 && value < 0x40)
      || (width == 2 && value < 0x4000)
      || (width == 4 && value < 0x4000_0000)
      || (width == 8 && value < 0x4000_0000_0000_0000)
    }

    function Encode(): (bs: seq<Byte>)
      requires Valid()
      ensures |bs| == width
    {
      if width == 1 then [value]
      else if width == 2 then [0x40 + value / 0x100, value % 0x100]
      else if width == 4 then
        var v1 := value / 0x100; var v2 := v1 / 0x100; var v3 := v2 / 0x100;
        [0x80 + v3, v2 % 0x100, v1 % 0x100, value % 0x100]
      else
        var v1 := value / 0x100; var v2 := v1 / 0x100; var v3 := v2 / 0x100; var v4 := v3 / 0x100;
        var v5 := v4 / 0x100; var v6 := v5 / 0x100; var v7 := v6 / 0x100;
        [0xC0 + v7, v6 % 0x100, v5 % 0x100, v4 % 0x100, v3 % 0x100, v2 % 0x100, v1 % 0x100, value % 0x100]
    }
  }

  /** Reading undoes every encoding of every value, whatever follows it. */
  lemma ReadUndoesEncode(v: VarInt, rest: seq<Byte>)
    requires v.Valid()
    ensures ReadVarInt(v.Encode() + rest) == Some(Reading(v.value, v.width))
  {
    var data := v.Encode() + rest;
    if v.width == 8 {
      EightBytesSum(v, data);
    } else if v.width == 4 {
      FourBytesSum(v, data);
    }
  }

  lemma FourBytesSum(v: VarInt, data: seq<Byte>)
    requires v.Valid() && v.width == 4 && |data| >= 4 && data[..4] == v.Encode()
    ensures data[0] as int / 64 == 2 && Value4(data[0] as int % 64, data) == v.value
  {
    hide ReadVarInt;
    forall i | 0 <= i < 4 ensures data[i] == v.Encode()[i] {}
  }

  lemma EightBytesSum(v: VarInt, data: seq<Byte>)
    requires v.Valid() && v.width == 8 && |data| >= 8 && data[..8] == v.Encode()
    ensures data[0] as int / 64 == 3 && Value8(data[0] as int % 64, data) == v.value
  {
    hide ReadVarInt;
    forall i | 0 <= i < 8 ensures data[i] == v.Encode()[i] {}
  }

  /** Whatever was read is the encoding of the result at the width it used. */
  lemma EncodeUndoesRead(data: seq<Byte>)
    requires ReadVarInt(data).Some?
    ensures var r := ReadVarInt(data).value;
            var v := VarInt(r.value, r.size);
            v.Valid() && v.Encode() == data[..r.size]
  {
    var r := ReadVarInt(data).value;
    if r.size == 8 {
      ReadEightBytes(data);
    } else if r.size == 4 {
      ReadFourBytes(data);
    } else if r.size == 2 {
      Digit(data[0] as int % 64, data[1]);
    }
  }

  /** One digit of a base-256 number. */
  lemma Digit(high: nat, low: Byte)
    ensures (high * 0x100 + low as int) / 0x100 == high
    ensures (high * 0x100 + low as int) % 0x100 == low
  {}

  lemma ReadEightBytes(data: seq<Byte>)
    requires |data| >= 8 && data[0] >= 192
    ensures var v := VarInt(Value8(data[0] as int % 64, data), 8);
            v.Valid() && v.Encode() == data[..8]
  {
    hide ReadVarInt;
    var h0: nat := data[0] as int % 64;
    var h1 := h0 * 0x100 + data[1] as int;
    var h2 := h1 * 0x100 + data[2] as int;
    var h3 := h2 * 0x100 + data[3] as int;
    var h4 := h3 * 0x100 + data[4] as int;
    var h5 := h4 * 0x100 + data[5] as int;
    var h6 := h5 * 0x100 + data[6] as int;
    var h7 := h6 * 0x100 + data[7] as int;
    assert Value8(h0, data) == h7;
    Digit(h0, data[1]); Digit(h1, data[2]); Digit(h2, data[3]); Digit(h3, data[4]);
    Digit(h4, data[5]); Digit(h5, data[6]); Digit(h6, data[7]);
  }

  lemma ReadFourBytes(data: seq<Byte>)
    requires |data| >= 4 && 128 <= data[0] < 192
    ensures var v := VarInt(Value4(data[0] as int % 64, data), 4);
            v.Valid() && v.Encode() == data[..4]
  {
    hide ReadVarInt;
    var h0: nat := data[0] as int % 64;
    var h1 := h0 * 0x100 + data[1] as int;
    var h2 := h1 * 0x100 + data[2] as int;
    var h3 := h2 * 0x100 + data[3] as int;
    assert Value4(h0, data) == h3;
    Digit(h0, data[1]); Digit(h1, data[2]); Digit(h2, data[3]);
  }

  /** Reading fails exactly when there are fewer bytes than the two high bits of the first one say. */
  lemma ReadFailsExactlyWhen(data: seq<Byte>)
    ensures ReadVarInt(data).None? <==> data == [] || |data| < [1, 2, 4, 8][data[0] as int / 64]
  {}

  /** The sample values of section A.1 of RFC 9000. */
  lemma SampleValues()
    ensures ReadVarInt([0xc2, 0x19, 0x7c, 0x5e, 0xff, 0x14, 0xe8, 0x8c]) == Some(Reading(151288809941952652, 8))
    ensures ReadVarInt([0x9d, 0x7f, 0x3e, 0x7d]) == Some(Reading(494878333, 4))
    ensures ReadVarInt([0x7b, 0xbd]) == Some(Reading(15293, 2))
    ensures ReadVarInt([0x25]) == Some(Reading(37, 1)) && ReadVarInt([0x40, 0x25]) == Some(Reading(37, 2))
  {}
}
