/** The 7-bit integers and length-prefixed strings of the Hytale protocol.
    Shifts are multiplications and divisions; the or-ed groups of seven bits are disjoint, so they add up. */
module HytaleVarInt {
  import opened Bytes

  datatype Error = UnexpectedEof | VarIntTooLong | StringTooLong

  datatype Result<+T> = Ok(value: T, size: nat) | Err(error: Error)

  const MAX_STRING_LENGTH := 256

  // ---------------------------------------------------------------------------------------
  // Integers
  // ---------------------------------------------------------------------------------------

  /** The groups of seven bits at the front of `data`, lowest first, when `left` more bytes may be looked at. */
  function Groups(data: seq<Byte>, left: nat): (r: Result<nat>)
    ensures r.Ok? ==> 1 <= r.size <= left && r.size <= |data|
    decreases left
  {
    if left == 0 then Err(VarIntTooLong)
    else if |data| == 0 then Err(UnexpectedEof)
    else if data[0] < 0x80 then Ok(data[0], 1)
    else
      match Groups(data[1..], left - 1)
      case Err(e) => Err(e)
      case Ok(high, n) => Ok(data[0] as int % 0x80 + 0x80 * high, n + 1)
  }

  /** A word keeps what fits into 32 bits of at most five groups. */
  function ReadSpec(data: seq<Byte>): (r: Result<Word>)
    ensures r.Ok? ==> 1 <= r.size <= |data|
  {
    match Groups(data, 5)
    case Err(e) => Err(e)
    case Ok(v, n) => Ok(v % 0x1_0000_0000, n)
  }

  /** Seven bits a byte, lowest first, all bytes but the last flagged. */
  function WriteSpec(v: nat): (bs: seq<Byte>)
    ensures |bs| > 0
  {
    if v < 0x80 then [v] else [v % 0x80 + 0x80] + WriteSpec(v / 0x80)
  }

  function VarIntSize(v: nat): nat {
    if v < 0x80 then 1
    else if v < 0x4000 then 2
    else if v < 0x20_0000 then 3
    else if v < 0x1000_0000 then 4
    else 5
  }

  function Power(i: nat): nat {
    if i == 0 then 1 else 0x80 * Power(i - 1)
  }

  method ReadVarInt(data: seq<Byte>) returns (r: Result<Word>)
    ensures r == ReadSpec(data)
  {
    hide Power, Groups;
    var result: Word := 0;
    var i := 0;
    NothingRead(data);
    while i < 5
      invariant 0 <= i <= 5
      invariant i < 5 ==> result < Power(i)
      invariant i <= |data|
      invariant i < 5 ==> Groups(data, 5) == Under(Groups(data[i..], 5 - i), i, result)
      invariant i == 5 ==> Groups(data, 5) == Err(VarIntTooLong)
    {
      if i >= |data| {
        NoMoreData(data, i);
        return Err(UnexpectedEof);
      }
      var b := data[i];
      UnderStep(data, i, result);
      AddGroup(result, b as int % 0x80, i);
      var shifted := (b as int % 0x80 * Power(i)) % 0x1_0000_0000;
      result := result + shifted;
      if b < 0x80 {
        return Ok(result, i + 1);
      }
      i := i + 1;
      if i == 5 {
        NoMoreGroups(data);
      }
    }
    r := Err(VarIntTooLong);
  }

  /** Adding a shifted group to the groups below it, in 32 bits. */
  lemma AddGroup(low: nat, group: nat, i: nat)
    requires i < 5 && low < Power(i) && group < 0x80
    ensures Power(i) > 0 && low + (group * Power(i)) % 0x1_0000_0000 < 0x1_0000_0000
    ensures low + (group * Power(i)) % 0x1_0000_0000 == (low + Power(i) * group) % 0x1_0000_0000
    ensures i < 4 ==> low + (group * Power(i)) % 0x1_0000_0000 == low + Power(i) * group < Power(i + 1)
  {
    assert Power(0) == 1 && Power(1) == 0x80 && Power(2) == 0x4000 && Power(3) == 0x20_0000 && Power(4) == 0x1000_0000;
    match i {
      case 0 =>
      case 1 =>
      case 2 =>
      case 3 =>
      case 4 =>
        assert group * 0x1000_0000 == group / 16 * 0x1_0000_0000 + group % 16 * 0x1000_0000;
    }
  }

  lemma NothingRead(data: seq<Byte>)
    ensures Power(0) == 1 && Groups(data, 5) == Under(Groups(data[0..], 5), 0, 0)
  {
    assert data[0..] == data;
  }

  lemma NoMoreData(data: seq<Byte>, i: nat)
    requires i == |data| && i < 5
    ensures Groups(data[i..], 5 - i) == Err(UnexpectedEof)
  {}

  lemma NoMoreGroups(data: seq<Byte>)
    requires |data| >= 5
    ensures Groups(data[5..], 0) == Err(VarIntTooLong)
  {}

  /** What reading the remaining groups means for a reader that holds `low` from the first `i` groups. */
  function Under(rest: Result<nat>, i: nat, low: nat): Result<nat> {
    match rest
    case Err(e) => Err(e)
    case Ok(high, n) => Ok(low + Power(i) * high, n + i)
  }

  lemma UnderStep(data: seq<Byte>, i: nat, low: nat)
    requires i < 5 && i < |data|
    ensures var p := data[i] as int % 0x80;
            Under(Groups(data[i..], 5 - i), i, low) ==
            if data[i] < 0x80 then Ok(low + Power(i) * p, i + 1)
            else Under(Groups(data[i + 1..], 4 - i), i + 1, low + Power(i) * p)
  {
    assert data[i..][1..] == data[i + 1..];
    if data[i] >= 0x80 {
      match Groups(data[i + 1..], 4 - i)
      case Err(_) =>
      case Ok(high, _) => Distribute(Power(i), data[i] as int % 0x80, high);
    }
  }

  lemma Distribute(p: nat, a: nat, high: nat)
    ensures p * (a + 0x80 * high) == p * a + (0x80 * p) * high
  {}

  method WriteVarInt(value: Word) returns (bs: seq<Byte>)
    ensures bs == WriteSpec(value)
  {
    var buf := new Byte[5](_ => 0);
    var n := 0;
    var v: Word := value;
    while true
      invariant 0 <= n < 5 && VarIntSize(v) + n <= 5
      invariant WriteSpec(value) == buf[..n] + WriteSpec(v)
      decreases v
    {
      ghost var before := v;
      var b: int := v as int % 0x80;
      v := v / 0x80;
      if v != 0 {
        b := b + 0x80;
      }
      buf[n] := b;
      n := n + 1;
      if v == 0 {
        break;
      }
    }
    bs := buf[..n];
  }

  // ---------------------------------------------------------------------------------------
  // Round trip, size and prefixes
  // ---------------------------------------------------------------------------------------

  lemma {:induction false} SizeOfWrite(v: Word)
    ensures |WriteSpec(v)| == VarIntSize(v)
    decreases v
  {
    if v >= 0x80 {
      SizeOfWrite(v / 0x80);
    }
  }

  lemma {:induction false} GroupsOfWrite(v: nat, rest: seq<Byte>, left: nat)
    requires left >= |WriteSpec(v)|
    ensures Groups(WriteSpec(v) + rest, left) == Ok(v, |WriteSpec(v)|)
    decreases v
  {
    if v >= 0x80 {
      GroupsOfWrite(v / 0x80, rest, left - 1);
      var data := WriteSpec(v) + rest;
      assert data[1..] == WriteSpec(v / 0x80) + rest;
    }
  }

  /** Reading undoes writing, whatever follows, and consumes VarIntSize bytes. */
  lemma ReadUndoesWrite(v: Word, rest: seq<Byte>)
    ensures ReadSpec(WriteSpec(v) + rest) == Ok(v, VarIntSize(v))
  {
    SizeOfWrite(v);
    GroupsOfWrite(v, rest, 5);
  }

  /** No input that decodes to a value is shorter than its encoding. */
  lemma WriteIsShortest(data: seq<Byte>)
    requires ReadSpec(data).Ok?
    ensures VarIntSize(ReadSpec(data).value) <= ReadSpec(data).size
  {
    var g := Groups(data, 5);
    GroupsAreBounded(data, 5);
    assert Power(1) == 0x80 && Power(2) == 0x4000 && Power(3) == 0x20_0000 && Power(4) == 0x1000_0000;
    assert g.value % 0x1_0000_0000 <= g.value;
  }

  lemma {:induction false} GroupsAreBounded(data: seq<Byte>, left: nat)
    requires Groups(data, left).Ok?
    ensures Groups(data, left).value < Power(Groups(data, left).size)
    decreases left
  {
    if data[0] >= 0x80 {
      GroupsAreBounded(data[1..], left - 1);
    }
  }

  /** No encoding is a proper prefix of another. */
  lemma EncodingsArePrefixFree(a: Word, b: Word)
    requires WriteSpec(a) <= WriteSpec(b)
    ensures a == b
  {
    var rest := WriteSpec(b)[|WriteSpec(a)|..];
    assert WriteSpec(a) + rest == WriteSpec(b) == WriteSpec(b) + [];
    ReadUndoesWrite(a, rest);
    ReadUndoesWrite(b, []);
  }

  /** The first `n` bytes say that another one follows. */
  predicate Flagged(data: seq<Byte>, n: nat) {
    n <= |data| && forall i | 0 <= i < n :: data[i] >= 0x80
  }

  /** Reading fails exactly when five bytes, or all there are and fewer, say that another one follows. */
  lemma ReadFailsExactlyWhen(data: seq<Byte>)
    ensures ReadSpec(data) == Err(VarIntTooLong) <==> Flagged(data, 5)
    ensures ReadSpec(data) == Err(UnexpectedEof) <==> |data| < 5 && Flagged(data, |data|)
    ensures ReadSpec(data) != Err(StringTooLong)
  {
    GroupsFail(data, 5);
  }

  lemma {:induction false} GroupsFail(data: seq<Byte>, left: nat)
    ensures Groups(data, left) == Err(VarIntTooLong) <==> Flagged(data, left)
    ensures Groups(data, left) == Err(UnexpectedEof) <==> |data| < left && Flagged(data, |data|)
    ensures Groups(data, left) != Err(StringTooLong)
    decreases left
  {
    if left > 0 && |data| > 0 && data[0] >= 0x80 {
      GroupsFail(data[1..], left - 1);
      FlaggedRest(data, left);
      FlaggedRest(data, |data|);
    }
  }

  lemma FlaggedRest(data: seq<Byte>, n: nat)
    requires |data| > 0 && n > 0 && data[0] >= 0x80
    ensures Flagged(data, n) <==> Flagged(data[1..], n - 1)
  {
    if Flagged(data[1..], n - 1) {
      assert forall i | 1 <= i < n :: data[i] == data[1..][i - 1];
    }
  }

  /** An encoding that is cut off anywhere is an unexpected end. */
  lemma CutOffInteger(v: Word, n: nat)
    requires n < |WriteSpec(v)|
    ensures ReadSpec(WriteSpec(v)[..n]) == Err(UnexpectedEof)
  {
    SizeOfWrite(v);
    WriteFlags(v);
    ReadFailsExactlyWhen(WriteSpec(v)[..n]);
  }

  lemma {:induction false} WriteFlags(v: nat)
    ensures Flagged(WriteSpec(v), |WriteSpec(v)| - 1)
    decreases v
  {
    if v >= 0x80 {
      WriteFlags(v / 0x80);
      assert WriteSpec(v)[1..] == WriteSpec(v / 0x80);
      FlaggedRest(WriteSpec(v), |WriteSpec(v)| - 1);
    }
  }

  /** The layout by example: lowest group first, and a fifth group cut to 32 bits. */
  lemma Integers(rest: seq<Byte>)
    ensures WriteSpec(300) == [0xac, 0x02] && WriteSpec(0xffff_ffff) == [0xff, 0xff, 0xff, 0xff, 0x0f]
    ensures ReadSpec([0xac, 0x02] + rest) == Ok(300, 2)
    ensures ReadSpec([0xff, 0xff, 0xff, 0xff, 0x7f]) == Ok(0xffff_ffff, 5)
  {
    assert WriteSpec(0xf) == [0x0f] && WriteSpec(0x7ff) == [0xff, 0x0f] && WriteSpec(0x3_ffff) == [0xff, 0xff, 0x0f];
    assert WriteSpec(0x1ff_ffff) == [0xff, 0xff, 0xff, 0x0f];
    assert WriteSpec(2) == [2];
    ReadUndoesWrite(300, rest);
    FiveGroups();
  }

  lemma FiveGroups()
    ensures ReadSpec([0xff, 0xff, 0xff, 0xff, 0x7f]) == Ok(0xffff_ffff, 5)
  {
    var a: seq<Byte> := [0xff, 0xff, 0xff, 0xff, 0x7f];
    var b: seq<Byte> := [0xff, 0xff, 0xff, 0x7f];
    var c: seq<Byte> := [0xff, 0xff, 0x7f];
    var d: seq<Byte> := [0xff, 0x7f];
    assert a[1..] == b && b[1..] == c && c[1..] == d && d[1..] == [0x7f];
    assert Groups([0x7f], 1) == Ok(0x7f, 1);
    assert Groups(d, 2) == Ok(0x3fff, 2) && Groups(c, 3) == Ok(0x1f_ffff, 3) && Groups(b, 4) == Ok(0xfff_ffff, 4);
  }

  // ---------------------------------------------------------------------------------------
  // Strings
  // ---------------------------------------------------------------------------------------

  function ReadString(data: seq<Byte>): (r: Result<seq<Byte>>)
    ensures r.Ok? ==> r.size <= |data|
  {
    match ReadSpec(data)
    case Err(e) => Err(e)
    case Ok(length, n) =>
      if length > MAX_STRING_LENGTH then Err(StringTooLong)
      else if n + length > |data| then Err(UnexpectedEof)
      else Ok(data[n..n + length], n + length)
  }

  /** The length is written as a 32-bit word. */
  method WriteString(s: seq<Byte>) returns (bs: seq<Byte>)
    ensures bs == WriteSpec(|s| % 0x1_0000_0000) + s
  {
    var lenBytes := WriteVarInt(|s| % 0x1_0000_0000);
    var result := new Byte[|lenBytes| + |s|](_ => 0);
    forall i | 0 <= i < |lenBytes| {
      result[i] := lenBytes[i];
    }
    forall i | 0 <= i < |s| {
      result[|lenBytes| + i] := s[i];
    }
    bs := result[..];
  }

  /** A written string is read back, inside any longer buffer, exactly when it has at most 256 bytes;
      a longer one is refused, unless its length does not fit the word. */
  lemma StringRoundTrip(s: seq<Byte>, rest: seq<Byte>)
    requires |s| < 0x1_0000_0000
    ensures var data := WriteSpec(|s|) + s + rest;
            ReadString(data) == if |s| <= 256 then Ok(s, VarIntSize(|s|) + |s|) else Err(StringTooLong)
  {
    hide ReadSpec, WriteSpec;
    var data := WriteSpec(|s|) + s + rest;
    assert data == WriteSpec(|s|) + (s + rest);
    ReadUndoesWrite(|s|, s + rest);
    SizeOfWrite(|s|);
  }

  /** A written string that is cut off anywhere is an unexpected end. */
  lemma CutOffString(s: seq<Byte>, n: nat)
    requires |s| <= MAX_STRING_LENGTH && n < |WriteSpec(|s|) + s|
    ensures ReadString((WriteSpec(|s|) + s)[..n]) == Err(UnexpectedEof)
  {
    hide ReadSpec, WriteSpec;
    var prefix := WriteSpec(|s|);
    var data := (prefix + s)[..n];
    if n < |prefix| {
      assert data == prefix[..n];
      CutOffInteger(|s|, n);
    } else {
      assert data == prefix + s[..n - |prefix|];
      ReadUndoesWrite(|s|, s[..n - |prefix|]);
      SizeOfWrite(|s|);
    }
  }
}
