/** Collecting CRYPTO frames until a ClientHello is complete. */
module Assembler {
  import opened Bytes
  import opened ClientHello
  import opened FrameScan

  const BUFFER_SIZE := 8192
  const BATCH_LIMIT := 16384

  /** The bytes that have arrived, by position in the CRYPTO stream. */
  type Received = map<nat, Byte>

  predicate Covers(f: CryptoFrame, i: nat) {
    f.offset <= i < f.offset + |f.data|
  }

  /** The part of a frame that fits the buffer. */
  function BytesOf(f: CryptoFrame): Received {
    map i: nat | i < BUFFER_SIZE && Covers(f, i) :: f.data[i - f.offset]
  }

  /** What is known after further frames: the later frame wins where two overlap. */
  function Collect(m: Received, fs: seq<CryptoFrame>): Received
    decreases |fs|
  {
    if fs == [] then m else Collect(m + BytesOf(fs[0]), fs[1..])
  }

  /** One past the last position a frame claims, within the buffer; an empty frame claims its offset. */
  function EndOf(f: CryptoFrame): nat {
    if f.offset >= BUFFER_SIZE then 0 else Min(f.offset + |f.data|, BUFFER_SIZE)
  }

  function Extent(fs: seq<CryptoFrame>): nat {
    if fs == [] then 0 else Max(EndOf(fs[0]), Extent(fs[1..]))
  }

  predicate HasPrefix(m: Received, n: nat) {
    forall i: nat | i < n :: i in m
  }

  function Prefix(m: Received, n: nat): (s: seq<Byte>)
    requires HasPrefix(m, n)
    ensures |s| == n
  {
    seq(n, i requires 0 <= i < n => m[i])
  }

  /** The ClientHello in what has arrived: its length field must be there before it is believed. */
  function HelloIn(m: Received): Option<Hello> {
    if !HasPrefix(m, 4) then None
    else
      var needed := Min(4 + U24(Prefix(m, 4), 1), BUFFER_SIZE);
      if HasPrefix(m, needed) then ParseHello(Prefix(m, needed)) else None
  }

  // ---------------------------------------------------------------------------------------
  // The bitset
  // ---------------------------------------------------------------------------------------

  function Mask(bit: nat): bv64
    requires bit < 64
  {
    1 << bit
  }

  function And(a: bv64, b: bv64): bv64 { a & b }

  function Or(a: bv64, b: bv64): bv64 { a | b }

  function WithBit(w: bv64, bit: nat): bv64
    requires bit < 64
  {
    Or(w, Mask(bit))
  }

  predicate HasBit(w: bv64, bit: nat)
    requires bit < 64
  {
    And(w, Mask(bit)) != 0
  }

  predicate BitIn(words: seq<bv64>, index: nat)
    requires index < 64 * |words|
  {
    HasBit(words[index / 64], index % 64)
  }

  lemma MasksAreDistinct(j: nat, k: nat)
    requires j < 64 && k < 64
    ensures And(Mask(j), Mask(k)) != 0 <==> j == k
  {}

  lemma OrSame(w: bv64, b: bv64)
    requires And(b, b) != 0
    ensures And(Or(w, b), b) != 0
  {
    assert (w | b) & b == b;
  }

  lemma OrOther(w: bv64, a: bv64, b: bv64)
    requires And(a, b) == 0
    ensures And(Or(w, a), b) == And(w, b)
  {}

  lemma HasBitWithBit(w: bv64, j: nat, k: nat)
    requires j < 64 && k < 64
    ensures HasBit(WithBit(w, j), k) <==> j == k || HasBit(w, k)
  {
    hide Mask, And, Or;
    MasksAreDistinct(j, k);
    if j == k {
      OrSame(w, Mask(k));
    } else {
      OrOther(w, Mask(j), Mask(k));
    }
  }

  lemma SetBitIn(words: seq<bv64>, index: nat, k: nat)
    requires index < 64 * |words| && k < 64 * |words|
    ensures BitIn(words[index / 64 := WithBit(words[index / 64], index % 64)], k) <==> k == index || BitIn(words, k)
  {
    hide HasBit, WithBit;
    HasBitWithBit(words[index / 64], index % 64, k % 64);
  }

  // ---------------------------------------------------------------------------------------
  // The assembler
  // ---------------------------------------------------------------------------------------

  class CryptoAssembler {
    const buffer: array<Byte>
    const written: array<bv64>
    var maxOffset: nat
    var complete: bool

    ghost predicate Valid()
      reads this, buffer, written
    {
      && buffer.Length == BUFFER_SIZE && written.Length == BUFFER_SIZE / 64
      && maxOffset <= BUFFER_SIZE
      && (forall i: nat | i < BUFFER_SIZE :: IsSet(i) ==> i < maxOffset)
      && (forall i: nat | i < BUFFER_SIZE :: !IsSet(i) ==> buffer[i] == 0)
    }

    predicate IsSet(index: nat)
      requires index < BUFFER_SIZE && written.Length == BUFFER_SIZE / 64
      reads written
    {
      BitIn(written[..], index)
    }

    /** The partial map that bitset and buffer represent. */
    ghost function Arrived(): Received
      requires buffer.Length == BUFFER_SIZE && written.Length == BUFFER_SIZE / 64
      reads buffer, written
    {
      map i: nat | i < BUFFER_SIZE && IsSet(i) :: buffer[i]
    }

    constructor ()
      ensures Valid() && fresh(buffer) && fresh(written)
      ensures Arrived() == map[] && maxOffset == 0 && !complete
    {
      buffer := new Byte[BUFFER_SIZE](_ => 0);
      written := new bv64[BUFFER_SIZE / 64](_ => 0);
      maxOffset := 0;
      complete := false;
    }

    method SetBit(index: nat)
      requires index < BUFFER_SIZE && written.Length == BUFFER_SIZE / 64
      modifies written
      ensures forall k: nat | k < BUFFER_SIZE :: IsSet(k) <==> k == index || old(IsSet(k))
    {
      hide HasBit, WithBit;
      ghost var before := written[..];
      written[index / 64] := WithBit(written[index / 64], index % 64);
      assert written[..] == before[index / 64 := WithBit(before[index / 64], index % 64)];
      forall k: nat | k < BUFFER_SIZE ensures IsSet(k) <==> k == index || BitIn(before, k) {
        SetBitIn(before, index, k);
      }
    }

    /** Adds one frame; refuses it when it starts behind the buffer, cuts it when it ends there. */
    method AddFrame(f: CryptoFrame) returns (ok: bool)
      requires Valid()
      modifies buffer, written, this`maxOffset
      ensures Valid()
      ensures ok == (f.offset < BUFFER_SIZE)
      ensures Arrived() == old(Arrived()) + BytesOf(f)
      ensures maxOffset == Max(old(maxOffset), EndOf(f))
    {
      hide HasBit, BitIn;
      if f.offset >= BUFFER_SIZE {
        return false;
      }
      var end := f.offset + |f.data|;
      if end > BUFFER_SIZE {
        end := BUFFER_SIZE;
      }
      forall i | f.offset <= i < end {
        buffer[i] := f.data[i - f.offset];
      }
      var i := f.offset;
      while i < end
        modifies written
        invariant f.offset <= i <= end
        invariant forall k: nat | k < BUFFER_SIZE :: IsSet(k) <==> f.offset <= k < i || old(IsSet(k))
      {
        SetBit(i);
        i := i + 1;
      }
      if end > maxOffset {
        maxOffset := end;
      }
      ok := true;
    }

    /** Looks for a ClientHello. The length field is read before anything says that it has arrived. */
    method TryParse() returns (hello: Option<Hello>)
      requires Valid()
      modifies this`complete
      ensures Valid()
      ensures hello == HelloIn(Arrived())
      ensures complete == (old(complete) || hello.Some?)
    {
      hide HasBit, BitIn, ParseHello, U24;
      ghost var m := Arrived();
      if maxOffset < 6 {
        TooShort(m, maxOffset);
        return None;
      }
      if buffer[0] != 1 {
        NotAHello(m);
        return None;
      }
      var hsLen := U24(buffer[..], 1);
      var needed := Min(4 + hsLen, BUFFER_SIZE);
      ghost var trusted := HasPrefix(m, needed);
      assert trusted ==> HelloIn(m) == ParseHello(Prefix(m, needed)) by {
        if trusted { LengthField(m, buffer[..]); }
      }
      assert !trusted ==> HelloIn(m) == None by {
        if HasPrefix(m, 4) { LengthField(m, buffer[..]); }
      }
      if maxOffset < needed {
        assert needed - 1 !in m && !trusted;
        return None;
      }
      var i := 0;
      while i < needed
        invariant 0 <= i <= needed
        invariant HasPrefix(m, i)
      {
        if !IsSet(i) {
          assert i !in m && !trusted;
          return None;
        }
        i := i + 1;
      }
      assert buffer[..needed] == Prefix(m, needed);
      hello := ParseTLSClientHello(buffer[..needed]);
      if hello.Some? {
        complete := true;
      }
    }

    /** One decrypted Initial payload: its frames are added, then the parse is tried. */
    method HandlePayload(payload: seq<Byte>) returns (hello: Option<Hello>)
      requires Valid()
      modifies this`maxOffset, this`complete, buffer, written
      ensures Valid()
      ensures old(complete) ==> hello.None? && Arrived() == old(Arrived()) && complete
      ensures !old(complete) ==>
        && Arrived() == Collect(old(Arrived()), FramesFrom(payload, 0))
        && maxOffset == Max(old(maxOffset), Extent(FramesFrom(payload, 0)))
        && hello == HelloIn(Arrived())
        && complete == hello.Some?
    {
      if complete {
        return None;
      }
      var frames := ExtractCryptoFrames(payload);
      AddFrames(frames);
      hello := TryParse();
    }

    method AddFrames(frames: seq<CryptoFrame>)
      requires Valid()
      modifies this`maxOffset, buffer, written
      ensures Valid()
      ensures Arrived() == Collect(old(Arrived()), frames)
      ensures maxOffset == Max(old(maxOffset), Extent(frames))
    {
      hide HasBit, BitIn, BytesOf, EndOf;
      var i := 0;
      while i < |frames|
        invariant 0 <= i <= |frames|
        invariant Valid()
        invariant Collect(old(Arrived()), frames) == Collect(Arrived(), frames[i..])
        invariant Max(old(maxOffset), Extent(frames)) == Max(maxOffset, Extent(frames[i..]))
      {
        assert frames[i..][1..] == frames[i + 1..];
        var _ := AddFrame(frames[i]);
        i := i + 1;
      }
    }
  }

  // ---------------------------------------------------------------------------------------
  // Why reading ahead is sound
  // ---------------------------------------------------------------------------------------

  /** Fewer than six bytes never hold a ClientHello. */
  lemma TooShort(m: Received, maxOffset: nat)
    requires maxOffset < 6 && forall i: nat | i in m :: i < maxOffset
    ensures HelloIn(m) == None
  {
    if HasPrefix(m, 4) {
      var needed := Min(4 + U24(Prefix(m, 4), 1), BUFFER_SIZE);
      if HasPrefix(m, needed) {
        assert needed == 0 || needed - 1 in m;
      }
    }
  }

  /** Neither does a message of another type, nor one whose first byte is missing. */
  lemma NotAHello(m: Received)
    requires 0 in m ==> m[0] != 1
    ensures HelloIn(m) == None
  {}

  /** Once the first four bytes have arrived, the buffer's length field is the stream's. */
  lemma LengthField(m: Received, buffer: seq<Byte>)
    requires |buffer| >= 4 && HasPrefix(m, 4)
    requires forall i: nat | i < 4 :: m[i] == buffer[i]
    ensures U24(buffer, 1) == U24(Prefix(m, 4), 1)
  {}

  // ---------------------------------------------------------------------------------------
  // Reassembling a complete list of frames at once
  // ---------------------------------------------------------------------------------------

  /** The end of a frame in 64-bit arithmetic. */
  function WrappedEnd(f: CryptoFrame): nat {
    (f.offset + |f.data|) % 0x1_0000_0000_0000_0000
  }

  function MaxEnd(fs: seq<CryptoFrame>): nat {
    if fs == [] then 0 else Max(WrappedEnd(fs[0]), MaxEnd(fs[1..]))
  }

  /** The extent of a list of frames is the end of the one that reaches furthest. */
  lemma {:induction false} MaxEndIsReached(fs: seq<CryptoFrame>)
    requires forall f | f in fs :: f.offset + |f.data| < 0x1_0000_0000_0000_0000
    ensures forall f | f in fs :: f.offset + |f.data| <= MaxEnd(fs)
    ensures MaxEnd(fs) == 0 || exists f | f in fs :: f.offset + |f.data| == MaxEnd(fs)
  {
    if fs != [] {
      MaxEndIsReached(fs[1..]);
      assert fs[0] in fs;
      assert forall f | f in fs[1..] :: f in fs;
    }
  }

  /** The byte the last frame covering `i` has there, or zero. */
  function LastByte(fs: seq<CryptoFrame>, i: nat): Byte
    decreases |fs|
  {
    if fs == [] then 0
    else
      var last := fs[|fs| - 1];
      if Covers(last, i) then last.data[i - last.offset] else LastByte(fs[..|fs| - 1], i)
  }

  method ReassembleCryptoData(frames: seq<CryptoFrame>) returns (data: seq<Byte>)
    requires forall f | f in frames :: f.offset < 0x1_0000_0000_0000_0000 && |f.data| < 0x8000_0000_0000_0000
    ensures |data| == Min(MaxEnd(frames), 16384)
    ensures forall i: nat | i < |data| :: data[i] == LastByte(frames, i)
  {
    if |frames| == 0 {
      return [];
    }
    var maxEnd := 0;
    var j := 0;
    while j < |frames|
      invariant 0 <= j <= |frames|
      invariant MaxEnd(frames) == Max(maxEnd, MaxEnd(frames[j..]))
    {
      assert frames[j..][1..] == frames[j + 1..];
      var end := WrappedEnd(frames[j]);
      if end > maxEnd {
        maxEnd := end;
      }
      j := j + 1;
    }
    if maxEnd > BATCH_LIMIT {
      maxEnd := BATCH_LIMIT;
    }
    var buffer := new Byte[maxEnd](_ => 0);
    j := 0;
    while j < |frames|
      invariant 0 <= j <= |frames|
      invariant forall i: nat | i < maxEnd :: buffer[i] == LastByte(frames[..j], i)
    {
      var f := frames[j];
      assert frames[..j + 1][..j] == frames[..j];
      if f.offset < maxEnd {
        var copyLen := |f.data|;
        if f.offset + copyLen > maxEnd {
          copyLen := maxEnd - f.offset;
        }
        forall i | f.offset <= i < f.offset + copyLen {
          buffer[i] := f.data[i - f.offset];
        }
      }
      j := j + 1;
    }
    assert frames[..|frames|] == frames;
    data := buffer[..];
  }
}
