/** The frames a client may put in an Initial packet, their encoder, and the scan that undoes it. */
module FrameCodec {
  import opened Bytes
  import opened QuicVarInt
  import opened FrameScan

  /** One further ACK range, section 19.3.1 of RFC 9000. */
  datatype AckRange = AckRange(gap: VarInt, length: VarInt)

  /** The ECN counts of an ACK frame of type 0x03, section 19.3.2 of RFC 9000. */
  datatype EcnCounts = EcnCounts(ect0: VarInt, ect1: VarInt, ce: VarInt)

  datatype Frame =
    | Padding
    | Ping
    | Ack(largest: VarInt, delay: VarInt, countWidth: nat, first: VarInt, ranges: seq<AckRange>, ecn: Option<EcnCounts>)
    | Crypto(offset: VarInt, lengthWidth: nat, data: seq<Byte>)
  {
    predicate Valid() {
      match this
      case Padding => true
      case Ping => true
      case Ack(largest, delay, w, first, ranges, ecn) =>
        && AllValid([largest, delay]) && VarInt(|ranges|, w).Valid() && AllValid([first])
        && AllValid(RangeFields(ranges)) && (ecn.Some? ==> AllValid(EcnFields(ecn.value)))
      case Crypto(offset, w, data) => offset.Valid() && VarInt(|data|, w).Valid()
    }

    function Encode(): (bs: seq<Byte>)
      requires Valid()
      ensures |bs| > 0
    {
      match this
      case Padding => [0]
      case Ping => [1]
      case Ack(largest, delay, w, first, ranges, ecn) =>
        [if ecn.Some? then 3 else 2]
        + (EncodeAll([largest, delay])
           + (VarInt(|ranges|, w).Encode()
              + (EncodeAll([first])
                 + (EncodeAll(RangeFields(ranges))
                    + (if ecn.Some? then EncodeAll(EcnFields(ecn.value)) else [])))))
      case Crypto(offset, w, data) =>
        [6] + (offset.Encode() + (VarInt(|data|, w).Encode() + data))
    }
  }

  function RangeFields(ranges: seq<AckRange>): (vs: seq<VarInt>)
    ensures |vs| == 2 * |ranges|
  {
    if ranges == [] then [] else [ranges[0].gap, ranges[0].length] + RangeFields(ranges[1..])
  }

  function EcnFields(ecn: EcnCounts): seq<VarInt> {
    [ecn.ect0, ecn.ect1, ecn.ce]
  }

  predicate AllValid(vs: seq<VarInt>) {
    forall v | v in vs :: v.Valid()
  }

  function EncodeAll(vs: seq<VarInt>): seq<Byte>
    requires AllValid(vs)
  {
    if vs == [] then [] else vs[0].Encode() + EncodeAll(vs[1..])
  }

  predicate AllFramesValid(fs: seq<Frame>) {
    forall f | f in fs :: f.Valid()
  }

  /** A whole decrypted Initial payload. */
  function EncodeFrames(fs: seq<Frame>): seq<Byte>
    requires AllFramesValid(fs)
  {
    if fs == [] then [] else fs[0].Encode() + EncodeFrames(fs[1..])
  }

  /** What the proxy wants from a payload: its CRYPTO frames, in order. */
  function CryptoOf(fs: seq<Frame>): seq<CryptoFrame> {
    if fs == [] then []
    else (if fs[0].Crypto? then [CryptoFrame(fs[0].offset.value, fs[0].data)] else []) + CryptoOf(fs[1..])
  }

  // ---------------------------------------------------------------------------------------
  // Integers found at an offset
  // ---------------------------------------------------------------------------------------

  lemma ReadAt(data: seq<Byte>, at: nat, v: VarInt)
    requires v.Valid() && At(data, at, v.Encode())
    ensures ReadVarInt(data[at..]) == Some(Reading(v.value, v.width))
  {
    ReadUndoesEncode(v, data[at + v.width..]);
    assert data[at..] == v.Encode() + data[at + v.width..];
  }

  lemma ReadTypeAt(data: seq<Byte>, at: nat, t: Byte)
    requires t < 0x40 && At(data, at, [t])
    ensures ReadVarInt(data[at..]) == Some(Reading(t, 1))
  {
    ReadAt(data, at, VarInt(t, 1));
  }

  lemma {:induction false} SkipAt(data: seq<Byte>, at: nat, vs: seq<VarInt>)
    requires AllValid(vs) && At(data, at, EncodeAll(vs))
    ensures SkipVarInts(data, at, |vs|) == Some(at + |EncodeAll(vs)|)
    decreases |vs|
  {
    hide ReadVarInt, VarInt.Encode, At;
    if vs != [] {
      AtSplit(data, at, vs[0].Encode(), EncodeAll(vs[1..]));
      ReadAt(data, at, vs[0]);
      SkipAt(data, at + vs[0].width, vs[1..]);
    }
  }

  // ---------------------------------------------------------------------------------------
  // One frame
  // ---------------------------------------------------------------------------------------

  lemma SkipAckAt(data: seq<Byte>, at: nat, f: Frame)
    requires f.Valid() && f.Ack? && At(data, at, f.Encode())
    ensures at < |data|
    ensures SkipAck(data, at + 1, f.ecn.Some?) == Some(at + |f.Encode()|)
  {
    hide ReadVarInt, SkipVarInts, EncodeAll, RangeFields, VarInt.Encode, At;
    var e6 := if f.ecn.Some? then EncodeAll(EcnFields(f.ecn.value)) else [];
    var e5 := EncodeAll(RangeFields(f.ranges));
    var e4 := EncodeAll([f.first]);
    var count := VarInt(|f.ranges|, f.countWidth);
    var e3 := count.Encode();
    var e2 := EncodeAll([f.largest, f.delay]);
    var t: seq<Byte> := [if f.ecn.Some? then 3 else 2];
    AtSplit(data, at, t, e2 + (e3 + (e4 + (e5 + e6))));
    var a2 := at + 1;
    AtSplit(data, a2, e2, e3 + (e4 + (e5 + e6)));
    var a3 := a2 + |e2|;
    AtSplit(data, a3, e3, e4 + (e5 + e6));
    var a4 := a3 + |e3|;
    AtSplit(data, a4, e4, e5 + e6);
    var a5 := a4 + |e4|;
    AtSplit(data, a5, e5, e6);
    SkipAt(data, a2, [f.largest, f.delay]);
    ReadAt(data, a3, count);
    SkipAt(data, a4, [f.first]);
    SkipAt(data, a5, RangeFields(f.ranges));
    if f.ecn.Some? {
      SkipAt(data, a5 + |e5|, EcnFields(f.ecn.value));
    }
  }

  lemma ScanCryptoAt(data: seq<Byte>, at: nat, f: Frame)
    requires f.Valid() && f.Crypto? && At(data, at, f.Encode())
    ensures at < |data|
    ensures var t := ScanCrypto(data, at + 1);
            && t.piece.Some? && t.piece.value.InBounds(data)
            && t.piece.value.Frame(data) == CryptoFrame(f.offset.value, f.data)
            && t.next == at + |f.Encode()|
  {
    hide ReadVarInt, VarInt.Encode;
    var length := VarInt(|f.data|, f.lengthWidth);
    AtSplit(data, at, [6], f.offset.Encode() + (length.Encode() + f.data));
    AtSplit(data, at + 1, f.offset.Encode(), length.Encode() + f.data);
    AtSplit(data, at + 1 + f.offset.width, length.Encode(), f.data);
    ReadAt(data, at + 1, f.offset);
    ReadAt(data, at + 1 + f.offset.width, length);
  }

  function TypeOf(f: Frame): Byte {
    match f
    case Padding => 0
    case Ping => 1
    case Ack(_, _, _, _, _, ecn) => if ecn.Some? then 3 else 2
    case Crypto(_, _, _) => 6
  }

  lemma FrameTypeAt(data: seq<Byte>, at: nat, f: Frame)
    requires f.Valid() && At(data, at, f.Encode())
    ensures ReadVarInt(data[at..]) == Some(Reading(TypeOf(f), 1)) && at < |data|
    ensures f.Ping? ==> |f.Encode()| == 1
  {
    hide ReadVarInt, EncodeAll, VarInt.Encode, VarInt.Valid, At;
    var t := TypeOf(f);
    assert f.Encode() == [t] + f.Encode()[1..];
    AtSplit(data, at, [t], f.Encode()[1..]);
    ByteAt(data, at, t);
    ReadTypeAt(data, at, t);
  }

  /** Anything but PADDING is read on its own. */
  lemma ScanFrameAt(data: seq<Byte>, at: nat, f: Frame)
    requires f.Valid() && !f.Padding? && At(data, at, f.Encode())
    ensures var t := ScanFrame(data, at);
            && t.Go? && t.next == at + |f.Encode()|
            && if f.Crypto? then
                 t.piece.Some? && t.piece.value.Frame(data) == CryptoFrame(f.offset.value, f.data)
               else t.piece.None?
  {
    hide ReadVarInt, SkipAck, SkipZeros, ScanCrypto, Frame.Encode, Frame.Valid, At;
    FrameTypeAt(data, at, f);
    match f {
      case Ping =>
      case Ack(_, _, _, _, _, _) => SkipAckAt(data, at, f);
      case Crypto(_, _, _) => ScanCryptoAt(data, at, f);
    }
  }

  /** The scan swallows a run of zeros at once; one zero less changes nothing it finds. */
  lemma PaddingAt(data: seq<Byte>, at: nat)
    requires At(data, at, Padding.Encode())
    ensures |Padding.Encode()| == 1 && at < |data|
    ensures FramesFrom(data, at) == FramesFrom(data, at + 1)
  {
    hide ReadVarInt, SkipAck, ScanCrypto;
    ReadTypeAt(data, at, 0);
    if at + 1 < |data| && data[at + 1] == 0 {
      ReadTypeAt(data, at + 1, 0);
    } else {
      assert SkipZeros(data, at + 1) == at + 1;
    }
  }

  // ---------------------------------------------------------------------------------------
  // Whole payloads
  // ---------------------------------------------------------------------------------------

  lemma NothingLeft(data: seq<Byte>)
    ensures FramesFrom(data, |data|) == []
  {}

  /** Well-formed frames are read wherever they stand, and the scan goes on behind them. */
  lemma {:induction false} FramesOfEncoded(data: seq<Byte>, at: nat, fs: seq<Frame>)
    requires AllFramesValid(fs) && At(data, at, EncodeFrames(fs))
    ensures at + |EncodeFrames(fs)| <= |data|
    ensures FramesFrom(data, at) == CryptoOf(fs) + FramesFrom(data, at + |EncodeFrames(fs)|)
    decreases |fs|
  {
    hide ScanFrame, Frame.Encode, Frame.Valid, At;
    AtBound(data, at, EncodeFrames(fs));
    if fs != [] {
      var f := fs[0];
      AtSplit(data, at, f.Encode(), EncodeFrames(fs[1..]));
      FramesOfEncoded(data, at + |f.Encode()|, fs[1..]);
      if f.Padding? {
        PaddingAt(data, at);
      } else {
        ScanFrameAt(data, at, f);
      }
    }
  }

  /** The extractor undoes the encoder, at every choice of field widths. */
  lemma ExtractUndoesEncode(fs: seq<Frame>)
    requires AllFramesValid(fs)
    ensures FramesFrom(EncodeFrames(fs), 0) == CryptoOf(fs)
  {
    hide EncodeFrames, AllFramesValid, FramesFrom;
    var data := EncodeFrames(fs);
    AtPrefix(data, data);
    FramesOfEncoded(data, 0, fs);
    NothingLeft(data);
  }

  /** What ends the scan early: a type that cannot be read, one other than PADDING, PING, ACK and CRYPTO, or an ACK frame that
      is cut off. */
  predicate EndsScan(data: seq<Byte>, at: nat)
    requires at <= |data|
  {
    var t := ReadVarInt(data[at..]);
    t.None? || t.value.value !in {0, 1, 2, 3, 6}
    || (t.value.value in {2, 3} && SkipAck(data, at + t.value.size, t.value.value == 3).None?)
  }

  /** The scan stops exactly there. */
  lemma ScanStopsExactlyWhen(data: seq<Byte>, at: nat)
    requires at <= |data|
    ensures ScanFrame(data, at).Stop? <==> EndsScan(data, at)
  {
    hide ReadVarInt, SkipAck, ScanCrypto, SkipZeros;
  }

  /** Of well-formed frames and anything that ends the scan behind them, the well-formed frames are extracted. */
  lemma NothingBehindTheEnd(fs: seq<Frame>, rest: seq<Byte>)
    requires AllFramesValid(fs) && EndsScan(EncodeFrames(fs) + rest, |EncodeFrames(fs)|)
    ensures FramesFrom(EncodeFrames(fs) + rest, 0) == CryptoOf(fs)
  {
    hide EncodeFrames, AllFramesValid, EndsScan, ScanFrame;
    var data := EncodeFrames(fs) + rest;
    AtPrefix(data, EncodeFrames(fs));
    FramesOfEncoded(data, 0, fs);
    ScanStopsExactlyWhen(data, |EncodeFrames(fs)|);
  }

  /** On any input, well formed or not, the frames are disjoint slices of it in increasing order. */
  lemma {:induction false} FramesAreDisjointSlices(data: seq<Byte>, at: nat)
    requires at <= |data|
    ensures var ps, fs := PiecesFrom(data, at), FramesFrom(data, at);
            && |ps| == |fs|
            && (forall i | 0 <= i < |ps| :: at < ps[i].start && ps[i].InBounds(data) && fs[i] == ps[i].Frame(data))
            && (forall i, j | 0 <= i < j < |ps| :: ps[i].start + ps[i].len < ps[j].start)
    decreases |data| - at
  {
    hide ScanFrame;
    var t := ScanFrame(data, at);
    if t.Go? {
      FramesAreDisjointSlices(data, t.next);
    }
  }

  // ---------------------------------------------------------------------------------------
  // CRYPTO frames that are cut off
  // ---------------------------------------------------------------------------------------

  /** A CRYPTO frame starts at `at`, and its fields or its bytes run past the end of the payload. */
  predicate CutOff(data: seq<Byte>, at: nat)
    requires at <= |data|
  {
    var t := ReadVarInt(data[at..]);
    t.Some? && t.value.value == 6 && !WholeCrypto(data[at + t.value.size..])
  }

  /** Both fields of a CRYPTO frame and as many bytes as it announces. */
  predicate WholeCrypto(body: seq<Byte>) {
    var off := ReadVarInt(body);
    off.Some? &&
    var len := ReadVarInt(body[off.value.size..]);
    len.Some? && off.value.size + len.value.size + len.value.value <= |body|
  }

  /** The scan that ends at the first CRYPTO frame that is cut off. */
  function StrictFrom(data: seq<Byte>, at: nat): seq<CryptoFrame>
    requires at <= |data|
    decreases |data| - at
  {
    if CutOff(data, at) then []
    else
      match ScanFrame(data, at)
      case Stop => []
      case Go(piece, next) => (if piece.Some? then [piece.value.Frame(data)] else []) + StrictFrom(data, next)
  }

  /** Where the proxy goes on behind the first CRYPTO frame that is cut off. */
  function ResumesAt(data: seq<Byte>, at: nat): (r: Option<nat>)
    requires at <= |data|
    ensures r.Some? ==> at < r.value <= |data|
    decreases |data| - at
  {
    match ScanFrame(data, at)
    case Stop => None
    case Go(_, next) => if CutOff(data, at) then Some(next) else ResumesAt(data, next)
  }

  /** A CRYPTO frame yields something exactly when it is whole, and one that is cut off never stops the scan. */
  lemma CutOffIsDropped(data: seq<Byte>, at: nat)
    requires at <= |data|
    ensures var t := ReadVarInt(data[at..]);
            t.Some? && t.value.value == 6 ==>
              ScanFrame(data, at).Go? && (ScanFrame(data, at).piece.None? <==> CutOff(data, at))
  {
    hide ReadVarInt;
    var t := ReadVarInt(data[at..]);
    if t.Some? && t.value.value == 6 {
      var body := at + t.value.size;
      assert data[at..][t.value.size..] == data[body..];
      var off := ReadVarInt(data[body..]);
      if off.Some? {
        assert data[body..][off.value.size..] == data[body + off.value.size..];
      }
    }
  }

  /** The scan finds the frames in front of the first one that is cut off, and then whatever it reads
      out of the bytes of that frame. */
  lemma {:induction false} ScanGoesOnInsideCutOffFrame(data: seq<Byte>, at: nat)
    requires at <= |data|
    ensures FramesFrom(data, at) ==
            StrictFrom(data, at) + match ResumesAt(data, at)
                                   case None => []
                                   case Some(n) => FramesFrom(data, n)
    decreases |data| - at
  {
    hide ReadVarInt, ScanFrame, CutOff;
    CutOffGoesOn(data, at);
    var t := ScanFrame(data, at);
    if t.Go? && !CutOff(data, at) {
      ScanGoesOnInsideCutOffFrame(data, t.next);
    }
  }

  lemma CutOffGoesOn(data: seq<Byte>, at: nat)
    requires at <= |data|
    ensures CutOff(data, at) ==> ScanFrame(data, at).Go? && ScanFrame(data, at).piece.None?
  {
    hide ReadVarInt, ScanFrame, WholeCrypto;
    CutOffIsDropped(data, at);
  }

  /** The proxy reports only frames that the client sent whole, exactly when no CRYPTO frame is cut off
      or nothing behind the fields of the first such frame reads as a whole one. */
  lemma CutOffFramesAddNothingExactlyWhen(data: seq<Byte>, at: nat)
    requires at <= |data|
    ensures FramesFrom(data, at) == StrictFrom(data, at)
       <==> ResumesAt(data, at).None? || PiecesFrom(data, ResumesAt(data, at).value) == []
  {
    hide ScanFrame, CutOff;
    ScanGoesOnInsideCutOffFrame(data, at);
    var n := ResumesAt(data, at);
    if n.Some? {
      FramesAreDisjointSlices(data, n.value);
    }
  }

  lemma Unfold(data: seq<Byte>, at: nat)
    requires at <= |data|
    ensures FramesFrom(data, at) == match ScanFrame(data, at)
                                    case Stop => []
                                    case Go(piece, next) =>
                                      (if piece.Some? then [piece.value.Frame(data)] else []) + FramesFrom(data, next)
  {
    hide ScanFrame;
  }

  lemma SmallInteger(data: seq<Byte>, at: nat)
    requires at < |data| && data[at] < 64
    ensures ReadVarInt(data[at..]) == Some(Reading(data[at], 1))
  {
    assert data[at..][0] == data[at];
  }

  /** A payload that is a single CRYPTO frame, cut off, out of whose bytes another frame is read. */
  lemma FrameOutOfCutOffFrame()
    ensures var data := [6, 0, 63, 6, 0, 1, 97];
            CutOff(data, 0) && StrictFrom(data, 0) == [] && FramesFrom(data, 0) == [CryptoFrame(0, [97])]
  {
    hide FramesFrom;
    var data: seq<Byte> := [6, 0, 63, 6, 0, 1, 97];
    SmallInteger(data, 0);
    SmallInteger(data, 1);
    SmallInteger(data, 2);
    SmallInteger(data, 3);
    SmallInteger(data, 4);
    SmallInteger(data, 5);
    assert data[0..][1..] == data[1..] && data[1..][1..] == data[2..];
    hide ReadVarInt;
    assert ScanFrame(data, 0) == Go(None, 3);
    assert data[6..7] == [97];
    assert ScanFrame(data, 3) == Go(Some(Piece(0, 6, 1)), 7);
    Unfold(data, 0);
    Unfold(data, 3);
    NothingLeft(data);
  }
}
