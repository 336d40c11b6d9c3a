/** From a datagram to CRYPTO frames: the walk over the header of an Initial packet (section 17.2.2 of RFC 9000),
    the decryption of what it finds, and the sender's side that both undo. */
module InitialPacket {
  import opened Bytes
  import opened QuicVarInt
  import opened FrameScan
  import opened FrameCodec
  import opened HeaderProtection
  import Routing

  /** Where the walk ends: at the payload, with an error, or beyond the end of the packet, where the program
      panics. */
  datatype Walk = Located(dcid: seq<Byte>, start: nat, len: nat) | Refused | OutOfRange

  function WalkHeader(packet: seq<Byte>): (r: Walk)
    ensures r.Located? ==> 0 < r.start && r.start + r.len <= |packet|
  {
    if |packet| < 5 || Routing.ClassifyPacket(packet) != Routing.Initial || packet[1..5] != [0, 0, 0, 1] then Refused
    else if |packet| == 5 then Refused
    else
      var dcidEnd := 6 + packet[5] as int;
      if dcidEnd >= |packet| then Refused
      else
        var scidEnd := dcidEnd + 1 + packet[dcidEnd] as int;
        if scidEnd > |packet| then OutOfRange else
        var tokenLength := ReadVarInt(packet[scidEnd..]);
        if tokenLength.None? then Refused else
        var tokenEnd := scidEnd + tokenLength.value.size + tokenLength.value.value;
        if tokenEnd > |packet| then OutOfRange else
        var length := ReadVarInt(packet[tokenEnd..]);
        if length.None? then Refused else
        var start := tokenEnd + length.value.size;
        if start + length.value.value > |packet| then Refused
        else Located(packet[6..dcidEnd], start, length.value.value)
  }

  // ---------------------------------------------------------------------------------------
  // The layout
  // ---------------------------------------------------------------------------------------

  datatype InitialHeader = InitialHeader(
    first: Byte, dcid: seq<Byte>, scid: seq<Byte>, tokenLength: VarInt, token: seq<Byte>, length: VarInt)
  {
    predicate Valid() {
      && first >= 0x80 && first / 16 % 4 == 0
      && |dcid| < 0x100 && |scid| < 0x100
      && tokenLength.Valid() && tokenLength.value == |token|
      && length.Valid()
    }

    /** Everything in front of the packet number. */
    function Encode(): (bs: seq<Byte>)
      requires Valid()
      ensures |bs| > 0 && bs[0] == first
    {
      [first] + Tail()
    }

    /** All but the first byte. */
    function Tail(): seq<Byte>
      requires Valid()
    {
      [0, 0, 0, 1] + ([|dcid| as Byte] + (dcid + ([|scid| as Byte] +
        (scid + (tokenLength.Encode() + (token + length.Encode()))))))
    }
  }

  /** The fields up to the source connection id. */
  lemma IdsAt(data: seq<Byte>, h: InitialHeader)
    requires h.Valid() && At(data, 0, h.Encode())
    ensures var dcidEnd := 6 + |h.dcid|;
            var scidEnd := dcidEnd + 1 + |h.scid|;
            && scidEnd <= |data| && data[0] == h.first && data[1..5] == [0, 0, 0, 1] && data[5] == |h.dcid|
            && data[6..dcidEnd] == h.dcid && data[dcidEnd] == |h.scid|
            && At(data, scidEnd, h.tokenLength.Encode() + (h.token + h.length.Encode()))
  {
    hide At, VarInt.Encode, VarInt.Valid;
    var rest := h.tokenLength.Encode() + (h.token + h.length.Encode());
    AtSplit(data, 0, [h.first], h.Tail());
    ByteAt(data, 0, h.first);
    AtSplit(data, 1, [0, 0, 0, 1], [|h.dcid| as Byte] + (h.dcid + ([|h.scid| as Byte] + (h.scid + rest))));
    AtBound(data, 1, [0, 0, 0, 1]);
    AtSplit(data, 5, [|h.dcid| as Byte], h.dcid + ([|h.scid| as Byte] + (h.scid + rest)));
    ByteAt(data, 5, |h.dcid|);
    AtSplit(data, 6, h.dcid, [|h.scid| as Byte] + (h.scid + rest));
    AtBound(data, 6, h.dcid);
    AtSplit(data, 6 + |h.dcid|, [|h.scid| as Byte], h.scid + rest);
    ByteAt(data, 6 + |h.dcid|, |h.scid|);
    AtSplit(data, 7 + |h.dcid|, h.scid, rest);
    AtBound(data, 7 + |h.dcid|, h.scid);
  }

  /** The walk finds the connection id and the payload of every packet laid out so, whatever follows. */
  lemma WalkUndoesEncode(h: InitialHeader, payload: seq<Byte>, rest: seq<Byte>)
    requires h.Valid() && h.length.value == |payload|
    ensures WalkHeader(h.Encode() + payload + rest) == Located(h.dcid, |h.Encode()|, |payload|)
  {
    hide At, VarInt.Encode, VarInt.Valid, ReadVarInt;
    var data := h.Encode() + payload + rest;
    assert data == h.Encode() + (payload + rest);
    AtPrefix(data, h.Encode());
    IdsAt(data, h);
    var scidEnd := 7 + |h.dcid| + |h.scid|;
    AtSplit(data, scidEnd, h.tokenLength.Encode(), h.token + h.length.Encode());
    ReadAt(data, scidEnd, h.tokenLength);
    AtSplit(data, scidEnd + |h.tokenLength.Encode()|, h.token, h.length.Encode());
    var tokenEnd := scidEnd + |h.tokenLength.Encode()| + |h.token|;
    ReadAt(data, tokenEnd, h.length);
    AtBound(data, tokenEnd, h.length.Encode());
  }

  /** And only of such packets: whatever it locates is laid out so. */
  lemma WalkFindsOnlyLayouts(packet: seq<Byte>) returns (h: InitialHeader)
    requires WalkHeader(packet).Located?
    ensures var w := WalkHeader(packet);
            && h.Valid() && h.dcid == w.dcid && h.length.value == w.len
            && packet == h.Encode() + packet[w.start..w.start + w.len] + packet[w.start + w.len..]
  {
    hide ReadVarInt, VarInt.Encode, VarInt.Valid;
    var w := WalkHeader(packet);
    var dcidEnd := 6 + packet[5] as int;
    var scidEnd := dcidEnd + 1 + packet[dcidEnd] as int;
    var tokenLength := ReadVarInt(packet[scidEnd..]).value;
    var tokenStart := scidEnd + tokenLength.size;
    var tokenEnd := tokenStart + tokenLength.value;
    var length := ReadVarInt(packet[tokenEnd..]).value;
    EncodeUndoesRead(packet[scidEnd..]);
    EncodeUndoesRead(packet[tokenEnd..]);
    h := InitialHeader(packet[0], packet[6..dcidEnd], packet[dcidEnd + 1..scidEnd],
                       VarInt(tokenLength.value, tokenLength.size), packet[tokenStart..tokenEnd], VarInt(length.value, length.size));
    InitialByType(packet);
    assert h.tokenLength.Encode() == packet[scidEnd..tokenStart];
    assert h.length.Encode() == packet[tokenEnd..w.start];
    HeaderOfParts(packet, h, dcidEnd, scidEnd, tokenStart, tokenEnd, w.start);
  }

  lemma InitialByType(packet: seq<Byte>)
    requires Routing.ClassifyPacket(packet) == Routing.Initial
    ensures |packet| > 0 && packet[0] >= 0x80 && packet[0] / 16 % 4 == 0
  {}

  lemma HeaderOfParts(packet: seq<Byte>, h: InitialHeader, dcidEnd: nat, scidEnd: nat, tokenStart: nat, tokenEnd: nat, start: nat)
    requires h.Valid() && 6 <= dcidEnd < scidEnd <= tokenStart <= tokenEnd <= start <= |packet|
    requires packet[0] == h.first && packet[1..5] == [0, 0, 0, 1] && packet[5] == |h.dcid| && packet[6..dcidEnd] == h.dcid
    requires packet[dcidEnd] == |h.scid| && packet[dcidEnd + 1..scidEnd] == h.scid
    requires packet[scidEnd..tokenStart] == h.tokenLength.Encode() && packet[tokenStart..tokenEnd] == h.token
    requires packet[tokenEnd..start] == h.length.Encode()
    ensures packet[..start] == h.Encode()
  {
    hide VarInt.Encode, VarInt.Valid;
    assert packet[..start] == [packet[0]] + (packet[1..5] + ([packet[5]] + (packet[6..dcidEnd] + ([packet[dcidEnd]] +
      (packet[dcidEnd + 1..scidEnd] + (packet[scidEnd..tokenStart] + (packet[tokenStart..tokenEnd] + packet[tokenEnd..start])))))));
  }

  /** The connection ids and the token, as far as their lengths can be read, end within the packet. */
  predicate FieldsFit(packet: seq<Byte>)
    requires |packet| > 5
  {
    var dcidEnd := 6 + packet[5] as int;
    dcidEnd < |packet| ==>
      var scidEnd := dcidEnd + 1 + packet[dcidEnd] as int;
      && scidEnd <= |packet|
      && var tokenLength := ReadVarInt(packet[scidEnd..]);
         tokenLength.Some? ==> scidEnd + tokenLength.value.size + tokenLength.value.value <= |packet|
  }

  /** The walk stays within the packet exactly when it is no version 1 Initial or its fields fit. */
  lemma WalkStaysInRangeExactlyWhen(packet: seq<Byte>)
    ensures !WalkHeader(packet).OutOfRange? <==>
            |packet| <= 5 || Routing.ClassifyPacket(packet) != Routing.Initial || packet[1..5] != [0, 0, 0, 1]
            || FieldsFit(packet)
  {
    hide ReadVarInt;
  }

  /** The two ways out of range: a source connection id and a token that are longer than what is left. */
  lemma WalkOutOfRange()
    ensures WalkHeader([0xc0, 0, 0, 0, 1, 0, 255]) == OutOfRange
    ensures WalkHeader([0xc0, 0, 0, 0, 1, 0, 0, 63]) == OutOfRange
  {
    var p: seq<Byte> := [0xc0, 0, 0, 0, 1, 0, 255];
    assert p[1..5] == [0, 0, 0, 1];
    var q: seq<Byte> := [0xc0, 0, 0, 0, 1, 0, 0, 63];
    assert q[1..5] == [0, 0, 0, 1] && q[7..][0] == 63;
  }

  // ---------------------------------------------------------------------------------------
  // Bytes and octets
  // ---------------------------------------------------------------------------------------

  function ToByte(o: bv8): Byte { o as int }

  /** The same bytes, as the parsers see them. */
  function ToBytes(os: Octets): (bs: seq<Byte>)
    ensures |bs| == |os|
  {
    seq(|os|, i requires 0 <= i < |os| => ToByte(os[i]))
  }

  lemma ToBytesConcat(a: Octets, b: Octets)
    ensures ToBytes(a + b) == ToBytes(a) + ToBytes(b)
  {
    hide ToByte;
  }

  // ---------------------------------------------------------------------------------------
  // From the datagram to the frames
  // ---------------------------------------------------------------------------------------

  /** What is derived from a connection id. */
  datatype Keys = Keys(hp: Cipher, open: Opener, iv: Octets) {
    ghost predicate Valid() {
      MakesMasks(hp) && |iv| == IV_SIZE
    }
  }

  datatype Extraction = Frames(frames: seq<CryptoFrame>) | Error | Panic

  ghost predicate Derives(derive: seq<Byte> -> Keys) {
    forall dcid :: derive(dcid).Valid()
  }

  ghost function ExtractFromPacket(packet: Octets, derive: seq<Byte> -> Keys): Extraction
    requires Derives(derive)
  {
    match WalkHeader(ToBytes(packet))
    case OutOfRange => Panic
    case Refused => Error
    case Located(dcid, start, len) =>
      var keys := derive(dcid);
      match Opened(packet, packet[start..start + len], start, keys.hp, keys.open, keys.iv)
      case None => Error
      case Some(text) => Frames(FramesFrom(ToBytes(text), 0))
  }

  /** When there are no frames: the walk leaves the packet, or it refuses the packet, or nothing opens. */
  lemma NoFramesExactlyWhen(packet: Octets, derive: seq<Byte> -> Keys)
    requires Derives(derive)
    ensures ExtractFromPacket(packet, derive).Panic? <==> WalkHeader(ToBytes(packet)).OutOfRange?
    ensures WalkHeader(ToBytes(packet)).Refused? ==> ExtractFromPacket(packet, derive).Error?
    ensures var w := WalkHeader(ToBytes(packet));
            w.Located? && w.len < 20 ==> ExtractFromPacket(packet, derive).Error?
  {
    hide WalkHeader, FramesFrom, ToBytes;
  }

  /** Header protection leaves the packet's type alone. */
  lemma TypeIsNotMasked(first: bv8, mask: bv8)
    requires ToByte(first) >= 0x80 && ToByte(first) / 16 % 4 == 0
    ensures var sent := ToByte(XorFirst(first, mask)); sent >= 0x80 && sent / 16 % 4 == 0
  {
    hide ToByte, XorFirst;
    TypeBits(first);
    TypeBitsAreKept(first, mask);
    TypeBits(XorFirst(first, mask));
  }

  lemma TypeBits(b: bv8)
    ensures ToByte(b) >= 0x80 && ToByte(b) / 16 % 4 == 0 <==> b & 0xb0 == 0x80
  {}

  lemma TypeBitsAreKept(first: bv8, mask: bv8)
    requires first & 0xb0 == 0x80
    ensures XorFirst(first, mask) & 0xb0 == 0x80
  {}

  /** A protected Initial packet still is laid out as its header says, but for the first byte. */
  lemma ProtectedLayout(h: InitialHeader, front: Octets, n: nat, pn: bv64, body: Octets, rest: Octets, hp: Cipher)
    requires h.Valid() && ToBytes(front) == h.Encode() && MakesMasks(hp) && n <= 4
    requires n + |body| == h.length.value >= SAMPLE_OFFSET + SAMPLE_SIZE
    ensures var sent := Sent(front, n, pn, body, rest, hp);
            var end := |front| + h.length.value;
            && end <= |sent| && |sent| > 0
            && var h' := h.(first := ToByte(sent[0]));
               h'.Valid() && ToBytes(sent) == h'.Encode() + ToBytes(sent[|front|..end]) + ToBytes(sent[end..])
  {
    hide PnBytes, ToByte, ToBytes, Masked, InitialHeader.Encode, InitialHeader.Valid;
    var at := |front|;
    var clear := Header(front, n, pn) + body + rest;
    var mask := hp(SampleOf(clear, at));
    assert clear[0] == front[0] && clear[..at] == front;
    FrontIsKept(front, clear, at, n, mask);
    FrontBytes(h, front, mask[0], Sent(front, n, pn, body, rest, hp));
    ThreeParts(Sent(front, n, pn, body, rest, hp), at, at + h.length.value);
  }

  lemma FrontBytes(h: InitialHeader, front: Octets, mask: bv8, sent: Octets)
    requires h.Valid() && ToBytes(front) == h.Encode() && |front| <= |sent|
    requires sent[0] == XorFirst(front[0], mask) && sent[1..|front|] == front[1..]
    ensures var h' := h.(first := ToByte(sent[0]));
            h'.Valid() && ToBytes(sent[..|front|]) == h'.Encode()
  {
    hide ToByte, XorFirst;
    assert ToBytes(front)[0] == h.first;
    TypeIsNotMasked(front[0], mask);
    var h' := h.(first := ToByte(sent[0]));
    assert h'.Tail() == h.Tail() == h.Encode()[1..];
    assert sent[..|front|] == [sent[0]] + front[1..];
    assert front == [front[0]] + front[1..];
    ToBytesConcat([sent[0]], front[1..]);
    ToBytesConcat([front[0]], front[1..]);
    assert ToBytes(front)[1..] == ToBytes(front[1..]);
  }

  lemma ThreeParts(os: Octets, at: nat, end: nat)
    requires at <= end <= |os|
    ensures ToBytes(os) == ToBytes(os[..at]) + ToBytes(os[at..end]) + ToBytes(os[end..])
  {
    hide ToBytes;
    assert os == os[..at] + os[at..end] + os[end..];
    ToBytesConcat(os[..at] + os[at..end], os[end..]);
    ToBytesConcat(os[..at], os[at..end]);
  }

  lemma FrontIsKept(front: Octets, clear: Octets, at: nat, n: nat, mask: Octets)
    requires 0 < at == |front| && at + n <= |clear| && n <= 4 && |mask| == MASK_SIZE && clear[..at] == front
    ensures var sent := Masked(clear, at, n, mask);
            sent[0] == XorFirst(front[0], mask[0]) && sent[1..at] == front[1..]
  {
    hide XorFirst, Xor;
    var sent := Masked(clear, at, n, mask);
    forall i | 1 <= i < at ensures sent[i] == front[i] {
      assert clear[i] == clear[..at][i];
    }
    assert clear[0] == clear[..at][0];
  }

  lemma AnnouncedByFirst(o: bv8, n: nat)
    requires 1 <= n <= 4 && ToByte(o) % 4 == n - 1
    ensures Announces(o, n)
  {}

  /** From the datagram on: of an Initial packet built, sealed and protected from any frames the proxy extracts exactly
      their CRYPTO frames, whatever the layout, the packet number, the field widths and the packets behind it, provided
      the packet number fits the `n` bytes sent, which the header announces. */
  lemma SentPacketIsExtracted(h: InitialHeader, front: Octets, n: nat, pn: bv64, fs: seq<Frame>, text: Octets, rest: Octets,
                              derive: seq<Byte> -> Keys, seal: Sealer)
    requires h.Valid() && ToBytes(front) == h.Encode() && 1 <= n <= 4 && h.first % 4 == n - 1
    requires AllFramesValid(fs) && ToBytes(text) == EncodeFrames(fs)
    requires Derives(derive) && forall nonce, t, aad :: derive(h.dcid).open(nonce, seal(nonce, t, aad), aad) == Some(t)
    requires Fits(pn, n)
    requires var body := seal(Nonce(derive(h.dcid).iv, pn), text, Header(front, n, pn));
             n + |body| == h.length.value >= SAMPLE_OFFSET + SAMPLE_SIZE
    ensures var body := seal(Nonce(derive(h.dcid).iv, pn), text, Header(front, n, pn));
            ExtractFromPacket(Sent(front, n, pn, body, rest, derive(h.dcid).hp), derive) == Frames(CryptoOf(fs))
  {
    hide WalkHeader, Opened, Sent, Header, Nonce, Fits, FramesFrom, InitialHeader.Encode, InitialHeader.Valid,
         InitialHeader.Tail, ToBytes, EncodeFrames, AllFramesValid, Announces;
    var keys := derive(h.dcid);
    var body := seal(Nonce(keys.iv, pn), text, Header(front, n, pn));
    var sent := Sent(front, n, pn, body, rest, keys.hp);
    var end := |front| + h.length.value;
    FirstOctet(h, front);
    AnnouncedByFirst(front[0], n);
    ProtectedLayout(h, front, n, pn, body, rest, keys.hp);
    var h' := h.(first := ToByte(sent[0]));
    SameLength(h, h');
    WalkUndoesEncode(h', ToBytes(sent[|front|..end]), ToBytes(sent[end..]));
    DecryptUndoesSeal(front, n, pn, text, rest, keys.hp, seal, keys.open, keys.iv);
    ExtractUndoesEncode(fs);
  }

  lemma FirstOctet(h: InitialHeader, front: Octets)
    requires h.Valid() && ToBytes(front) == h.Encode()
    ensures |front| > 0 && ToByte(front[0]) == h.first
  {
    hide ToByte;
    assert ToBytes(front)[0] == ToByte(front[0]);
  }

  lemma SameLength(h: InitialHeader, h': InitialHeader)
    requires h.Valid() && h'.Valid() && h' == h.(first := h'.first)
    ensures |h'.Encode()| == |h.Encode()|
  {
    assert h'.Tail() == h.Tail();
  }
}
