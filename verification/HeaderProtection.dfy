/** Removing header protection from an Initial packet (section 5.4 of RFC 9001) and opening its payload. */
module HeaderProtection {
  import opened Bytes

  type Octets = seq<bv8>

  /** AES over the sample, and the AEAD's two directions over nonce, text and associated data.
      Nothing is known about them but the size of a mask. */
  type Cipher = Octets -> Octets
  type Opener = (Octets, Octets, Octets) -> Option<Octets>
  type Sealer = (Octets, Octets, Octets) -> Octets

  const SAMPLE_OFFSET := 4
  const SAMPLE_SIZE := 16
  const MASK_SIZE := 16
  const IV_SIZE := 12

  ghost predicate MakesMasks(hp: Cipher) {
    forall s :: |hp(s)| == MASK_SIZE
  }

  // ---------------------------------------------------------------------------------------
  // Masking
  // ---------------------------------------------------------------------------------------

  function Xor(a: bv8, b: bv8): bv8 { a ^ b }

  lemma XorTwice(a: bv8, b: bv8)
    ensures Xor(Xor(a, b), b) == a
  {}

  /** The first byte masks four of its bits in a long header, five in a short one. */
  function XorFirst(first: bv8, mask: bv8): bv8 {
    if first & 0x80 == 0x80 then Xor(first, mask & 0x0f) else Xor(first, mask & 0x1f)
  }

  /** The header form bit is never masked, so the same bits are unmasked. */
  lemma XorFirstTwice(first: bv8, mask: bv8)
    ensures XorFirst(XorFirst(first, mask), mask) == first
  {
    XorTwice(first, mask & 0x0f);
    XorTwice(first, mask & 0x1f);
  }

  function PnLength(first: bv8): (n: nat)
    ensures 1 <= n <= 4
  {
    (first & 0x03) as int + 1
  }

  /** The two low bits of a first byte say that the packet number has `n` bytes, sections 17.2 and 17.3.1 of RFC 9000. */
  predicate Announces(first: bv8, n: nat) {
    match n
    case 1 => first & 0x03 == 0
    case 2 => first & 0x03 == 1
    case 3 => first & 0x03 == 2
    case 4 => first & 0x03 == 3
    case _ => false
  }

  /** The proxy reads the announced length and no other. */
  lemma PnLengthIsAnnounced(first: bv8, n: nat)
    ensures PnLength(first) == n <==> Announces(first, n)
  {}

  /** `packet` with its first byte and the `pnLen` bytes at `pnOffset` xored with the mask. */
  function Masked(packet: Octets, pnOffset: nat, pnLen: nat, mask: Octets): (r: Octets)
    requires 0 < pnOffset && pnOffset + pnLen <= |packet| && pnLen <= 4 && |mask| == MASK_SIZE
    ensures |r| == |packet|
  {
    seq(|packet|, i requires 0 <= i < |packet| =>
      if i == 0 then XorFirst(packet[0], mask[0])
      else if pnOffset <= i < pnOffset + pnLen then Xor(packet[i], mask[1 + i - pnOffset])
      else packet[i])
  }

  function SampleOf(packet: Octets, pnOffset: nat): Octets
    requires pnOffset + SAMPLE_OFFSET + SAMPLE_SIZE <= |packet|
  {
    packet[pnOffset + SAMPLE_OFFSET..pnOffset + SAMPLE_OFFSET + SAMPLE_SIZE]
  }

  /** What a sender does with a packet whose number has `n` bytes. */
  function Protect(packet: Octets, pnOffset: nat, n: nat, hp: Cipher): (r: Octets)
    requires 0 < pnOffset && pnOffset + SAMPLE_OFFSET + SAMPLE_SIZE <= |packet| && n <= 4
    requires MakesMasks(hp)
    ensures |r| == |packet|
  {
    Masked(packet, pnOffset, n, hp(SampleOf(packet, pnOffset)))
  }

  /** What a receiver does: the packet number length shows only after the first byte is unmasked. */
  function Unprotect(packet: Octets, pnOffset: nat, mask: Octets): (r: Octets)
    requires 0 < pnOffset && pnOffset + 4 <= |packet| && |mask| == MASK_SIZE
    ensures |r| == |packet|
  {
    Masked(packet, pnOffset, PnLength(XorFirst(packet[0], mask[0])), mask)
  }

  /** The sample lies outside the masked bytes, so receiver and sender derive one mask,
      and unmasking restores every byte of the packet for every announced packet number length. */
  lemma UnprotectUndoesProtect(packet: Octets, pnOffset: nat, n: nat, hp: Cipher)
    requires 0 < pnOffset && pnOffset + SAMPLE_OFFSET + SAMPLE_SIZE <= |packet|
    requires MakesMasks(hp) && Announces(packet[0], n)
    ensures var sent := Protect(packet, pnOffset, n, hp);
            && SampleOf(sent, pnOffset) == SampleOf(packet, pnOffset) == packet[pnOffset + 4..pnOffset + 20]
            && Unprotect(sent, pnOffset, hp(SampleOf(sent, pnOffset))) == packet
  {
    hide XorFirst, Xor, PnLength, Announces;
    PnLengthIsAnnounced(packet[0], n);
    var sent := Protect(packet, pnOffset, n, hp);
    assert SampleOf(sent, pnOffset) == SampleOf(packet, pnOffset);
    var mask := hp(SampleOf(packet, pnOffset));
    XorFirstTwice(packet[0], mask[0]);
    assert sent[0] == XorFirst(packet[0], mask[0]);
    var back := Unprotect(sent, pnOffset, mask);
    forall i | 0 <= i < |packet| ensures back[i] == packet[i] {
      if pnOffset <= i < pnOffset + n {
        XorTwice(packet[i], mask[1 + i - pnOffset]);
      }
    }
  }

  // ---------------------------------------------------------------------------------------
  // Packet number and nonce
  // ---------------------------------------------------------------------------------------

  /** One more byte of a packet number. */
  function Shift(pn: bv64, b: bv8): bv64 {
    (pn << 8) | (b as bv64)
  }

  function PnValue(bs: Octets): bv64
    decreases |bs|
  {
    if bs == [] then 0 else Shift(PnValue(bs[..|bs| - 1]), bs[|bs| - 1])
  }

  /** A conversion to one byte keeps the low eight bits. */
  function Low(w: bv64): bv8 {
    (w & 0xff) as bv8
  }

  /** Byte `i` of a packet number, that is the low byte of pn >> (56 - 8 * i): most significant first. */
  function PnByte(pn: bv64, i: nat): bv8
    requires i < 8
  {
    match i
    case 0 => Low(pn >> 56)
    case 1 => Low(pn >> 48)
    case 2 => Low(pn >> 40)
    case 3 => Low(pn >> 32)
    case 4 => Low(pn >> 24)
    case 5 => Low(pn >> 16)
    case 6 => Low(pn >> 8)
    case _ => Low(pn)
  }

  /** The nonce of section 5.3 of RFC 9001 for the packet number `pn`. */
  function Nonce(iv: Octets, pn: bv64): (n: Octets)
    requires |iv| == IV_SIZE
    ensures |n| == IV_SIZE
  {
    seq(IV_SIZE, i requires 0 <= i < IV_SIZE => if i < 4 then iv[i] else Xor(iv[i], PnByte(pn, i - 4)))
  }

  /** The `n` low bytes that a sender writes into the header, section 17.1 of RFC 9000. */
  function PnBytes(pn: bv64, n: nat): (bs: Octets)
    requires n <= 4
    ensures |bs| == n
  {
    seq(n, i requires 0 <= i < n => PnByte(pn, 8 - n + i))
  }

  // ---------------------------------------------------------------------------------------
  // The proxy's procedure
  // ---------------------------------------------------------------------------------------

  /** What decrypting comes to: the AEAD over the truncated packet number and the clear header. */
  function Opened(packet: Octets, encrypted: Octets, pnOffset: nat, hp: Cipher, open: Opener, iv: Octets)
    : Option<Octets>
    requires 0 < pnOffset && (|encrypted| >= SAMPLE_OFFSET + SAMPLE_SIZE ==> pnOffset + 4 <= |packet|) && |iv| == IV_SIZE
    requires forall s :: |hp(s)| == MASK_SIZE
  {
    if |encrypted| < SAMPLE_OFFSET + SAMPLE_SIZE then None
    else
      var clear := Unprotect(packet, pnOffset, hp(encrypted[4..20]));
      var end := pnOffset + PnLength(clear[0]);
      open(Nonce(iv, PnValue(clear[pnOffset..end])), encrypted[PnLength(clear[0])..], clear[..end])
  }

  method Decrypt(packet: array<bv8>, encrypted: Octets, pnOffset: nat, hp: Cipher, open: Opener, iv: Octets)
    returns (plaintext: Option<Octets>)
    requires 0 < pnOffset && (|encrypted| >= SAMPLE_OFFSET + SAMPLE_SIZE ==> pnOffset + 4 <= packet.Length)
    requires |iv| == IV_SIZE
    requires forall s :: |hp(s)| == MASK_SIZE
    ensures packet[..] == old(packet[..])
    ensures |encrypted| < 20 ==> plaintext == None
    ensures plaintext == Opened(packet[..], encrypted, pnOffset, hp, open, iv)
  {
    hide Xor, XorFirst, PnLength, PnByte, Shift, Masked;
    if |encrypted| < 20 {
      return None;
    }
    var copy, pnLen := Unmask(packet, pnOffset, hp(encrypted[4..20]));
    var pn: bv64 := 0;
    var i := 0;
    while i < pnLen
      invariant 0 <= i <= pnLen
      invariant pn == PnValue(copy[pnOffset..pnOffset + i])
    {
      var next := copy[pnOffset..pnOffset + i + 1];
      assert next[..i] == copy[pnOffset..pnOffset + i];
      pn := Shift(pn, copy[pnOffset + i]);
      i := i + 1;
    }
    var nonce := XorIntoNonce(iv, pn);
    plaintext := open(nonce, encrypted[pnLen..], copy[..pnOffset + pnLen]);
  }

  /** Unmasks a copy of the packet. */
  method Unmask(packet: array<bv8>, pnOffset: nat, mask: Octets) returns (copy: array<bv8>, pnLen: nat)
    requires 0 < pnOffset && pnOffset + 4 <= packet.Length && |mask| == MASK_SIZE
    ensures fresh(copy) && copy[..] == Unprotect(packet[..], pnOffset, mask)
    ensures pnLen == PnLength(copy[0])
  {
    hide Xor, XorFirst, PnLength;
    ghost var clear := Unprotect(packet[..], pnOffset, mask);
    copy := new bv8[packet.Length];
    forall i | 0 <= i < packet.Length {
      copy[i] := packet[i];
    }
    copy[0] := XorFirst(copy[0], mask[0]);
    pnLen := PnLength(copy[0]);
    var i := 0;
    while i < pnLen
      modifies copy
      invariant 0 <= i <= pnLen
      invariant forall k | 0 <= k < copy.Length ::
        copy[k] == if k < pnOffset || k < pnOffset + i then clear[k] else packet[k]
    {
      copy[pnOffset + i] := Xor(copy[pnOffset + i], mask[1 + i]);
      i := i + 1;
    }
  }

  method XorIntoNonce(iv: Octets, pn: bv64) returns (n: Octets)
    requires |iv| == IV_SIZE
    ensures n == Nonce(iv, pn)
  {
    hide Xor, PnByte;
    n := iv;
    var i := 0;
    while i < 8
      invariant 0 <= i <= 8
      invariant |n| == IV_SIZE
      invariant forall k | 0 <= k < IV_SIZE :: n[k] == if k < 4 + i then Nonce(iv, pn)[k] else iv[k]
    {
      n := n[4 + i := Xor(n[4 + i], PnByte(pn, i))];
      i := i + 1;
    }
  }

  // ---------------------------------------------------------------------------------------
  // From a sealed packet back to its plaintext
  // ---------------------------------------------------------------------------------------

  /** The packet number a receiver sees when only the `n` low bytes are sent. */
  function Truncated(pn: bv64, n: nat): bv64
    requires n <= 4
  {
    PnValue(PnBytes(pn, n))
  }

  lemma PnValueSnoc(bs: Octets, b: bv8)
    ensures PnValue(bs + [b]) == Shift(PnValue(bs), b)
  {
    hide Shift;
    assert (bs + [b])[..|bs|] == bs;
  }

  lemma ShiftTwice(pn: bv64)
    ensures (pn >> 8) >> 8 == pn >> 16 && (pn >> 8) >> 16 == pn >> 24
  {}

  lemma ByteOfShifted(pn: bv64, i: nat)
    requires 4 <= i < 7
    ensures PnByte(pn >> 8, i + 1) == PnByte(pn, i)
  {
    hide Low;
    ShiftTwice(pn);
  }

  lemma TruncatedStep(pn: bv64, n: nat)
    requires 0 < n <= 4
    ensures Truncated(pn, n) == Shift(Truncated(pn >> 8, n - 1), PnByte(pn, 7))
  {
    hide PnByte, Shift;
    forall i | 0 <= i < n - 1 ensures PnBytes(pn >> 8, n - 1)[i] == PnBytes(pn, n)[i] {
      ByteOfShifted(pn, 8 - n + i);
    }
    assert PnBytes(pn, n) == PnBytes(pn >> 8, n - 1) + [PnByte(pn, 7)];
    PnValueSnoc(PnBytes(pn >> 8, n - 1), PnByte(pn, 7));
  }

  function And(a: bv64, b: bv64): bv64 { a & b }

  function LowMask(n: nat): bv64
    requires n <= 4
  {
    match n
    case 0 => 0
    case 1 => 0xff
    case 2 => 0xffff
    case 3 => 0xff_ffff
    case _ => 0xffff_ffff
  }

  /** The packet number modulo 256 to the power n. */
  function LowBytes(pn: bv64, n: nat): bv64
    requires n <= 4
  {
    And(pn, LowMask(n))
  }

  lemma ShiftInto(pn: bv64, mask: bv64, wider: bv64)
    requires wider == (mask << 8) | 0xff && mask <= 0xff_ffff
    ensures Shift(And(pn >> 8, mask), Low(pn)) == And(pn, wider)
  {}

  lemma ShiftLow(pn: bv64, n: nat)
    requires 0 < n <= 4
    ensures Shift(LowBytes(pn >> 8, n - 1), PnByte(pn, 7)) == LowBytes(pn, n)
  {
    hide Shift, Low, And;
    ShiftInto(pn, LowMask(n - 1), LowMask(n));
  }

  lemma {:induction false} TruncatedIsLowBytes(pn: bv64, n: nat)
    requires n <= 4
    ensures Truncated(pn, n) == LowBytes(pn, n)
    decreases n
  {
    hide PnByte, Shift;
    if n > 0 {
      TruncatedStep(pn, n);
      TruncatedIsLowBytes(pn >> 8, n - 1);
      ShiftLow(pn, n);
    } else {
      assert PnBytes(pn, 0) == [];
    }
  }

  /** The packet number needs no more than n bytes. */
  predicate Fits(pn: bv64, n: nat)
    requires n <= 4
  {
    pn <= LowMask(n)
  }

  lemma LowBytesOfFitting(pn: bv64, n: nat)
    requires n <= 4
    ensures LowBytes(pn, n) == pn <==> Fits(pn, n)
  {
    hide And;
    match n {
      case 0 => NoByteFits(pn);
      case 1 => OneByteFits(pn);
      case 2 => TwoBytesFit(pn);
      case 3 => ThreeBytesFit(pn);
      case 4 => FourBytesFit(pn);
    }
  }

  lemma NoByteFits(pn: bv64) ensures And(pn, 0) == pn <==> pn <= 0 {}

  lemma OneByteFits(pn: bv64) ensures And(pn, 0xff) == pn <==> pn <= 0xff {}

  lemma TwoBytesFit(pn: bv64) ensures And(pn, 0xffff) == pn <==> pn <= 0xffff {}

  lemma ThreeBytesFit(pn: bv64) ensures And(pn, 0xff_ffff) == pn <==> pn <= 0xff_ffff {}

  lemma FourBytesFit(pn: bv64) ensures And(pn, 0xffff_ffff) == pn <==> pn <= 0xffff_ffff {}

  lemma BytesDetermine(a: bv64, b: bv64)
    requires forall i | 0 <= i < 8 :: PnByte(a, i) == PnByte(b, i)
    ensures a == b
  {
    assert PnByte(a, 0) == PnByte(b, 0) && PnByte(a, 1) == PnByte(b, 1) && PnByte(a, 2) == PnByte(b, 2)
        && PnByte(a, 3) == PnByte(b, 3) && PnByte(a, 4) == PnByte(b, 4) && PnByte(a, 5) == PnByte(b, 5)
        && PnByte(a, 6) == PnByte(b, 6) && PnByte(a, 7) == PnByte(b, 7);
  }

  lemma NoncesDiffer(iv: Octets, a: bv64, b: bv64)
    requires |iv| == IV_SIZE
    ensures Nonce(iv, a) == Nonce(iv, b) <==> a == b
  {
    hide PnByte, Xor;
    if Nonce(iv, a) == Nonce(iv, b) {
      forall i | 0 <= i < 8 ensures PnByte(a, i) == PnByte(b, i) {
        assert Nonce(iv, a)[i + 4] == Nonce(iv, b)[i + 4];
        XorCancels(iv[i + 4], PnByte(a, i), PnByte(b, i));
      }
      BytesDetermine(a, b);
    }
  }

  lemma XorCancels(k: bv8, x: bv8, y: bv8)
    ensures Xor(k, x) == Xor(k, y) <==> x == y
  {}

  /** The clear header of an Initial packet: everything up to and including the `n` bytes of the packet number. */
  function Header(front: Octets, n: nat, pn: bv64): (h: Octets)
    requires n <= 4
    ensures |h| == |front| + n
  {
    front + PnBytes(pn, n)
  }

  /** A sent packet: sealed, then protected, then perhaps followed by other packets of the datagram. */
  function Sent(front: Octets, n: nat, pn: bv64, body: Octets, rest: Octets, hp: Cipher): Octets
    requires |front| > 0 && n <= 4 && n + |body| >= SAMPLE_OFFSET + SAMPLE_SIZE
    requires MakesMasks(hp)
  {
    Protect(Header(front, n, pn) + body + rest, |front|, n, hp)
  }

  /** What the proxy opens of a packet that announces its number's length: the body, the clear header, and the truncated
      packet number. */
  lemma OpenedOfSent(front: Octets, n: nat, pn: bv64, body: Octets, rest: Octets, hp: Cipher, open: Opener, iv: Octets)
    requires |front| > 0 && Announces(front[0], n) && n + |body| >= SAMPLE_OFFSET + SAMPLE_SIZE
    requires MakesMasks(hp) && |iv| == IV_SIZE
    ensures n <= 4
    ensures var sent := Sent(front, n, pn, body, rest, hp);
            Opened(sent, sent[|front|..|front| + n + |body|], |front|, hp, open, iv) ==
            open(Nonce(iv, Truncated(pn, n)), body, Header(front, n, pn))
  {
    hide PnLength, Masked, PnBytes, PnValue, Nonce, Announces;
    PnLengthIsAnnounced(front[0], n);
    var h := Header(front, n, pn);
    var clear := h + body + rest;
    var at := |front|;
    var sent := Sent(front, n, pn, body, rest, hp);
    var encrypted := sent[at..at + n + |body|];
    assert clear[0] == front[0];
    UnprotectUndoesProtect(clear, at, n, hp);
    Window(sent, at, n + |body|, 4, 20);
    Window(sent, at, n + |body|, n, n + |body|);
    Parts(front, PnBytes(pn, n), body, rest);
    UnmaskedTail(clear, at, n, hp(SampleOf(clear, at)));
    SameWindow(sent, clear, at + n, |body|);
  }

  lemma Window(s: Octets, at: nat, len: nat, from: nat, to: nat)
    requires at + len <= |s| && from <= to <= len
    ensures s[at..at + len][from..to] == s[at + from..at + to]
  {
    var window, part := s[at..at + len], s[at + from..at + to];
    assert |window[from..to]| == |part|;
    forall i | 0 <= i < |part| ensures window[from..to][i] == part[i] {
      assert window[from + i] == s[at + from + i];
    }
  }

  lemma SameWindow(a: Octets, b: Octets, at: nat, len: nat)
    requires at + len <= |a| == |b| && a[at..] == b[at..]
    ensures a[at..at + len] == b[at..at + len]
  {
    assert a[at..at + len] == a[at..][..len];
    assert b[at..at + len] == b[at..][..len];
  }

  lemma Parts(front: Octets, number: Octets, body: Octets, rest: Octets)
    ensures var s := front + number + body + rest;
            var n := |front| + |number|;
            s[..n] == front + number && s[|front|..n] == number && s[n..n + |body|] == body
  {}

  lemma UnmaskedTail(packet: Octets, pnOffset: nat, pnLen: nat, mask: Octets)
    requires 0 < pnOffset && pnOffset + pnLen <= |packet| && pnLen <= 4 && |mask| == MASK_SIZE
    ensures Masked(packet, pnOffset, pnLen, mask)[pnOffset + pnLen..] == packet[pnOffset + pnLen..]
  {}

  /** The proxy takes the truncated packet number for the whole one. It derives the nonce the sender
      sealed with exactly when the packet number fits the bytes that were sent. */
  lemma NonceMatchesExactlyWhenNumberFits(pn: bv64, n: nat, iv: Octets)
    requires 1 <= n <= 4 && |iv| == IV_SIZE
    ensures Nonce(iv, Truncated(pn, n)) == Nonce(iv, pn) <==> Fits(pn, n)
  {
    hide Nonce, Truncated, LowBytes, Fits;
    NoncesDiffer(iv, Truncated(pn, n), pn);
    TruncatedIsLowBytes(pn, n);
    LowBytesOfFitting(pn, n);
  }

  /** Packet number 256 sent in one byte is taken for 0. */
  lemma NumberThatDoesNotFit(iv: Octets)
    requires |iv| == IV_SIZE
    ensures Nonce(iv, Truncated(256, 1)) == Nonce(iv, 0) != Nonce(iv, 256)
  {
    TruncatedIsLowBytes(256, 1);
    NoncesDiffer(iv, 0, 256);
  }

  /** With an AEAD whose opener undoes its sealer, such a packet is decrypted to what was sealed. */
  lemma DecryptUndoesSeal(front: Octets, n: nat, pn: bv64, text: Octets, rest: Octets, hp: Cipher, seal: Sealer, open: Opener,
                          iv: Octets)
    requires |front| > 0 && Announces(front[0], n) && n <= 4 && MakesMasks(hp) && |iv| == IV_SIZE && Fits(pn, n)
    requires forall nonce, t, aad :: open(nonce, seal(nonce, t, aad), aad) == Some(t)
    requires n + |seal(Nonce(iv, pn), text, Header(front, n, pn))| >= SAMPLE_OFFSET + SAMPLE_SIZE
    ensures var body := seal(Nonce(iv, pn), text, Header(front, n, pn));
            var sent := Sent(front, n, pn, body, rest, hp);
            var end := |front| + n + |body|;
            Opened(sent, sent[|front|..end], |front|, hp, open, iv) == Some(text)
  {
    hide Opened, Nonce, Sent, Header, Truncated, Fits;
    var body := seal(Nonce(iv, pn), text, Header(front, n, pn));
    OpenedOfSent(front, n, pn, body, rest, hp, open, iv);
    NonceMatchesExactlyWhenNumberFits(pn, n, iv);
  }

  // ---------------------------------------------------------------------------------------
  // Independent descriptions
  // ---------------------------------------------------------------------------------------

  /** Section 5.3 of RFC 9001: the packet number in network order, padded with zeros on the left to the size of the iv,
      is what iv and nonce differ by. */
  lemma NonceDiffersByNumber(iv: Octets, pn: bv64)
    requires |iv| == IV_SIZE
    ensures var difference := seq(8, i requires 0 <= i < 8 => Xor(Nonce(iv, pn)[i + 4], iv[i + 4]));
            Nonce(iv, pn)[..4] == iv[..4] && PnValue(difference) == pn
  {
    hide Xor, PnByte, PnValue;
    var difference := seq(8, i requires 0 <= i < 8 => Xor(Nonce(iv, pn)[i + 4], iv[i + 4]));
    var bytes := seq(8, i requires 0 <= i < 8 => PnByte(pn, i));
    forall i | 0 <= i < 8 ensures difference[i] == bytes[i] {
      XorBack(iv[i + 4], PnByte(pn, i));
    }
    assert difference == bytes;
    AllBytes(pn, bytes);
  }

  lemma XorBack(a: bv8, b: bv8)
    ensures Xor(Xor(a, b), a) == b
  {}

  lemma AllBytes(pn: bv64, bs: Octets)
    requires |bs| == 8 && forall i | 0 <= i < 8 :: bs[i] == PnByte(pn, i)
    ensures PnValue(bs) == pn
  {
    hide Shift, PnByte;
    PnValueEnds(bs);
    var half := bs[..4];
    assert bs[..8] == bs && half[..4] == half;
    PnValueEnds(half);
    assert bs[0] == half[0] && bs[1] == half[1] && bs[2] == half[2] && bs[3] == half[3];
    EightShifts(pn);
  }

  /** The last four bytes shift in one after the other. */
  lemma PnValueEnds(bs: Octets)
    requires |bs| >= 4
    ensures var n := |bs|;
            PnValue(bs) == Shift(Shift(Shift(Shift(PnValue(bs[..n - 4]), bs[n - 4]), bs[n - 3]), bs[n - 2]), bs[n - 1])
    ensures PnValue(bs[..0]) == 0
  {
    hide Shift;
    var n := |bs|;
    assert bs[..n - 1][..n - 2] == bs[..n - 2];
    assert bs[..n - 2][..n - 3] == bs[..n - 3];
    assert bs[..n - 3][..n - 4] == bs[..n - 4];
  }

  lemma EightShifts(pn: bv64)
    ensures Shift(Shift(Shift(Shift(Shift(Shift(Shift(Shift(0, PnByte(pn, 0)), PnByte(pn, 1)), PnByte(pn, 2)), PnByte(pn, 3)),
              PnByte(pn, 4)), PnByte(pn, 5)), PnByte(pn, 6)), PnByte(pn, 7)) == pn
  {}

  /** Section 5.4.1 of RFC 9001: of the first byte the four low bits are masked in a long header, the five low bits in a
      short one, and no other. */
  lemma MaskedBits(first: bv8, mask: bv8)
    ensures var masked := XorFirst(first, mask);
            if first >= 0x80 then masked & 0xf0 == first & 0xf0 && masked & 0x0f == (first ^ mask) & 0x0f
            else masked & 0xe0 == first & 0xe0 && masked & 0x1f == (first ^ mask) & 0x1f
  {}

  /** The client's Initial packet of section A.2 of RFC 9001, up to its packet number, before and after protection. */
  const CLEAR_HEADER: Octets :=
    [0xc3, 0, 0, 0, 1, 8, 0x83, 0x94, 0xc8, 0xf0, 0x3e, 0x51, 0x57, 0x08, 0, 0, 0x44, 0x9e, 0, 0, 0, 2]

  const PROTECTED_HEADER: Octets :=
    [0xc0, 0, 0, 0, 1, 8, 0x83, 0x94, 0xc8, 0xf0, 0x3e, 0x51, 0x57, 0x08, 0, 0, 0x44, 0x9e, 0x7b, 0x9a, 0xec, 0x34]

  /** With the mask of that section, whose first five bytes are all that is used, unmasking gives the clear header. */
  lemma SampleHeader(rest: Octets, mask: Octets)
    requires |mask| == MASK_SIZE && mask[..5] == [0x43, 0x7b, 0x9a, 0xec, 0x36]
    ensures Unprotect(PROTECTED_HEADER + rest, 18, mask) == CLEAR_HEADER + rest
  {
    var m := mask[..5];
    assert mask[0] == m[0] && mask[1] == m[1] && mask[2] == m[2] && mask[3] == m[3] && mask[4] == m[4];
    var packet := PROTECTED_HEADER + rest;
    assert XorFirst(0xc0, 0x43) == 0xc3 && PnLength(0xc3) == 4;
    assert Xor(0x7b, 0x7b) == 0 && Xor(0x9a, 0x9a) == 0 && Xor(0xec, 0xec) == 0 && Xor(0x34, 0x36) == 2;
    hide Xor, XorFirst, PnLength;
    var clear := Unprotect(packet, 18, mask);
    forall i | 0 <= i < |packet| ensures clear[i] == (CLEAR_HEADER + rest)[i] {
      if i < 18 {
        assert i != 0 ==> PROTECTED_HEADER[i] == CLEAR_HEADER[i];
      }
    }
  }
}
