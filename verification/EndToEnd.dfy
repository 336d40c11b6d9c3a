/** From the wire to the ClientHello: sealed and protected Initial datagrams in, server name and protocols out. */
module EndToEnd {
  import opened Bytes
  import opened ClientHello
  import opened HelloCodec
  import opened FrameScan
  import opened FrameCodec
  import opened Assembler
  import opened Reassembly
  import opened HeaderProtection
  import opened InitialPacket

  /** What a client puts into one datagram: an Initial packet with these frames, and perhaps more behind it. `front` and
      `text` are the octets of header and frames. */
  datatype Datagram = Datagram(
    header: InitialHeader, front: Octets, pnLength: nat, pn: bv64, frames: seq<Frame>, text: Octets, rest: Octets)
  {
    function Sealed(keys: Keys, seal: Sealer): Octets
      requires pnLength <= 4 && |keys.iv| == IV_SIZE
    {
      seal(Nonce(keys.iv, pn), text, Header(front, pnLength, pn))
    }

    /** The header announces the packet number's length and what follows, which is long enough for a sample, and the packet
        number fits. */
    ghost predicate Sendable(derive: seq<Byte> -> Keys, seal: Sealer)
      requires Derives(derive)
    {
      && header.Valid() && AllFramesValid(frames)
      && ToBytes(front) == header.Encode() && ToBytes(text) == EncodeFrames(frames)
      && 1 <= pnLength <= 4 && header.first % 4 == pnLength - 1 && Fits(pn, pnLength)
      && pnLength + |Sealed(derive(header.dcid), seal)| == header.length.value >= SAMPLE_OFFSET + SAMPLE_SIZE
    }

    ghost function Wire(derive: seq<Byte> -> Keys, seal: Sealer): Octets
      requires Derives(derive) && Sendable(derive, seal)
    {
      Sent(front, pnLength, pn, Sealed(derive(header.dcid), seal), rest, derive(header.dcid).hp)
    }
  }

  /** With the keys of any connection id, opening undoes sealing. */
  ghost predicate OpeningUndoesSealing(derive: seq<Byte> -> Keys, seal: Sealer) {
    forall dcid, nonce, t, aad :: derive(dcid).open(nonce, seal(nonce, t, aad), aad) == Some(t)
  }

  ghost function Wires(ds: seq<Datagram>, derive: seq<Byte> -> Keys, seal: Sealer): seq<Octets>
    requires Derives(derive) && forall d | d in ds :: d.Sendable(derive, seal)
  {
    if ds == [] then [] else [ds[0].Wire(derive, seal)] + Wires(ds[1..], derive, seal)
  }

  function Payloads(ds: seq<Datagram>): seq<seq<Frame>> {
    if ds == [] then [] else [ds[0].frames] + Payloads(ds[1..])
  }

  /** The frames that the proxy adds to an assembler for these packets; one that it cannot read adds none. */
  ghost function ExtractAll(packets: seq<Octets>, derive: seq<Byte> -> Keys): seq<CryptoFrame>
    requires Derives(derive)
  {
    if packets == [] then []
    else (match ExtractFromPacket(packets[0], derive)
          case Frames(fs) => fs
          case _ => []) + ExtractAll(packets[1..], derive)
  }

  lemma DatagramIsExtracted(d: Datagram, derive: seq<Byte> -> Keys, seal: Sealer)
    requires Derives(derive) && OpeningUndoesSealing(derive, seal) && d.Sendable(derive, seal)
    ensures ExtractFromPacket(d.Wire(derive, seal), derive) == Frames(CryptoOf(d.frames))
  {
    hide ExtractFromPacket, Sent, Fits, Header, Nonce, ToBytes, InitialHeader.Encode, InitialHeader.Valid,
         EncodeFrames, AllFramesValid;
    SentPacketIsExtracted(d.header, d.front, d.pnLength, d.pn, d.frames, d.text, d.rest, derive, seal);
  }

  lemma {:induction false} AllAreExtracted(ds: seq<Datagram>, derive: seq<Byte> -> Keys, seal: Sealer)
    requires Derives(derive) && OpeningUndoesSealing(derive, seal) && forall d | d in ds :: d.Sendable(derive, seal)
    ensures ExtractAll(Wires(ds, derive, seal), derive) == SentFrames(Payloads(ds))
    decreases |ds|
  {
    hide ExtractFromPacket, Datagram.Wire, Datagram.Sendable, OpeningUndoesSealing, Derives;
    if ds != [] {
      DatagramIsExtracted(ds[0], derive, seal);
      AllAreExtracted(ds[1..], derive, seal);
      assert Wires(ds, derive, seal)[1..] == Wires(ds[1..], derive, seal);
    }
  }

  lemma {:induction false} PayloadsAreValid(ds: seq<Datagram>)
    requires forall d | d in ds :: AllFramesValid(d.frames)
    ensures forall p | p in Payloads(ds) :: AllFramesValid(p)
    decreases |ds|
  {
    hide AllFramesValid;
    if ds != [] {
      PayloadsAreValid(ds[1..]);
    }
  }

  /** However a client spreads the stream of a ClientHello over frames and datagrams, whatever their headers, tokens, packet
      numbers, order, repetitions and overlaps: nothing is parsed until the datagrams cover the message, and from then
      on the message is, with the server name and the protocols it was built from. */
  lemma DatagramsToClientHello(l: Layout, stream: seq<Byte>, ds: seq<Datagram>, derive: seq<Byte> -> Keys, seal: Sealer)
    requires l.Valid() && l.Encode() <= stream && |l.Encode()| <= BUFFER_SIZE
    requires Derives(derive) && OpeningUndoesSealing(derive, seal) && forall d | d in ds :: d.Sendable(derive, seal)
    requires forall f | f in SentFrames(Payloads(ds)) :: Carries(f, stream)
    ensures var n := |l.Encode()|;
            HelloIn(Collect(map[], ExtractAll(Wires(ds, derive, seal), derive))) ==
            if Covered(Payloads(ds), n) then Some(Found(l.extensions, Hello(stream[..n], [], []))) else None
  {
    hide Layout.Encode, Layout.Valid, HelloIn, Collect, Carries, SentFrames, Payloads, Wires, ExtractAll, Found, Covered,
         EncodePayloads, AllFrames, AfterPayloads, OpeningUndoesSealing, Derives, AllFramesValid;
    assert forall d | d in ds :: AllFramesValid(d.frames) by {
      hide ToBytes, EncodeFrames, InitialHeader.Encode, InitialHeader.Valid, Fits;
    }
    PayloadsAreValid(ds);
    AllAreExtracted(ds, derive, seal);
    AllFramesAreSent(Payloads(ds));
    AfterPayloadsCollects(map[], EncodePayloads(Payloads(ds)));
    ClientHelloEndToEnd(l, stream, Payloads(ds));
  }
}
