/** Length-prefixed packets on a byte stream: the frames, the writer and the buffering reader. */
module Framing {
  import opened Bytes

  const HEADER_SIZE := 8
  const MAX_PACKET_SIZE := 16 * 1024 * 1024
  const DEFAULT_BUF_SIZE := 64 * 1024

  datatype Packet = Packet(id: Word, data: seq<Byte>)

  datatype Error = Eof | UnexpectedEof | PacketTooLarge

  datatype ReadResult = Got(packet: Packet) | Failed(error: Error)

  // ---------------------------------------------------------------------------------------
  // Frames
  // ---------------------------------------------------------------------------------------

  /** The little-endian word at `at`. */
  function U32(data: seq<Byte>, at: nat): Word
    requires at + 4 <= |data|
  {
    data[at] as int + data[at + 1] as int * 0x100 + data[at + 2] as int * 0x1_0000 + data[at + 3] as int * 0x100_0000
  }

  function PutU32(v: Word): (bs: seq<Byte>)
    ensures |bs| == 4 && U32(bs, 0) == v
  {
    var v1 := v as int / 0x100; var v2 := v1 / 0x100; var v3 := v2 / 0x100;
    [v as int % 0x100, v1 % 0x100, v2 % 0x100, v3]
  }

  function Frame(p: Packet): (bs: seq<Byte>)
    ensures |bs| == HEADER_SIZE + |p.data|
  {
    PutU32(|p.data| % 0x1_0000_0000) + (PutU32(p.id) + p.data)
  }

  function FrameAll(ps: seq<Packet>): seq<Byte> {
    if ps == [] then [] else Frame(ps[0]) + FrameAll(ps[1..])
  }

  /** The layout by example: length and id little-endian, then the payload. */
  lemma FrameLayout()
    ensures Frame(Packet(0x0102_0304, [97, 98])) == [2, 0, 0, 0, 4, 3, 2, 1, 97, 98]
  {}

  /** Writing one packet more appends its frame, so a writer's output is the frames of its packets. */
  lemma {:induction false} FrameAllSnoc(ps: seq<Packet>, p: Packet)
    ensures FrameAll(ps + [p]) == FrameAll(ps) + Frame(p)
  {
    hide Frame;
    if ps == [] {
      assert [p][1..] == [];
      assert FrameAll([p]) == Frame(p) + FrameAll([]);
    } else {
      assert (ps + [p])[1..] == ps[1..] + [p];
      FrameAllSnoc(ps[1..], p);
    }
  }

  // ---------------------------------------------------------------------------------------
  // The plain parse of a whole stream
  // ---------------------------------------------------------------------------------------

  datatype Parsed = Parsed(result: ReadResult, rest: seq<Byte>)

  /** The packet at the front of a stream; a failure consumes nothing. */
  function Next(s: seq<Byte>): Parsed {
    if |s| < HEADER_SIZE then Parsed(Failed(if s == [] then Eof else UnexpectedEof), s)
    else
      var length := U32(s, 0);
      if length > MAX_PACKET_SIZE then Parsed(Failed(PacketTooLarge), s)
      else if |s| < HEADER_SIZE + length then Parsed(Failed(UnexpectedEof), s)
      else Parsed(Got(Packet(U32(s, 4), s[HEADER_SIZE..HEADER_SIZE + length])), s[HEADER_SIZE + length..])
  }

  datatype Parse = Parse(packets: seq<Packet>, end: Error)

  /** Every packet of a stream up to the error that ends it. */
  function ParseAll(s: seq<Byte>): Parse
    decreases |s|
  {
    var n := Next(s);
    match n.result
    case Failed(e) => Parse([], e)
    case Got(p) => var more := ParseAll(n.rest); Parse([p] + more.packets, more.end)
  }

  lemma U32At(data: seq<Byte>, at: nat, v: Word)
    requires At(data, at, PutU32(v))
    ensures at + 4 <= |data| && U32(data, at) == v
  {
    hide PutU32;
    assert data[at] == PutU32(v)[0] && data[at + 1] == PutU32(v)[1]
        && data[at + 2] == PutU32(v)[2] && data[at + 3] == PutU32(v)[3];
  }

  lemma FrameAt(s: seq<Byte>, p: Packet, rest: seq<Byte>)
    requires s == Frame(p) + rest
    ensures U32(s, 0) == |p.data| % 0x1_0000_0000 && U32(s, 4) == p.id
    ensures s[HEADER_SIZE..HEADER_SIZE + |p.data|] == p.data && s[HEADER_SIZE + |p.data|..] == rest
  {
    hide PutU32, U32;
    assert s[0..0 + |Frame(p)|] == Frame(p);
    AtSplit(s, 0, PutU32(|p.data| % 0x1_0000_0000), PutU32(p.id) + p.data);
    AtSplit(s, 4, PutU32(p.id), p.data);
    U32At(s, 0, |p.data| % 0x1_0000_0000);
    U32At(s, 4, p.id);
  }

  /** A written packet is read back, and what follows is left, exactly when its payload is within the limit. */
  lemma NextUndoesFrame(p: Packet, rest: seq<Byte>)
    requires |p.data| < 0x1_0000_0000
    ensures Next(Frame(p) + rest) ==
            if |p.data| <= 16_777_216 then Parsed(Got(p), rest)
            else Parsed(Failed(PacketTooLarge), Frame(p) + rest)
  {
    hide U32, Frame;
    FrameAt(Frame(p) + rest, p, rest);
  }

  /** What is left when the stream ends inside a frame, or exactly between two. */
  ghost predicate Tail(tail: seq<Byte>) {
    tail == [] || exists p: Packet :: |p.data| <= MAX_PACKET_SIZE && tail < Frame(p)
  }

  lemma NextOfTail(tail: seq<Byte>)
    requires Tail(tail)
    ensures Next(tail) == Parsed(Failed(if tail == [] then Eof else UnexpectedEof), tail)
  {
    hide U32, Frame;
    if |tail| >= HEADER_SIZE {
      var p: Packet :| |p.data| <= MAX_PACKET_SIZE && tail < Frame(p);
      FrameAt(Frame(p), p, []);
      HeaderOfPrefix(tail, Frame(p));
    }
  }

  lemma HeaderOfPrefix(tail: seq<Byte>, s: seq<Byte>)
    requires HEADER_SIZE <= |tail| && tail <= s
    ensures U32(tail, 0) == U32(s, 0)
  {
    assert forall i | 0 <= i < 4 :: tail[i] == s[i];
  }

  /** The parse of written packets is those packets in order; then it ends cleanly between two frames
      and with an error inside one. */
  lemma {:induction false} FramingRoundTrip(ps: seq<Packet>, tail: seq<Byte>)
    requires forall p | p in ps :: |p.data| <= MAX_PACKET_SIZE
    requires Tail(tail)
    ensures ParseAll(FrameAll(ps) + tail) == Parse(ps, if tail == [] then Eof else UnexpectedEof)
    decreases |ps|
  {
    hide Frame, Next, Tail;
    if ps == [] {
      assert FrameAll(ps) + tail == tail;
      NextOfTail(tail);
    } else {
      var rest := FrameAll(ps[1..]) + tail;
      assert FrameAll(ps) + tail == Frame(ps[0]) + rest;
      NextUndoesFrame(ps[0], rest);
      FramingRoundTrip(ps[1..], tail);
    }
  }

  // ---------------------------------------------------------------------------------------
  // The writer
  // ---------------------------------------------------------------------------------------

  /** The stream a writer writes to. */
  class Sink {
    var written: seq<Byte>

    constructor ()
      ensures written == []
    {
      written := [];
    }

    method Write(bs: seq<Byte>)
      modifies this
      ensures written == old(written) + bs
    {
      written := written + bs;
    }
  }

  class PacketWriter {
    const w: Sink
    const buf: array<Byte>

    ghost predicate Valid() {
      buf.Length == HEADER_SIZE
    }

    constructor (w: Sink)
      ensures Valid() && this.w == w && fresh(buf)
    {
      this.w := w;
      buf := new Byte[HEADER_SIZE](_ => 0);
    }

    method PutHeader(at: nat, v: Word)
      requires Valid() && (at == 0 || at == 4)
      modifies buf
      ensures buf[at..at + 4] == PutU32(v)
      ensures forall i | 0 <= i < HEADER_SIZE && !(at <= i < at + 4) :: buf[i] == old(buf[i])
    {
      hide U32;
      var bs := PutU32(v);
      buf[at], buf[at + 1], buf[at + 2], buf[at + 3] := bs[0], bs[1], bs[2], bs[3];
    }

    method Write(id: Word, data: seq<Byte>)
      requires Valid()
      modifies w, buf
      ensures Valid() && w.written == old(w.written) + Frame(Packet(id, data))
    {
      hide PutU32;
      PutHeader(0, |data| % 0x1_0000_0000);
      PutHeader(4, id);
      assert buf[..] == PutU32(|data| % 0x1_0000_0000) + PutU32(id);
      w.Write(buf[..]);
      if |data| > 0 {
        w.Write(data);
      }
    }
  }

  // ---------------------------------------------------------------------------------------
  // The reader
  // ---------------------------------------------------------------------------------------

  /** A stream handed out in arbitrary chunks that are empty only at its end. Its last `final` bytes are one chunk that
      comes together with EOF, split only where it does not fit the buffer; with `final` zero EOF comes on its own. */
  class Stream {
    var rest: seq<Byte>
    const final: nat

    constructor (content: seq<Byte>, final: nat)
      ensures rest == content && this.final == final
    {
      rest := content;
      this.final := final;
    }

    method Read(buf: array<Byte>, from: nat) returns (n: nat, eof: bool)
      requires from < buf.Length
      modifies this, buf
      ensures n <= buf.Length - from && n <= |old(rest)|
      ensures if old(rest) == [] then n == 0 && eof
              else if |old(rest)| > final then 1 <= n <= |old(rest)| - final && !eof
              else n == Min(buf.Length - from, |old(rest)|) && (eof <==> n == |old(rest)|)
      ensures buf[..from] == old(buf[..from]) && buf[from..from + n] == old(rest[..n]) && rest == old(rest[n..])
    {
      if rest == [] {
        return 0, true;
      }
      if |rest| > final {
        assert 1 <= 1 <= Min(buf.Length - from, |rest| - final);
        var size: nat :| 1 <= size <= Min(buf.Length - from, |rest| - final);
        n, eof := size, false;
      } else {
        n := Min(buf.Length - from, |rest|);
        eof := n == |rest|;
      }
      forall i | 0 <= i < n {
        buf[from + i] := rest[i];
      }
      rest := rest[n..];
    }
  }

  // ---------------------------------------------------------------------------------------
  // When EOF comes too early
  // ---------------------------------------------------------------------------------------

  /** The size of a buffer that has to hold `n` bytes. */
  function Room(size: nat, n: nat): nat {
    if n <= size then size else Max(2 * size, n)
  }

  /** Of `total` unread bytes, `known` are in the buffer or come before the final chunk. When `n` are requested that are
      not all among them, the read of the final chunk completes the request, and it brings EOF if it fits the buffer. */
  predicate EofCompletes(size: nat, known: nat, total: nat, n: nat) {
    known < n <= total <= Room(size, n)
  }

  /** A call for the next packet meets such a read, for the header or for the whole frame. */
  predicate EofOverUnread(size: nat, known: nat, unread: seq<Byte>) {
    var total := |unread|;
    HEADER_SIZE <= total &&
    (EofCompletes(size, known, total, HEADER_SIZE)
     || (U32(unread, 0) <= MAX_PACKET_SIZE &&
         EofCompletes(size, if known < HEADER_SIZE then size else known, total, HEADER_SIZE + U32(unread, 0))))
  }

  // ---------------------------------------------------------------------------------------
  // The buffer
  // ---------------------------------------------------------------------------------------

  class PacketReader {
    const r: Stream
    ghost const initialSize: nat
    var buf: array<Byte>
    var buffered: nat
    var offset: nat

    ghost predicate Valid()
      reads this
    {
      && offset <= buffered <= buf.Length && HEADER_SIZE <= buf.Length
      && buf.Length <= Max(initialSize, 2 * (HEADER_SIZE + MAX_PACKET_SIZE))
    }

    /** The unread bytes: those in the buffer, then those still in the stream. */
    ghost function Pending(): seq<Byte>
      requires Valid()
      reads this, buf, r
    {
      buf[offset..buffered] + r.rest
    }

    /** How many unread bytes are in the buffer or come before the final chunk. */
    ghost function Known(): nat
      requires Valid()
      reads this, buf, r
    {
      Max(buffered - offset, |Pending()| - r.final)
    }

    constructor (r: Stream, size: int)
      ensures Valid() && fresh(buf) && this.r == r
      ensures initialSize == if size < 8 then 65536 else size
      ensures Pending() == r.rest && Known() == Max(0, |r.rest| - r.final) && buf.Length == initialSize
    {
      var n := if size < HEADER_SIZE then DEFAULT_BUF_SIZE else size;
      this.r := r;
      initialSize := n;
      buf := new Byte[n](_ => 0);
      buffered := 0;
      offset := 0;
    }

    /** Moves the unread bytes to the front. */
    method Compact()
      requires Valid()
      modifies this`buffered, this`offset, buf
      ensures Valid() && offset == 0 && buffered == old(buffered - offset)
      ensures buf[..buffered] == old(buf[offset..buffered])
    {
      if offset > 0 {
        var available := buffered - offset;
        forall i | 0 <= i < available {
          buf[i] := buf[offset + i];
        }
        buffered := available;
        offset := 0;
      }
    }

    method Grow(n: nat)
      requires Valid() && n <= HEADER_SIZE + MAX_PACKET_SIZE
      modifies this`buf
      ensures Valid() && buf.Length == Room(old(buf.Length), n) && (buf == old(buf) || fresh(buf))
      ensures n <= buf.Length && (n > old(buf.Length) ==> buf.Length >= 2 * old(buf.Length))
      ensures buf[..buffered] == old(buf[..buffered])
    {
      if n > buf.Length {
        var newSize := buf.Length * 2;
        if newSize < n {
          newSize := n;
        }
        var newBuf := new Byte[newSize](_ => 0);
        forall i | 0 <= i < buffered {
          newBuf[i] := buf[i];
        }
        buf := newBuf;
      }
    }

    /** Reads until `n` bytes are in the buffer or a read reports EOF, even one that completes them. */
    method Fill(n: nat) returns (err: Option<Error>)
      requires Valid() && offset == 0 && 0 < n <= buf.Length
      modifies this`buffered, buf, r
      ensures Valid() && Pending() == old(Pending())
      ensures err == Answer(n, EofCompletes(buf.Length, old(Known()), |Pending()|, n))
      ensures err == Some(Eof) ==> r.rest == []
      ensures err.None? ==> n <= buffered && Known() == if old(Known()) < n then buf.Length else old(Known())
    {
      while buffered < n
        invariant Valid() && buffered - offset <= Known()
        invariant Pending() == old(Pending())
        invariant Known() == old(Known()) || (old(Known()) < n && Known() == buffered == buf.Length < |Pending()|)
        decreases |r.rest|
      {
        ghost var before, rest := buf[..buffered], r.rest;
        var nr, eof := r.Read(buf, buffered);
        assert buf[..buffered + nr] == before + rest[..nr];
        assert before + rest == (before + rest[..nr]) + rest[nr..];
        buffered := buffered + nr;
        if eof {
          return Some(if buffered > 0 && buffered < n then UnexpectedEof else Eof);
        }
      }
      err := None;
    }

    /** The answer to a request for `n` bytes: the error of a stream that ends before them, or EOF over them, or none. */
    ghost function Answer(n: nat, early: bool): Option<Error>
      requires Valid()
      reads this, buf, r
    {
      if |Pending()| < n then Some(if Pending() == [] then Eof else UnexpectedEof)
      else if early then Some(Eof)
      else None
    }

    /** Makes `n` bytes available from `offset` on, or says why the stream cannot supply them. */
    method EnsureBytes(n: nat) returns (err: Option<Error>)
      requires Valid() && 0 < n <= HEADER_SIZE + MAX_PACKET_SIZE
      modifies this, buf, r
      ensures Valid() && (buf == old(buf) || fresh(buf)) && buf.Length == Room(old(buf.Length), n)
      ensures Pending() == old(Pending())
      ensures err == Answer(n, EofCompletes(old(buf.Length), old(Known()), |Pending()|, n))
      ensures err == Some(Eof) ==> r.rest == []
      ensures err.None? ==> n <= buffered - offset && Known() == if old(Known()) < n then buf.Length else old(Known())
    {
      if buffered - offset >= n {
        return None;
      }
      Compact();
      Grow(n);
      err := Fill(n);
    }

    /** Brings the next frame into the buffer as a whole. */
    method EnsureFrame() returns (err: Option<Error>, length: nat)
      requires Valid()
      modifies this, buf, r
      ensures Valid() && (buf == old(buf) || fresh(buf))
      ensures Pending() == old(Pending())
      ensures EofOverUnread(old(buf.Length), old(Known()), Pending()) ==> err == Some(Eof) && Known() == |Pending()|
      ensures !EofOverUnread(old(buf.Length), old(Known()), Pending()) && err.Some? ==>
                Next(Pending()) == Parsed(Failed(err.value), Pending())
      ensures err.None? ==>
        && HEADER_SIZE + length <= buffered - offset
        && length == U32(Pending(), 0) <= MAX_PACKET_SIZE
    {
      hide U32;
      length := 0;
      err := EnsureBytes(HEADER_SIZE);
      if err.Some? {
        return;
      }
      length := U32(buf[offset..buffered], 0);
      SameHeader(buf[offset..buffered], r.rest);
      if length > MAX_PACKET_SIZE {
        err := Some(PacketTooLarge);
        return;
      }
      err := EnsureBytes(HEADER_SIZE + length);
    }

    /** The next packet as the plain parse of everything unread gives it, exactly unless the read that brings EOF
        completes the header or the frame. Then EOF is reported, no byte is lost, and since the stream has ended
        the next call agrees with the parse. */
    method ReadPacket() returns (result: ReadResult)
      requires Valid()
      modifies this, buf, r
      ensures Valid() && (buf == old(buf) || fresh(buf))
      ensures var early := EofOverUnread(old(buf.Length), old(Known()), old(Pending()));
              && (Parsed(result, Pending()) == Next(old(Pending())) <==> !early)
              && (early ==> Parsed(result, Pending()) == Parsed(Failed(Eof), old(Pending())) && Known() == |Pending()|)
    {
      hide U32, Next, EofOverUnread;
      EofIsNoPacket(Pending(), buf.Length, Known());
      var err, length := EnsureFrame();
      if err.Some? {
        return Failed(err.value);
      }
      FrameTaken(buf[..], offset, buffered, r.rest, length);
      var id := U32(buf[offset..buffered], 4);
      var totalSize := HEADER_SIZE + length;
      var data := buf[offset + HEADER_SIZE..offset + totalSize];
      offset := offset + totalSize;
      result := Got(Packet(id, data));
    }

    /** The same without a copy: the payload stays where it is in the buffer. */
    method ReadPacketNoCopy() returns (id: Word, start: nat, size: nat, err: Option<Error>)
      requires Valid()
      modifies this, buf, r
      ensures Valid() && (buf == old(buf) || fresh(buf))
      ensures start + size <= buf.Length
      ensures var result := if err.Some? then Failed(err.value) else Got(Packet(id, buf[start..start + size]));
              var early := EofOverUnread(old(buf.Length), old(Known()), old(Pending()));
              && (Parsed(result, Pending()) == Next(old(Pending())) <==> !early)
              && (early ==> Parsed(result, Pending()) == Parsed(Failed(Eof), old(Pending())) && Known() == |Pending()|)
    {
      hide U32, Next, EofOverUnread;
      id, start, size := 0, 0, 0;
      EofIsNoPacket(Pending(), buf.Length, Known());
      var length;
      err, length := EnsureFrame();
      if err.Some? {
        return;
      }
      FrameTaken(buf[..], offset, buffered, r.rest, length);
      id := U32(buf[offset..buffered], 4);
      start, size := offset + HEADER_SIZE, length;
      var totalSize := HEADER_SIZE + length;
      offset := offset + totalSize;
    }
  }

  /** Reads packets until there is an error. Nothing is lost or invented: the packets read and those still unread are
      the packets of the stream. A reader that reports EOF on its own is read to the very end. */
  method ReadAll(pr: PacketReader) returns (packets: seq<Packet>, end: Error)
    requires pr.Valid()
    modifies pr, pr.buf, pr.r
    ensures pr.Valid()
    ensures var left := ParseAll(pr.Pending());
            ParseAll(old(pr.Pending())) == Parse(packets + left.packets, left.end)
    ensures pr.r.final == 0 ==> Parse(packets, end) == ParseAll(old(pr.Pending()))
  {
    hide Next, PacketReader.Pending;
    packets := [];
    while true
      invariant pr.Valid() && (pr.buf == old(pr.buf) || fresh(pr.buf))
      invariant ParseAll(old(pr.Pending())) ==
                var left := ParseAll(pr.Pending()); Parse(packets + left.packets, left.end)
      decreases |pr.Pending()|
    {
      ghost var before := pr.Pending();
      var result := pr.ReadPacket();
      match result {
        case Failed(e) =>
          FailureConsumesNothing(before);
          return packets, e;
        case Got(p) =>
          PacketConsumes(before);
          packets := packets + [p];
      }
    }
  }

  /** When everything unread is known to come before EOF, as at the end of a stream, no call meets such a read. */
  lemma AllKnown(size: nat, unread: seq<Byte>)
    requires HEADER_SIZE <= size
    ensures !EofOverUnread(size, |unread|, unread)
  {}

  /** A whole frame that arrives together with EOF: the first call reports EOF, the second returns the packet. */
  method FrameWithEof(p: Packet) returns (first: ReadResult, second: ReadResult)
    requires |p.data| <= DEFAULT_BUF_SIZE - HEADER_SIZE
    ensures first == Failed(Eof) && second == Got(p)
  {
    hide Frame, PacketReader.Pending, U32;
    var bs := Frame(p);
    NextUndoesFrame(p, []);
    AllKnown(DEFAULT_BUF_SIZE, Frame(p));
    assert bs + [] == bs;
    var stream := new Stream(bs, |bs|);
    var pr := new PacketReader(stream, DEFAULT_BUF_SIZE);
    first := pr.ReadPacket();
    second := pr.ReadPacket();
  }

  lemma PacketConsumes(s: seq<Byte>)
    ensures Next(s).result.Got? ==> |Next(s).rest| < |s|
  {}

  lemma FailureConsumesNothing(s: seq<Byte>)
    ensures Next(s).result.Failed? ==> Next(s).rest == s && ParseAll(s) == Parse([], Next(s).result.error)
  {}

  /** Advancing the offset by a frame drops that frame from the unread bytes. */
  lemma Consume(buf: seq<Byte>, offset: nat, buffered: nat, rest: seq<Byte>, totalSize: nat)
    requires HEADER_SIZE <= totalSize && offset + totalSize <= buffered <= |buf|
    ensures var unread := buf[offset..buffered] + rest;
            && unread[HEADER_SIZE..totalSize] == buf[offset + HEADER_SIZE..offset + totalSize]
            && unread[totalSize..] == buf[offset + totalSize..buffered] + rest
  {}

  /** The parse of the unread bytes takes the frame that is in the buffer. */
  lemma FrameTaken(buf: seq<Byte>, offset: nat, buffered: nat, rest: seq<Byte>, length: nat)
    requires offset + HEADER_SIZE + length <= buffered <= |buf| && length <= MAX_PACKET_SIZE
    requires length == U32(buf[offset..buffered] + rest, 0)
    ensures var start, end := offset + HEADER_SIZE, offset + HEADER_SIZE + length;
            Next(buf[offset..buffered] + rest) ==
            Parsed(Got(Packet(U32(buf[offset..buffered], 4), buf[start..end])), buf[end..buffered] + rest)
  {
    hide U32;
    SameHeader(buf[offset..buffered], rest);
    Consume(buf, offset, buffered, rest, HEADER_SIZE + length);
  }

  /** The parse never reports EOF over unread bytes. */
  lemma EofIsNoPacket(unread: seq<Byte>, size: nat, known: nat)
    ensures EofOverUnread(size, known, unread) ==> Next(unread).result != Failed(Eof)
  {
    hide U32;
  }

  lemma SameHeader(buffered: seq<Byte>, rest: seq<Byte>)
    requires |buffered| >= HEADER_SIZE
    ensures U32(buffered, 0) == U32(buffered + rest, 0) && U32(buffered, 4) == U32(buffered + rest, 4)
  {}
}
