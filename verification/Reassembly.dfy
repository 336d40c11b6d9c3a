/** Fragmentation, order, duplication and overlap do not change what is parsed. */
module Reassembly {
  import opened Bytes
  import opened ClientHello
  import opened HelloCodec
  import opened FrameScan
  import opened FrameCodec
  import opened Assembler

  // ---------------------------------------------------------------------------------------
  // The collected map, position by position
  // ---------------------------------------------------------------------------------------

  predicate CoveredBy(fs: seq<CryptoFrame>, i: nat) {
    exists k | 0 <= k < |fs| :: Covers(fs[k], i)
  }

  lemma {:induction false} CollectSnoc(m: Received, fs: seq<CryptoFrame>, f: CryptoFrame)
    ensures Collect(m, fs + [f]) == Collect(m, fs) + BytesOf(f)
    decreases |fs|
  {
    if fs == [] {
      assert [f][1..] == [];
    } else {
      assert (fs + [f])[1..] == fs[1..] + [f];
      CollectSnoc(m + BytesOf(fs[0]), fs[1..], f);
    }
  }

  /** A position is present exactly when a frame covered it, and the last such frame decides its byte. */
  lemma {:induction false} CollectAt(fs: seq<CryptoFrame>, i: nat)
    ensures i in Collect(map[], fs) <==> i < BUFFER_SIZE && CoveredBy(fs, i)
    ensures i in Collect(map[], fs) ==> Collect(map[], fs)[i] == LastByte(fs, i)
    ensures !CoveredBy(fs, i) ==> LastByte(fs, i) == 0
    decreases |fs|
  {
    if fs != [] {
      var init, f := fs[..|fs| - 1], fs[|fs| - 1];
      CollectAt(init, i);
      assert fs == init + [f];
      CollectSnoc(map[], init, f);
      assert CoveredBy(fs, i) <==> CoveredBy(init, i) || Covers(f, i) by {
        if CoveredBy(init, i) {
          var k :| 0 <= k < |init| && Covers(init[k], i);
          assert Covers(fs[k], i);
        }
        if Covers(f, i) {
          assert Covers(fs[|init|], i);
        }
      }
    }
  }

  /** What the buffer holds at a position: zero until a byte arrives. */
  function BufferByte(m: Received, i: nat): Byte {
    if i in m then m[i] else 0
  }

  lemma BufferShowsArrived(a: CryptoAssembler, i: nat)
    requires a.Valid() && i < BUFFER_SIZE
    ensures a.buffer[i] == BufferByte(a.Arrived(), i)
  {
    hide BitIn;
  }

  /** Adding frames one by one leaves the bytes that reassembling the whole list gives, for any frames. */
  lemma IncrementalEqualsBatch(a: CryptoAssembler, fs: seq<CryptoFrame>, batch: seq<Byte>)
    requires a.Valid() && a.Arrived() == Collect(map[], fs)
    requires |batch| == Min(MaxEnd(fs), BATCH_LIMIT)
    requires forall i: nat | i < |batch| :: batch[i] == LastByte(fs, i)
    ensures var n := Min(MaxEnd(fs), BUFFER_SIZE);
            a.buffer[..n] == batch[..n]
  {
    hide BitIn, LastByte, MaxEnd;
    forall i: nat | i < Min(MaxEnd(fs), BUFFER_SIZE) ensures a.buffer[i] == batch[i] {
      CollectAt(fs, i);
      BufferShowsArrived(a, i);
    }
  }

  // ---------------------------------------------------------------------------------------
  // Order and repetition
  // ---------------------------------------------------------------------------------------

  ghost predicate Agree(fs: seq<CryptoFrame>) {
    forall f, g, i: nat | f in fs && g in fs && Covers(f, i) && Covers(g, i) ::
      f.data[i - f.offset] == g.data[i - g.offset]
  }

  lemma {:induction false} AgreedByte(fs: seq<CryptoFrame>, f: CryptoFrame, i: nat)
    requires Agree(fs) && f in fs && Covers(f, i)
    ensures LastByte(fs, i) == f.data[i - f.offset]
    decreases |fs|
  {
    var last, init := fs[|fs| - 1], fs[..|fs| - 1];
    if !Covers(last, i) {
      assert f in init;
      AgreedByte(init, f, i);
    }
  }

  lemma {:induction false} ExtentBounds(fs: seq<CryptoFrame>)
    ensures forall f | f in fs :: EndOf(f) <= Extent(fs)
    ensures Extent(fs) == 0 || exists f | f in fs :: EndOf(f) == Extent(fs)
    decreases |fs|
  {
    if fs != [] {
      ExtentBounds(fs[1..]);
      assert fs[0] in fs;
      assert forall f | f in fs[1..] :: f in fs;
    }
  }

  /** Frames that agree on overlaps give one state, in any order and however often each is repeated. */
  lemma OrderAndRepetitionDoNotMatter(fs: seq<CryptoFrame>, gs: seq<CryptoFrame>)
    requires Agree(fs) && forall f :: f in fs <==> f in gs
    ensures Collect(map[], fs) == Collect(map[], gs)
    ensures Extent(fs) == Extent(gs)
  {
    hide LastByte, Collect, Extent;
    ExtentBounds(fs);
    ExtentBounds(gs);
    forall i: nat ensures i in Collect(map[], fs) <==> i in Collect(map[], gs)
                  ensures i in Collect(map[], fs) ==> Collect(map[], fs)[i] == Collect(map[], gs)[i]
    {
      SamePosition(fs, gs, i);
    }
  }

  lemma SamePosition(fs: seq<CryptoFrame>, gs: seq<CryptoFrame>, i: nat)
    requires Agree(fs) && forall f :: f in fs <==> f in gs
    ensures i in Collect(map[], fs) <==> i in Collect(map[], gs)
    ensures i in Collect(map[], fs) ==> Collect(map[], fs)[i] == Collect(map[], gs)[i]
  {
    hide LastByte, Collect;
    CollectAt(fs, i);
    CollectAt(gs, i);
    if CoveredBy(fs, i) {
      var k :| 0 <= k < |fs| && Covers(fs[k], i);
      assert fs[k] in gs;
      var j :| 0 <= j < |gs| && gs[j] == fs[k];
      assert CoveredBy(gs, i);
      AgreedByte(fs, fs[k], i);
      AgreedByte(gs, fs[k], i);
    }
    if CoveredBy(gs, i) {
      var k :| 0 <= k < |gs| && Covers(gs[k], i);
      assert gs[k] in fs;
      var j :| 0 <= j < |fs| && fs[j] == gs[k];
      assert CoveredBy(fs, i);
    }
  }

  /** The represented map and maxOffset are the whole state: equal ones mean equal buffers and bitsets. */
  lemma StateIsDetermined(a: CryptoAssembler, b: CryptoAssembler, i: nat)
    requires a.Valid() && b.Valid() && a.Arrived() == b.Arrived() && i < BUFFER_SIZE
    ensures a.IsSet(i) == b.IsSet(i) && a.buffer[i] == b.buffer[i]
  {
    hide BitIn;
    assert a.IsSet(i) <==> i in a.Arrived();
    assert b.IsSet(i) <==> i in b.Arrived();
  }

  // ---------------------------------------------------------------------------------------
  // From frames of one stream to its ClientHello
  // ---------------------------------------------------------------------------------------

  /** The frame carries the bytes that `stream` has at its offset. */
  predicate Carries(f: CryptoFrame, stream: seq<Byte>) {
    f.offset + |f.data| <= |stream| && f.data == stream[f.offset..f.offset + |f.data|]
  }

  /** The part of `stream` that has arrived. */
  ghost predicate PartOf(m: Received, stream: seq<Byte>) {
    forall i | i in m :: i < |stream| && m[i] == stream[i]
  }

  lemma CollectIsPartOf(fs: seq<CryptoFrame>, stream: seq<Byte>)
    requires forall f | f in fs :: Carries(f, stream)
    ensures PartOf(Collect(map[], fs), stream)
  {
    hide LastByte, Collect, Carries, Agree;
    CarriersAgree(fs, stream);
    forall i | i in Collect(map[], fs) ensures i < |stream| && Collect(map[], fs)[i] == stream[i] {
      CollectAt(fs, i);
      var k :| 0 <= k < |fs| && Covers(fs[k], i);
      CarriedByte(fs[k], stream, i);
      AgreedByte(fs, fs[k], i);
    }
  }

  lemma CarriedByte(f: CryptoFrame, stream: seq<Byte>, i: nat)
    requires Carries(f, stream) && Covers(f, i)
    ensures i < |stream| && f.data[i - f.offset] == stream[i]
  {}

  lemma CarriersAgree(fs: seq<CryptoFrame>, stream: seq<Byte>)
    requires forall f | f in fs :: Carries(f, stream)
    ensures Agree(fs)
  {
    hide Carries;
    forall f, g, i: nat | f in fs && g in fs && Covers(f, i) && Covers(g, i)
      ensures f.data[i - f.offset] == g.data[i - g.offset]
    {
      CarriedByte(f, stream, i);
      CarriedByte(g, stream, i);
    }
  }

  /** For any stream, parsing what arrived waits for exactly the message and then parses exactly its bytes.
      A message longer than the buffer is never parsed. */
  lemma HelloInStream(m: Received, stream: seq<Byte>)
    requires |stream| >= 4 && PartOf(m, stream)
    ensures var total := 4 + U24(stream, 1);
            HelloIn(m) ==
            if total <= 8192 && total <= |stream| && HasPrefix(m, total)
            then ParseHello(stream[..total]) else None
  {
    hide U24;
    var total := 4 + U24(stream, 1);
    if HasPrefix(m, 4) {
      SameLength(m, stream);
      if total <= BUFFER_SIZE {
        if HasPrefix(m, total) {
          assert total - 1 in m;
          assert Prefix(m, total) == stream[..total];
        }
      } else if HasPrefix(m, BUFFER_SIZE) {
        CutShort(m, total);
      }
    }
  }

  lemma SameLength(m: Received, stream: seq<Byte>)
    requires |stream| >= 4 && PartOf(m, stream) && HasPrefix(m, 4)
    ensures U24(Prefix(m, 4), 1) == U24(stream, 1)
  {}

  lemma CutShort(m: Received, total: nat)
    requires HasPrefix(m, BUFFER_SIZE) && total > BUFFER_SIZE && total == 4 + U24(Prefix(m, 4), 1)
    ensures ParseHello(Prefix(m, BUFFER_SIZE)) == None
  {
    assert U24(Prefix(m, BUFFER_SIZE), 1) == U24(Prefix(m, 4), 1);
  }

  // ---------------------------------------------------------------------------------------
  // End to end: payloads in, ClientHello out
  // ---------------------------------------------------------------------------------------

  /** The frames of the payloads, in order of arrival. */
  function AllFrames(payloads: seq<seq<Byte>>): seq<CryptoFrame> {
    if payloads == [] then [] else FramesFrom(payloads[0], 0) + AllFrames(payloads[1..])
  }

  /** What the assembler knows after the payloads. */
  function AfterPayloads(m: Received, payloads: seq<seq<Byte>>): Received
    decreases |payloads|
  {
    if payloads == [] then m else AfterPayloads(Collect(m, FramesFrom(payloads[0], 0)), payloads[1..])
  }

  lemma {:induction false} CollectConcat(m: Received, fs: seq<CryptoFrame>, gs: seq<CryptoFrame>)
    ensures Collect(m, fs + gs) == Collect(Collect(m, fs), gs)
    decreases |fs|
  {
    if fs == [] {
      assert fs + gs == gs;
    } else {
      assert (fs + gs)[1..] == fs[1..] + gs;
      CollectConcat(m + BytesOf(fs[0]), fs[1..], gs);
    }
  }

  lemma {:induction false} AfterPayloadsCollects(m: Received, payloads: seq<seq<Byte>>)
    ensures AfterPayloads(m, payloads) == Collect(m, AllFrames(payloads))
    decreases |payloads|
  {
    if payloads != [] {
      var fs := FramesFrom(payloads[0], 0);
      AfterPayloadsCollects(Collect(m, fs), payloads[1..]);
      CollectConcat(m, fs, AllFrames(payloads[1..]));
    }
  }

  /** Payloads as a client sends them. */
  function EncodePayloads(ps: seq<seq<Frame>>): seq<seq<Byte>>
    requires forall p | p in ps :: AllFramesValid(p)
  {
    if ps == [] then [] else [EncodeFrames(ps[0])] + EncodePayloads(ps[1..])
  }

  function SentFrames(ps: seq<seq<Frame>>): seq<CryptoFrame> {
    if ps == [] then [] else CryptoOf(ps[0]) + SentFrames(ps[1..])
  }

  lemma {:induction false} AllFramesAreSent(ps: seq<seq<Frame>>)
    requires forall p | p in ps :: AllFramesValid(p)
    ensures AllFrames(EncodePayloads(ps)) == SentFrames(ps)
    decreases |ps|
  {
    if ps != [] {
      ExtractUndoesEncode(ps[0]);
      AllFramesAreSent(ps[1..]);
      assert EncodePayloads(ps)[1..] == EncodePayloads(ps[1..]);
    }
  }

  /** The payloads cover the first `n` bytes of the stream. */
  predicate Covered(ps: seq<seq<Frame>>, n: nat) {
    forall i: nat | i < n :: CoveredBy(SentFrames(ps), i)
  }

  /** However a client spreads the stream of a ClientHello over frames and payloads, whatever the order,
      the repetitions and the overlaps: nothing is parsed until every byte of the message has arrived,
      and from then on the message is parsed, with the server name and the protocols it was built from. */
  lemma ClientHelloEndToEnd(l: Layout, stream: seq<Byte>, payloads: seq<seq<Frame>>)
    requires l.Valid() && l.Encode() <= stream && |l.Encode()| <= BUFFER_SIZE
    requires forall p | p in payloads :: AllFramesValid(p)
    requires forall f | f in SentFrames(payloads) :: Carries(f, stream)
    ensures var n := |l.Encode()|;
            HelloIn(AfterPayloads(map[], EncodePayloads(payloads))) ==
            if Covered(payloads, n)
            then Some(Found(l.extensions, Hello(stream[..n], [], [])))
            else None
  {
    hide Layout.Encode, Collect, Layout.Valid, HelloIn, CoveredBy, Carries, PartOf, Found, SentFrames, EncodePayloads,
         AfterPayloads, AllFrames;
    var n := |l.Encode()|;
    var sent := SentFrames(payloads);
    AfterPayloadsCollects(map[], EncodePayloads(payloads));
    AllFramesAreSent(payloads);
    var m := Collect(map[], sent);
    CollectIsPartOf(sent, stream);
    HelloOfLayout(l, stream, m);
    forall i: nat | i < n ensures i in m <==> CoveredBy(sent, i) {
      CollectAt(sent, i);
    }
  }

  /** The same for the bytes that have arrived, however they came. */
  lemma HelloOfLayout(l: Layout, stream: seq<Byte>, m: Received)
    requires l.Valid() && l.Encode() <= stream && |l.Encode()| <= BUFFER_SIZE && PartOf(m, stream)
    ensures var n := |l.Encode()|;
            HelloIn(m) == if HasPrefix(m, n) then Some(Found(l.extensions, Hello(stream[..n], [], []))) else None
  {
    hide Layout.Encode, Layout.Valid, HelloIn, ParseHello, PartOf, HasPrefix, Found;
    LengthOfEncoded(l, stream);
    HelloInStream(m, stream);
    ParseUndoesEncode(l, []);
    assert l.Encode() + [] == l.Encode() == stream[..|l.Encode()|];
  }

  lemma LengthOfEncoded(l: Layout, stream: seq<Byte>)
    requires l.Valid() && l.Encode() <= stream
    ensures 4 <= |l.Encode()| <= |stream| && 4 + U24(stream, 1) == |l.Encode()|
  {
    hide PutU24, U24, Layout.Body, At;
    AtPrefix(stream, l.Encode());
    AtSplit(stream, 0, [1], PutU24(|l.Body()|) + l.Body());
    AtSplit(stream, 1, PutU24(|l.Body()|), l.Body());
    U24At(stream, 1, |l.Body()|);
  }

  /** A message that is cut off anywhere is refused. */
  lemma CutOffHelloIsRefused(l: Layout, n: nat)
    requires l.Valid() && n < |l.Encode()|
    ensures ParseHello(l.Encode()[..n]) == None
  {
    hide Layout.Encode, Layout.Valid, U24;
    LengthOfEncoded(l, l.Encode());
    if n >= 6 {
      SameU24(l.Encode(), n);
    }
  }

  lemma SameU24(data: seq<Byte>, n: nat)
    requires 4 <= n <= |data|
    ensures U24(data[..n], 1) == U24(data, 1)
  {}

  // ---------------------------------------------------------------------------------------
  // All Initial payloads of one connection id
  // ---------------------------------------------------------------------------------------

  /** The first payload of the assembler that the k-th payload meets: the one behind the last answer. */
  function Since(hellos: seq<Option<Hello>>, k: nat): (start: nat)
    requires k <= |hellos|
    ensures start <= k && (start > 0 ==> hellos[start - 1].Some?)
    ensures forall j | start <= j < k :: hellos[j].None?
  {
    if k == 0 || hellos[k - 1].Some? then k else Since(hellos, k - 1)
  }

  /** An answer that became a session. */
  ghost predicate AcceptedBefore(hellos: seq<Option<Hello>>, accepts: seq<bool>, k: nat)
    requires k <= |hellos| && k <= |accepts|
  {
    exists j | 0 <= j < k :: hellos[j].Some? && accepts[j]
  }

  /** The answers to payloads of one connection id: once there is a session none, before that the ClientHello in the
      payloads since the last answer, if it is there. */
  ghost predicate Answered(payloads: seq<seq<Byte>>, accepts: seq<bool>, hellos: seq<Option<Hello>>) {
    && |hellos| == |payloads| == |accepts|
    && forall k | 0 <= k < |payloads| :: hellos[k] == AnswerTo(payloads, accepts, hellos, k)
  }

  ghost function AnswerTo(payloads: seq<seq<Byte>>, accepts: seq<bool>, hellos: seq<Option<Hello>>, k: nat): Option<Hello>
    requires k <= |hellos| && k < |payloads| == |accepts|
  {
    if AcceptedBefore(hellos, accepts, k) then None
    else HelloIn(AfterPayloads(map[], payloads[Since(hellos, k)..k + 1]))
  }

  lemma AnsweredNone(payloads: seq<seq<Byte>>, accepts: seq<bool>, hellos: seq<Option<Hello>>, k: nat)
    requires Answered(payloads, accepts, hellos) && k < |hellos| && AcceptedBefore(hellos, accepts, k)
    ensures hellos[k] == None
  {}

  lemma {:induction false} AfterPayloadsSnoc(m: Received, payloads: seq<seq<Byte>>, p: seq<Byte>)
    ensures AfterPayloads(m, payloads + [p]) == Collect(AfterPayloads(m, payloads), FramesFrom(p, 0))
    decreases |payloads|
  {
    hide Collect, FramesFrom;
    if payloads == [] {
      assert [p][1..] == [];
    } else {
      assert (payloads + [p])[1..] == payloads[1..] + [p];
      AfterPayloadsSnoc(Collect(m, FramesFrom(payloads[0], 0)), payloads[1..], p);
    }
  }

  /** Later answers do not change what was said about earlier ones. */
  lemma {:induction false} SinceSnoc(hellos: seq<Option<Hello>>, h: Option<Hello>, k: nat)
    requires k <= |hellos|
    ensures Since(hellos + [h], k) == Since(hellos, k)
    decreases k
  {
    if k > 0 && hellos[k - 1].None? {
      SinceSnoc(hellos, h, k - 1);
    }
  }

  lemma AnswerStays(payloads: seq<seq<Byte>>, accepts: seq<bool>, hellos: seq<Option<Hello>>, h: Option<Hello>,
                    n: nat, m: nat, k: nat)
    requires k < n <= |payloads| == |accepts| && k < m <= |payloads| && k <= |hellos|
    ensures AnswerTo(payloads[..m], accepts[..m], hellos + [h], k) == AnswerTo(payloads[..n], accepts[..n], hellos, k)
  {
    hide HelloIn, AfterPayloads;
    SinceSnoc(hellos, h, k);
    var start := Since(hellos, k);
    assert payloads[..m][start..k + 1] == payloads[..n][start..k + 1];
    assert AcceptedBefore(hellos + [h], accepts[..m], k) <==> AcceptedBefore(hellos, accepts[..n], k);
  }

  lemma AnsweredSnoc(payloads: seq<seq<Byte>>, accepts: seq<bool>, hellos: seq<Option<Hello>>, k: nat, h: Option<Hello>)
    requires k < |payloads| == |accepts| && Answered(payloads[..k], accepts[..k], hellos)
    requires h == AnswerTo(payloads, accepts, hellos, k)
    ensures Answered(payloads[..k + 1], accepts[..k + 1], hellos + [h])
  {
    hide AnswerTo;
    var hs := hellos + [h];
    forall j | 0 <= j <= k ensures hs[j] == AnswerTo(payloads[..k + 1], accepts[..k + 1], hs, j) {
      if j < k {
        AnswerStays(payloads, accepts, hellos, h, k, k + 1, j);
      } else {
        assert payloads[..|payloads|] == payloads && accepts[..|payloads|] == accepts;
        AnswerStays(payloads, accepts, hellos, h, |payloads|, k + 1, j);
      }
    }
  }

  /** The proxy over all Initial payloads of one connection id. An answer deletes the assembler; a connection that its
      chain accepts is a session from then on, any other starts again with a new assembler. */
  method HandlePayloads(payloads: seq<seq<Byte>>, accepts: seq<bool>) returns (hellos: seq<Option<Hello>>)
    requires |accepts| == |payloads|
    ensures Answered(payloads, accepts, hellos)
  {
    hide CryptoAssembler.Arrived, CryptoAssembler.IsSet, HasBit, BitIn, HelloIn, AfterPayloads, Collect, FramesFrom, Answered,
         Since;
    var a := new CryptoAssembler();
    var live := false;
    hellos := [];
    NothingAnswered(payloads, accepts);
    var i := 0;
    while i < |payloads|
      invariant 0 <= i <= |payloads| && |hellos| == i
      invariant fresh(a) && fresh(a.buffer) && fresh(a.written) && a.Valid() && !a.complete
      invariant live == AcceptedBefore(hellos, accepts, i)
      invariant !live ==> a.Arrived() == AfterPayloads(map[], payloads[Since(hellos, i)..i])
      invariant Answered(payloads[..i], accepts[..i], hellos)
    {
      var hello := None;
      if !live {
        ghost var seen := payloads[Since(hellos, i)..i];
        assert payloads[Since(hellos, i)..i + 1] == seen + [payloads[i]];
        AfterPayloadsSnoc(map[], seen, payloads[i]);
        hello := a.HandlePayload(payloads[i]);
      }
      AnsweredSnoc(payloads, accepts, hellos, i, hello);
      NextSince(payloads, hellos, hello);
      hellos := hellos + [hello];
      if hello.Some? {
        a := new CryptoAssembler();
        live := accepts[i];
      }
      i := i + 1;
    }
    assert payloads[..i] == payloads && accepts[..i] == accepts;
  }

  lemma NothingAnswered(payloads: seq<seq<Byte>>, accepts: seq<bool>)
    ensures Answered(payloads[..0], accepts[..0], []) && AfterPayloads(map[], payloads[Since([], 0)..0]) == map[]
  {}

  lemma NextSince(payloads: seq<seq<Byte>>, hellos: seq<Option<Hello>>, h: Option<Hello>)
    requires |hellos| < |payloads|
    ensures var k := |hellos| + 1;
            if h.Some? then Since(hellos + [h], k) == k && AfterPayloads(map[], payloads[k..k]) == map[]
            else Since(hellos + [h], k) == Since(hellos, |hellos|)
  {
    hide AfterPayloads;
    SinceSnoc(hellos, h, |hellos|);
    assert payloads[|hellos| + 1..|hellos| + 1] == [];
    NoPayloads();
  }

  lemma NoPayloads()
    ensures AfterPayloads(map[], []) == map[]
  {}

  lemma {:induction false} SentFramesConcat(ps: seq<seq<Frame>>, qs: seq<seq<Frame>>)
    ensures SentFrames(ps + qs) == SentFrames(ps) + SentFrames(qs)
    decreases |ps|
  {
    if ps == [] {
      assert ps + qs == qs;
    } else {
      assert (ps + qs)[1..] == ps[1..] + qs;
      SentFramesConcat(ps[1..], qs);
    }
  }

  lemma {:induction false} EncodePrefix(ps: seq<seq<Frame>>, k: nat)
    requires k <= |ps| && forall p | p in ps :: AllFramesValid(p)
    ensures |EncodePayloads(ps)| == |ps|
    ensures forall p | p in ps[..k] :: AllFramesValid(p)
    ensures EncodePayloads(ps)[..k] == EncodePayloads(ps[..k])
    decreases |ps|
  {
    hide EncodeFrames, AllFramesValid;
    if ps != [] {
      EncodePrefix(ps[1..], if k == 0 then 0 else k - 1);
      if k > 0 {
        assert ps[..k][1..] == ps[1..][..k - 1];
      }
    }
  }

  lemma CoverGrows(ps: seq<seq<Frame>>, j: nat, k: nat, n: nat)
    requires j <= k <= |ps| && Covered(ps[..j], n)
    ensures Covered(ps[..k], n)
  {
    hide SentFrames;
    assert ps[..k] == ps[..j] + ps[j..k];
    SentFramesConcat(ps[..j], ps[j..k]);
    forall i: nat | i < n ensures CoveredBy(SentFrames(ps[..k]), i) {
      var fs := SentFrames(ps[..j]);
      assert CoveredBy(fs, i);
      var x :| 0 <= x < |fs| && Covers(fs[x], i);
      assert SentFrames(ps[..k])[x] == fs[x];
    }
  }

  lemma EncodeSlice(ps: seq<seq<Frame>>, j: nat, k: nat)
    requires j <= k <= |ps| && forall p | p in ps :: AllFramesValid(p)
    ensures |EncodePayloads(ps)| == |ps|
    ensures forall p | p in ps[j..k] :: AllFramesValid(p)
    ensures EncodePayloads(ps)[j..k] == EncodePayloads(ps[j..k])
    decreases |ps|
  {
    hide EncodeFrames, AllFramesValid;
    EncodePrefix(ps, k);
    if j > 0 {
      assert ps[1..][j - 1..k - 1] == ps[j..k];
      EncodeSlice(ps[1..], j - 1, k - 1);
      assert EncodePayloads(ps)[1..] == EncodePayloads(ps[1..]);
    } else {
      assert ps[0..k] == ps[..k] && EncodePayloads(ps)[0..k] == EncodePayloads(ps)[..k];
    }
  }

  lemma CarriedSlice(ps: seq<seq<Frame>>, j: nat, k: nat, stream: seq<Byte>)
    requires j <= k <= |ps| && forall f | f in SentFrames(ps) :: Carries(f, stream)
    ensures forall f | f in SentFrames(ps[j..k]) :: Carries(f, stream)
  {
    hide SentFrames, Carries;
    assert ps == ps[..j] + (ps[j..k] + ps[k..]);
    SentFramesConcat(ps[..j], ps[j..k] + ps[k..]);
    SentFramesConcat(ps[j..k], ps[k..]);
  }

  /** Whatever the chain makes of it: as long as there is no session, a payload is answered exactly when the payloads since
      the last answer, up to and including it, cover the message, and those before it do not. */
  lemma AnsweredAtEveryCover(l: Layout, stream: seq<Byte>, ps: seq<seq<Frame>>, accepts: seq<bool>,
                             hellos: seq<Option<Hello>>, k: nat)
    requires l.Valid() && l.Encode() <= stream && |l.Encode()| <= BUFFER_SIZE && k < |ps|
    requires forall p | p in ps :: AllFramesValid(p)
    requires forall f | f in SentFrames(ps) :: Carries(f, stream)
    requires Answered(EncodePayloads(ps), accepts, hellos) && |ps| == |hellos|
    ensures |accepts| == |hellos|
    ensures !AcceptedBefore(hellos, accepts, k) ==>
      var n, start := |l.Encode()|, Since(hellos, k);
      && hellos[k] == (if Covered(ps[start..k + 1], n) then Some(Found(l.extensions, Hello(stream[..n], [], []))) else None)
      && forall j | start < j <= k :: !Covered(ps[start..j], n)
  {
    hide Layout.Encode, Layout.Valid, EncodePayloads, SentFrames, Carries, AllFramesValid, Found, Covered, Answered, Since,
         AcceptedBefore;
    AnsweredAtCover(l, stream, ps, accepts, hellos, k);
    if !AcceptedBefore(hellos, accepts, k) {
      var start := Since(hellos, k);
      forall j | start < j <= k ensures !Covered(ps[start..j], |l.Encode()|) {
        SinceEarlier(hellos, j - 1, k);
        AcceptedEarlier(hellos, accepts, j - 1, k);
        NotCoveredUnanswered(l, stream, ps, accepts, hellos, j - 1);
      }
    }
  }

  lemma NotCoveredUnanswered(l: Layout, stream: seq<Byte>, ps: seq<seq<Frame>>, accepts: seq<bool>,
                             hellos: seq<Option<Hello>>, k: nat)
    requires l.Valid() && l.Encode() <= stream && |l.Encode()| <= BUFFER_SIZE && k < |ps|
    requires forall p | p in ps :: AllFramesValid(p)
    requires forall f | f in SentFrames(ps) :: Carries(f, stream)
    requires Answered(EncodePayloads(ps), accepts, hellos) && |ps| == |hellos| == |accepts|
    requires hellos[k].None? && !AcceptedBefore(hellos, accepts, k)
    ensures !Covered(ps[Since(hellos, k)..k + 1], |l.Encode()|)
  {
    hide Layout.Encode, Layout.Valid, EncodePayloads, SentFrames, Carries, AllFramesValid, Found, Covered, Answered, Since,
         AcceptedBefore;
    AnsweredAtCover(l, stream, ps, accepts, hellos, k);
  }

  lemma AnsweredAtCover(l: Layout, stream: seq<Byte>, ps: seq<seq<Frame>>, accepts: seq<bool>,
                        hellos: seq<Option<Hello>>, k: nat)
    requires l.Valid() && l.Encode() <= stream && |l.Encode()| <= BUFFER_SIZE && k < |ps|
    requires forall p | p in ps :: AllFramesValid(p)
    requires forall f | f in SentFrames(ps) :: Carries(f, stream)
    requires Answered(EncodePayloads(ps), accepts, hellos) && |ps| == |hellos|
    ensures |accepts| == |hellos|
    ensures !AcceptedBefore(hellos, accepts, k) ==>
      var n, start := |l.Encode()|, Since(hellos, k);
      hellos[k] == if Covered(ps[start..k + 1], n) then Some(Found(l.extensions, Hello(stream[..n], [], []))) else None
  {
    hide Layout.Encode, Layout.Valid, HelloIn, AfterPayloads, EncodePayloads, SentFrames, Carries, AllFramesValid, Found,
         Covered, Since, AcceptedBefore;
    CoverAt(l, stream, ps, Since(hellos, k), k);
  }

  lemma AcceptedEarlier(hellos: seq<Option<Hello>>, accepts: seq<bool>, j: nat, k: nat)
    requires j <= k <= |hellos| && k <= |accepts| && !AcceptedBefore(hellos, accepts, k)
    ensures !AcceptedBefore(hellos, accepts, j)
  {}

  lemma {:induction false} SinceEarlier(hellos: seq<Option<Hello>>, j: nat, k: nat)
    requires k <= |hellos| && Since(hellos, k) <= j <= k
    ensures Since(hellos, j) == Since(hellos, k)
    decreases k
  {
    if j < k {
      SinceEarlier(hellos, j, k - 1);
    }
  }

  lemma CoverAt(l: Layout, stream: seq<Byte>, ps: seq<seq<Frame>>, start: nat, k: nat)
    requires l.Valid() && l.Encode() <= stream && |l.Encode()| <= BUFFER_SIZE && start <= k < |ps|
    requires forall p | p in ps :: AllFramesValid(p)
    requires forall f | f in SentFrames(ps) :: Carries(f, stream)
    ensures |EncodePayloads(ps)| == |ps|
    ensures HelloIn(AfterPayloads(map[], EncodePayloads(ps)[start..k + 1])) ==
            if Covered(ps[start..k + 1], |l.Encode()|)
            then Some(Found(l.extensions, Hello(stream[..|l.Encode()|], [], []))) else None
  {
    hide Layout.Encode, Layout.Valid, HelloIn, AfterPayloads, EncodePayloads, SentFrames, Carries, AllFramesValid, Found,
         CoveredBy;
    EncodeSlice(ps, start, k + 1);
    CarriedSlice(ps, start, k + 1, stream);
    ClientHelloEndToEnd(l, stream, ps[start..k + 1]);
  }

  /** If the chain accepts the connection, exactly the first payload that completes the cover is answered, and the later
      ones go to the session. */
  lemma HelloComesExactlyOnce(l: Layout, stream: seq<Byte>, ps: seq<seq<Frame>>, accepts: seq<bool>,
                              hellos: seq<Option<Hello>>, k: nat)
    requires l.Valid() && l.Encode() <= stream && |l.Encode()| <= BUFFER_SIZE && k < |ps|
    requires forall p | p in ps :: AllFramesValid(p)
    requires forall f | f in SentFrames(ps) :: Carries(f, stream)
    requires Answered(EncodePayloads(ps), accepts, hellos) && |ps| == |hellos|
    requires forall j | 0 <= j < |hellos| && hellos[j].Some? :: accepts[j]
    ensures var n := |l.Encode()|;
            hellos[k] == if Covered(ps[..k + 1], n) && !Covered(ps[..k], n)
                         then Some(Found(l.extensions, Hello(stream[..n], [], []))) else None
  {
    hide Layout.Encode, Layout.Valid, EncodePayloads, SentFrames, Carries, AllFramesValid, Found, Covered, Answered, Since;
    var n := |l.Encode()|;
    AnsweredAtEveryCover(l, stream, ps, accepts, hellos, k);
    if AcceptedBefore(hellos, accepts, k) {
      var first := FirstAnswer(hellos, k);
      AnsweredAtEveryCover(l, stream, ps, accepts, hellos, first);
      assert ps[0..first + 1] == ps[..first + 1];
      CoverGrows(ps, first + 1, k, n);
      AnsweredNone(EncodePayloads(ps), accepts, hellos, k);
    } else {
      assert Since(hellos, k) == 0;
      assert ps[0..k + 1] == ps[..k + 1] && ps[0..k] == ps[..k];
      if k == 0 {
        NothingCovered(l);
        assert ps[..0] == [];
      }
    }
  }

  /** The first answer of all. */
  lemma FirstAnswer(hellos: seq<Option<Hello>>, k: nat) returns (first: nat)
    requires k <= |hellos| && exists j | 0 <= j < k :: hellos[j].Some?
    ensures first < k && hellos[first].Some? && Since(hellos, first) == 0
    ensures forall j | 0 <= j < first :: hellos[j].None?
  {
    first := 0;
    while hellos[first].None?
      invariant first < k && forall j | 0 <= j < first :: hellos[j].None?
      invariant exists j | 0 <= j < k :: hellos[j].Some?
      decreases k - first
    {
      first := first + 1;
    }
  }

  lemma NothingCovered(l: Layout)
    requires l.Valid()
    ensures !Covered([], |l.Encode()|)
  {
    hide Layout.Encode;
    LengthOfEncoded(l, l.Encode());
    assert !CoveredBy(SentFrames([]), 0);
  }
}
