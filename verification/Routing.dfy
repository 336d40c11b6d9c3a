/** Which session a packet belongs to. */
module Routing {
  import opened Bytes
  import opened SessionTable

  datatype PacketType = Unknown | Initial | ZeroRtt | Handshake | Retry | ShortHeader

  function ClassifyPacket(packet: seq<Byte>): PacketType {
    if |packet| < 1 then Unknown
    else if packet[0] < 0x80 then ShortHeader
    else
      match packet[0] as int / 16 % 4
      case 0 => Initial
      case 1 => ZeroRtt
      case 2 => Handshake
      case _ => Retry
  }

  /** The destination connection id; a short header needs its length from elsewhere. */
  function ExtractDcid(packet: seq<Byte>, dcidLen: nat): (r: Option<Cid>)
    ensures r.Some? ==> |packet| > 0
  {
    if |packet| < 1 then None
    else if packet[0] < 0x80 then
      if dcidLen <= 0 || |packet| < 1 + dcidLen then None else Some(packet[1..1 + dcidLen])
    else if |packet| < 6 then None
    else
      var len := packet[5] as int;
      if |packet| < 6 + len then None else Some(packet[6..6 + len])
  }

  /** The header form bit and the two type bits decide, the fixed bit and the low bits do not matter (section 17.2 of
      RFC 9000). */
  lemma TypeOfFirstByte(fixed: nat, typ: nat, low: nat, short: Byte, rest: seq<Byte>)
    requires fixed < 2 && typ < 4 && low < 16 && short < 0x80
    ensures ClassifyPacket([0x80 + 0x40 * fixed + 0x10 * typ + low] + rest) == [Initial, ZeroRtt, Handshake, Retry][typ]
    ensures ClassifyPacket([short] + rest) == ShortHeader
    ensures ClassifyPacket([]) == Unknown
  {}

  /** A long header carries the id behind its length, a short one as many bytes as the caller says. */
  lemma DcidOfHeader(first: Byte, version: seq<Byte>, dcid: Cid, rest: seq<Byte>, dcidLen: nat)
    requires |version| == 4 && |dcid| < 0x100
    ensures first >= 0x80 ==>
              ExtractDcid([first] + version + [|dcid| as Byte] + dcid + rest, dcidLen) == Some(dcid)
    ensures first < 0x80 && dcid != [] ==> ExtractDcid([first] + dcid + rest, |dcid|) == Some(dcid)
  {
    var long := [first] + version + [|dcid| as Byte] + dcid + rest;
    assert long[0] == first && long[5] == |dcid| && long[6..6 + |dcid|] == dcid;
    var short := [first] + dcid + rest;
    assert short[0] == first && short[1..1 + |dcid|] == dcid;
  }

  /** There is no id exactly when the packet ends before it. */
  lemma NoDcidExactlyWhen(packet: seq<Byte>, dcidLen: nat)
    ensures ExtractDcid(packet, dcidLen).None? <==>
            if packet == [] then true
            else if packet[0] < 0x80 then dcidLen == 0 || |packet| <= dcidLen
            else |packet| <= 5 || |packet| - 6 < packet[5]
  {}

  /** A found session's key, and the connection id that the search settled on. */
  datatype Found = Found(session: Option<Cid>, dcid: Option<Cid>)

  // ---------------------------------------------------------------------------------------
  // The naive search
  // ---------------------------------------------------------------------------------------

  /** The live session that owns a connection id: its original id before an alias. */
  function OwnerOf(ix: Index, cid: Cid): (r: Option<Cid>)
    ensures r.Some? ==> r.value in ix.sessions
  {
    if cid in ix.sessions then Some(cid)
    else if cid in ix.aliases && ix.aliases[cid] in ix.sessions then Some(ix.aliases[cid])
    else None
  }

  function ByAddress(ix: Index, addr: Addr): (r: Option<Cid>)
    ensures r.Some? ==> r.value in ix.sessions
  {
    if addr in ix.clients && ix.clients[addr] in ix.sessions then Some(ix.clients[addr]) else None
  }

  /** Of all prefixes of `tail` with 1 to n bytes, the longest that somebody owns. */
  function LongestOwned(ix: Index, tail: seq<Byte>, n: nat): (r: Option<Cid>)
    requires n <= |tail|
    ensures r.Some? ==> OwnerOf(ix, r.value).Some?
  {
    if n == 0 then None
    else if OwnerOf(ix, tail[..n]).Some? then Some(tail[..n])
    else LongestOwned(ix, tail, n - 1)
  }

  /** The search by definition: a short header goes to the owner of the longest live id it starts with, a long
      header to the owner of the id it carries; otherwise the sender's address decides. */
  function Find(ix: Index, packet: seq<Byte>, addr: Addr): (f: Found)
    ensures f.session.Some? ==> f.session.value in ix.sessions
  {
    if ClassifyPacket(packet) == ShortHeader then
      var cid := LongestOwned(ix, packet[1..], |packet| - 1);
      if cid.Some? then Found(OwnerOf(ix, cid.value), cid) else Found(ByAddress(ix, addr), None)
    else
      var cid := ExtractDcid(packet, 0);
      if cid.None? then Found(None, None)
      else if OwnerOf(ix, cid.value).Some? then Found(OwnerOf(ix, cid.value), cid)
      else Found(ByAddress(ix, addr), cid)
  }

  /** `cid` is a live id that the packet's bytes after the first start with, and no longer one is. */
  ghost predicate IsLongestLiveId(ix: Index, tail: seq<Byte>, cid: Cid) {
    && 0 < |cid| && cid <= tail && OwnerOf(ix, cid).Some?
    && forall other: Cid | |other| > |cid| && other <= tail :: OwnerOf(ix, other).None?
  }

  lemma {:induction false} LongestOwnedIsLongest(ix: Index, tail: seq<Byte>, n: nat)
    requires n <= |tail|
    requires forall other: Cid | |other| > n && other <= tail :: OwnerOf(ix, other).None?
    ensures match LongestOwned(ix, tail, n)
            case Some(cid) => IsLongestLiveId(ix, tail, cid)
            case None => forall other: Cid | 0 < |other| && other <= tail :: OwnerOf(ix, other).None?
    decreases n
  {
    if n > 0 && OwnerOf(ix, tail[..n]).None? {
      forall other: Cid | |other| > n - 1 && other <= tail ensures OwnerOf(ix, other).None? {
        if |other| == n {
          assert other == tail[..n];
        }
      }
      LongestOwnedIsLongest(ix, tail, n - 1);
    }
  }

  /** What the search returns for a short header. */
  lemma ShortHeaderGoesToLongestLiveId(ix: Index, packet: seq<Byte>, addr: Addr)
    requires ClassifyPacket(packet) == ShortHeader
    ensures var f := Find(ix, packet, addr);
            match f.dcid
            case Some(cid) => IsLongestLiveId(ix, packet[1..], cid) && f.session == OwnerOf(ix, cid)
            case None =>
              && (forall cid: Cid | 0 < |cid| && cid <= packet[1..] :: OwnerOf(ix, cid).None?)
              && f.session == ByAddress(ix, addr)
  {
    var tail := packet[1..];
    assert forall other: Cid | |other| > |tail| :: !(other <= tail);
    LongestOwnedIsLongest(ix, tail, |tail|);
  }

  /** A long header goes to the owner of the id it carries, else to the address's session. */
  lemma LongHeaderGoesToOwner(ix: Index, first: Byte, version: seq<Byte>, dcid: Cid, rest: seq<Byte>, addr: Addr)
    requires first >= 0x80 && |version| == 4 && |dcid| < 0x100
    ensures Find(ix, [first] + version + [|dcid| as Byte] + dcid + rest, addr) ==
            Found(if OwnerOf(ix, dcid).Some? then OwnerOf(ix, dcid) else ByAddress(ix, addr), Some(dcid))
  {
    hide OwnerOf, ByAddress, LongestOwned;
    DcidOfHeader(first, version, dcid, rest, 0);
  }

  /** A packet for which no session is found carries an id that nobody owns, from an address that nobody uses. */
  lemma NothingFound(ix: Index, packet: seq<Byte>, addr: Addr)
    requires ix.Inv() && Find(ix, packet, addr).session.None?
    requires ClassifyPacket(packet) == Initial && ExtractDcid(packet, 0).Some?
    ensures var cid := ExtractDcid(packet, 0).value;
            cid !in ix.sessions && cid !in ix.aliases && addr !in ix.clients
  {}

  // ---------------------------------------------------------------------------------------
  // Trying the registered lengths only
  // ---------------------------------------------------------------------------------------

  /** Strictly descending and exactly the elements of `lengths`. */
  ghost predicate Descends(ls: seq<nat>, lengths: set<nat>) {
    && (forall i, j | 0 <= i < j < |ls| :: ls[i] > ls[j])
    && (forall l :: l in ls <==> l in lengths)
  }

  lemma OwnedLengthIsRegistered(ix: Index, cid: Cid)
    requires ix.Inv() && OwnerOf(ix, cid).Some?
    ensures |cid| in ix.lengths
  {}

  /** Nothing is owned at the lengths between two registered ones, so skipping them changes nothing. */
  lemma {:induction false} SkipUnregistered(ix: Index, tail: seq<Byte>, high: nat, low: nat)
    requires ix.Inv() && low <= high <= |tail|
    requires forall l | low < l <= high :: l !in ix.lengths
    ensures LongestOwned(ix, tail, high) == LongestOwned(ix, tail, low)
    decreases high
  {
    if low < high {
      if OwnerOf(ix, tail[..high]).Some? {
        OwnedLengthIsRegistered(ix, tail[..high]);
      }
      SkipUnregistered(ix, tail, high - 1, low);
    }
  }

  // ---------------------------------------------------------------------------------------
  // What a packet does to the table
  // ---------------------------------------------------------------------------------------

  /** What became of the ClientHello that a packet completes, if it completes one: its chain reserved `slots` slots
      and handled the connection or not. */
  datatype Verdict = NoHello | Refused(slots: nat) | Accepted(slots: nat, victims: seq<Cid>)

  /** A packet of a known session may move it to a new address, if migration is allowed; an Initial packet
      of no session may open one, if it completes a ClientHello that the chain handles. */
  function AfterPacket(t: Table, packet: seq<Byte>, addr: Addr, migrate: bool, verdict: Verdict): Table {
    if packet == [] then t
    else
      var f := Find(t.index, packet, addr);
      if f.session.Some? then
        if migrate && t.index.sessions[f.session.value].addr != addr then t.Migrate(f.session.value, addr) else t
      else if Opens(t.index, packet, addr) then
        match verdict
        case NoHello => t
        case Refused(slots) => t.Reject(slots)
        case Accepted(slots, victims) => t.Connect(ExtractDcid(packet, 0).value, addr, slots, victims)
      else t
  }

  predicate Opens(ix: Index, packet: seq<Byte>, addr: Addr) {
    Find(ix, packet, addr).session.None? && ClassifyPacket(packet) == Initial && ExtractDcid(packet, 0).Some?
  }

  /** A packet takes the table at most one event further, so whatever holds over all runs holds for packets. */
  lemma PacketIsAnEvent(t: Table, packet: seq<Byte>, addr: Addr, migrate: bool, verdict: Verdict)
    requires t.Inv()
    requires Opens(t.index, packet, addr) && verdict.Accepted? ==> t.MakesRoom(verdict.slots, verdict.victims)
    ensures var after := AfterPacket(t, packet, addr, migrate, verdict);
            after == t || exists e :: Enabled(t, e) && after == Apply(t, e)
  {
    hide Find, ExtractDcid, ClassifyPacket, Table.Connect, Table.Migrate, Table.MakesRoom, Index.Inv, Chains.Inv;
    if packet != [] {
      var f := Find(t.index, packet, addr);
      if f.session.Some? {
        assert Enabled(t, Migrated(f.session.value, addr));
      } else if Opens(t.index, packet, addr) {
        match verdict {
          case NoHello =>
          case Refused(slots) => assert Enabled(t, Rejected(slots));
          case Accepted(slots, victims) =>
            NothingFound(t.index, packet, addr);
            var e := Connected(ExtractDcid(packet, 0).value, addr, slots, victims);
            assert Enabled(t, e) && Apply(t, e) == AfterPacket(t, packet, addr, migrate, verdict);
        }
      }
    }
  }

  lemma PacketKeepsInv(t: Table, packet: seq<Byte>, addr: Addr, migrate: bool, verdict: Verdict)
    requires t.Inv()
    requires Opens(t.index, packet, addr) && verdict.Accepted? ==> t.MakesRoom(verdict.slots, verdict.victims)
    ensures AfterPacket(t, packet, addr, migrate, verdict).Inv()
  {
    hide AfterPacket, Opens, Enabled, Apply, Table.Inv, Table.MakesRoom;
    PacketIsAnEvent(t, packet, addr, migrate, verdict);
    var after := AfterPacket(t, packet, addr, migrate, verdict);
    if after != t {
      var e :| Enabled(t, e) && after == Apply(t, e);
      StepKeepsInv(t, e);
    }
  }

  /** What a packet does, case by case: it moves a session or leaves it, or a new connection joins or is turned away. */
  lemma PacketEffect(t: Table, packet: seq<Byte>, addr: Addr, migrate: bool, verdict: Verdict)
    requires t.Inv()
    requires Opens(t.index, packet, addr) && verdict.Accepted? ==> t.MakesRoom(verdict.slots, verdict.victims)
    ensures var after := AfterPacket(t, packet, addr, migrate, verdict);
            var f := Find(t.index, packet, addr);
            if f.session.Some? && migrate && t.index.sessions[f.session.value].addr != addr then
              Moved(t, after, f.session.value, addr)
            else if f.session.None? && NewConnection(packet) && verdict.Accepted? then
              Joined(t, after, ExtractDcid(packet, 0).value, addr, verdict.slots, verdict.victims)
            else if f.session.None? && NewConnection(packet) && verdict.Refused? then
              after.index == t.index && after.chains == t.chains
              && after.count == t.count + if verdict.slots > 0 then verdict.slots - 1 else 0
            else after == t
  {
    hide Find, ExtractDcid, ClassifyPacket, Table.Connect, Table.Migrate, Table.MakesRoom, Table.Inv, Moved, Joined;
    EmptyPacket(t.index, addr);
    if packet != [] {
      var f := Find(t.index, packet, addr);
      if f.session.Some? {
        MigrateMoves(t, f.session.value, addr);
      } else if Opens(t.index, packet, addr) && verdict.Accepted? {
        IndexInv(t);
        NothingFound(t.index, packet, addr);
        ConnectJoins(t, ExtractDcid(packet, 0).value, addr, verdict.slots, verdict.victims);
      }
    }
  }

  /** The packet is an Initial with a connection id. */
  predicate NewConnection(packet: seq<Byte>) {
    ClassifyPacket(packet) == Initial && ExtractDcid(packet, 0).Some?
  }

  lemma EmptyPacket(ix: Index, addr: Addr)
    ensures Find(ix, [], addr) == Found(None, None) && !NewConnection([])
  {}

  lemma IndexInv(t: Table)
    requires t.Inv()
    ensures t.index.Inv()
  {
    hide Index.Inv, Chains.Inv;
  }
}
