/** The proxy object: the fields behind the session table and the methods that update them. */
module Proxy {
  import opened Bytes
  import opened SessionTable
  import opened SessionHeap
  import opened Routing
  import InitialPacket

  /** What the handler chain made of a new connection. */
  datatype Outcome = Dropped | Unhandled | HandledWithSession

  /** The ages of some sessions, for fixed idle times. */
  function Ages(ks: set<Cid>, idle: map<Cid, int>): set<SessionAge>
    requires forall k | k in ks :: k in idle
  {
    set k | k in ks :: SessionAge(k, idle[k])
  }

  /** A visiting order of a map: every key once, in any order. */
  ghost predicate Visits(order: seq<Cid>, sessions: map<Cid, Session>) {
    Distinct(order) && forall k :: k in order <==> k in sessions
  }

  /** `n` sessions, or all if there are fewer, none of them idle for less long than one that stays. */
  ghost predicate Oldest(victims: seq<Cid>, sessions: map<Cid, Session>, idle: map<Cid, int>, n: nat)
    requires forall k | k in sessions :: k in idle
  {
    && Distinct(victims) && (forall v | v in victims :: v in sessions)
    && |victims| == Min(n, |sessions|)
    && forall v, k | v in victims && k in sessions && k !in victims :: idle[k] <= idle[v]
  }

  /** Removing the victims of a cleanup one by one. */
  lemma {:induction false} ForgetAllSnoc(t: Table, ks: seq<Cid>, k: Cid)
    ensures t.ForgetAll(ks + [k]) == t.ForgetAll(ks).Forget(k)
    decreases |ks|
  {
    hide Table.Forget;
    if ks == [] {
      assert [k][1..] == [];
    } else {
      assert (ks + [k])[1..] == ks[1..] + [k];
      ForgetAllSnoc(t.Forget(ks[0]), ks[1..], k);
    }
  }

  class Proxy {
    var sessions: map<Cid, Session>
    var sessionCount: int
    var dcidAliases: map<Cid, Cid>
    var sessionAliases: map<Cid, set<Cid>>
    var clientSessions: map<Addr, Cid>
    var dcidLengths: set<nat>
    var chain: Chain
    var chainRefs: map<Chain, nat>
    var retiredChains: set<Chain>
    var allowConnectionMigration: bool
    ghost var shutdowns: multiset<Chain>
    ghost var installed: set<Chain>

    ghost function Ix(): Index
      reads this
    {
      Index(sessions, dcidAliases, sessionAliases, clientSessions, dcidLengths)
    }

    ghost function Ch(): Chains
      reads this
    {
      Chains(chain, chainRefs, retiredChains, shutdowns, installed)
    }

    /** The state as a value. */
    ghost function State(): Table
      reads this
    {
      Table(Ix(), sessionCount, Ch())
    }

    constructor (chain: Chain)
      ensures State() == Start(chain) && State().Inv() && !allowConnectionMigration
    {
      sessions, sessionCount := map[], 0;
      dcidAliases, sessionAliases, clientSessions, dcidLengths := map[], map[], map[], {};
      this.chain, chainRefs, retiredChains := chain, map[chain := 0], {};
      allowConnectionMigration := false;
      shutdowns, installed := multiset{}, {chain};
      new;
      StartInv(chain);
    }

    // -------------------------------------------------------------------------------------
    // Chains
    // -------------------------------------------------------------------------------------

    ghost method ShutdownChain(c: Chain)
      modifies this`shutdowns
      ensures shutdowns == old(shutdowns) + multiset{c}
    {
      shutdowns := shutdowns + multiset{c};
    }

    method RetainChain(c: Chain)
      modifies this`chainRefs
      ensures Ch() == old(Ch()).Retain(c)
    {
      chainRefs := chainRefs[c := (if c in chainRefs then chainRefs[c] else 0) + 1];
    }

    method ReleaseChain(c: Chain)
      modifies this`chainRefs, this`retiredChains, this`shutdowns
      ensures Ch() == old(Ch()).Release(c)
    {
      var shutdown := false;
      if c in chainRefs {
        var refs := chainRefs[c];
        if refs > 0 {
          refs := refs - 1;
          chainRefs := chainRefs[c := refs];
        }
        if refs == 0 && c in retiredChains {
          retiredChains := retiredChains - {c};
          chainRefs := chainRefs - {c};
          shutdown := true;
        }
      }
      if shutdown {
        ShutdownChain(c);
      }
      assert Ch() == old(Ch()).Release(c);
    }

    method RetireChain(c: Chain)
      modifies this`chainRefs, this`retiredChains, this`shutdowns
      ensures Ch() == old(Ch()).Retire(c)
    {
      var refs := if c in chainRefs then chainRefs[c] else 0;
      if refs == 0 {
        chainRefs := chainRefs - {c};
        ShutdownChain(c);
      } else {
        retiredChains := retiredChains + {c};
      }
    }

    method ReloadChain(c: Chain)
      modifies this`chain, this`installed, this`chainRefs, this`retiredChains, this`shutdowns
      ensures State() == old(State()).Reload(c)
      ensures chain == c && installed == old(installed) + {c} && Ix() == old(Ix()) && sessionCount == old(sessionCount)
      ensures old(State().Inv()) && c !in old(installed) ==> State().Inv()
    {
      hide Table.Inv, Chains.Retire;
      ghost var before := State();
      var oldChain := chain;
      chain := c;
      installed := installed + {c};
      if c !in chainRefs {
        chainRefs := chainRefs[c := 0];
      }
      assert chainRefs == before.chains.refs[c := before.chains.Refs(c)];
      if oldChain != c {
        RetireChain(oldChain);
      }
      if before.Inv() && c !in before.chains.installed {
        ReloadKeepsTableInv(before, c);
      }
    }

    // -------------------------------------------------------------------------------------
    // Aliases
    // -------------------------------------------------------------------------------------

    method RegisterDcidLength(length: nat)
      modifies this`dcidLengths
      ensures dcidLengths == old(dcidLengths) + {length}
    {
      dcidLengths := dcidLengths + {length};
    }

    method TrackSessionAlias(original: Cid, alias: Cid)
      modifies this`sessionAliases
      ensures var known := if original in old(sessionAliases) then old(sessionAliases)[original] else {};
              sessionAliases == old(sessionAliases)[original := known + {alias}]
    {
      if original !in sessionAliases {
        sessionAliases := sessionAliases[original := {}];
      }
      sessionAliases := sessionAliases[original := sessionAliases[original] + {alias}];
    }

    /** Registers the connection ids a backend datagram carries as aliases of its session. */
    method LearnServerScid(original: Cid, scids: seq<Cid>)
      modifies this`dcidAliases, this`sessionAliases, this`dcidLengths
      ensures State() == old(State()).Learn(original, scids)
      ensures Learnt(old(Ix()), Ix(), original, scids) && Ch() == old(Ch()) && sessionCount == old(sessionCount)
      ensures forall s | s in scids && s !in old(dcidAliases) && s != original ::
                dcidAliases[s] == original && |s| in dcidLengths
      ensures forall s | s in scids && s !in old(dcidAliases) && s != original && s !in sessions && original in sessions ::
                OwnerOf(Ix(), s) == Some(original)
      ensures old(State().Inv()) && original in sessions ==> State().Inv()
    {
      hide Table.Inv, Index.Learn;
      ghost var before := State();
      LearnAllLearns(before.index, original, scids);
      var i := 0;
      while i < |scids|
        invariant 0 <= i <= |scids|
        invariant before.index.LearnAll(original, scids) == Ix().LearnAll(original, scids[i..])
      {
        assert scids[i..][1..] == scids[i + 1..];
        LearnOne(original, scids[i]);
        i := i + 1;
      }
      if before.Inv() && original in sessions {
        before.LearnKeepsInv(original, scids);
      }
    }

    method LearnOne(original: Cid, scid: Cid)
      modifies this`dcidAliases, this`sessionAliases, this`dcidLengths
      ensures Ix() == old(Ix()).Learn(original, scid)
    {
      if scid == original {
        return;
      }
      if scid in dcidAliases {
        return;
      }
      dcidAliases := dcidAliases[scid := original];
      TrackSessionAlias(original, scid);
      RegisterDcidLength(|scid|);
    }

    /** Removes the aliases of a session that ends. */
    method DeleteSessionAliases(original: Cid)
      modifies this`dcidAliases, this`sessionAliases
      ensures dcidAliases == old(dcidAliases) - AliasesToDrop(old(dcidAliases), old(sessionAliases), original)
      ensures sessionAliases == old(sessionAliases) - {original}
    {
      if original !in sessionAliases {
        return;
      }
      ghost var before := Ix();
      var left := sessionAliases[original];
      sessionAliases := sessionAliases - {original};
      ghost var done: set<Cid> := {};
      while left != {}
        modifies this`dcidAliases
        invariant done + left == before.aliasesOf[original] && done !! left
        invariant dcidAliases == before.aliases - (set a | a in done && a in before.aliases && before.aliases[a] == original)
        decreases left
      {
        var alias :| alias in left;
        left := left - {alias};
        done := done + {alias};
        if alias in dcidAliases && dcidAliases[alias] == original {
          dcidAliases := dcidAliases - {alias};
        }
      }
      assert done == before.aliasesOf[original];
    }

    // -------------------------------------------------------------------------------------
    // Deleting and evicting
    // -------------------------------------------------------------------------------------

    method DeleteSession(k: Cid)
      modifies this`sessions, this`sessionCount, this`dcidAliases, this`sessionAliases, this`clientSessions,
               this`chainRefs, this`retiredChains, this`shutdowns
      ensures State() == old(State()).Forget(k)
      ensures old(State().Linked()) ==> Remains(old(Ix()), Ix(), [k])
    {
      hide Chains.Release, AliasesToDrop, Remains, Table.Linked;
      ghost var before := State();
      if before.Linked() {
        ForgetRemains(before, k);
      }
      if k in sessions {
        var s := sessions[k];
        sessions := sessions - {k};
        sessionCount := sessionCount - 1;
        DeleteSessionAliases(k);
        ReleaseChain(s.chain);
        clientSessions := clientSessions - {s.addr};
        assert Ix() == old(Ix()).Remove(k);
        assert Ch() == old(Ch()).Release(s.chain);
      }
    }

    /** Collects the n sessions that have been idle longest; the heap's root is the youngest of them. */
    method SelectOldest(order: seq<Cid>, idle: map<Cid, int>, n: nat) returns (heap: Heap, ghost kept: set<Cid>)
      requires n > 0 && Distinct(order) && forall k | k in order :: k in idle
      ensures fresh(heap) && Holds(heap.h, kept, idle)
      ensures Top(kept, (set k | k in order), idle, n)
    {
      hide Holds, Top;
      heap := new Heap();
      kept := {};
      ghost var visited: set<Cid> := {};
      NothingVisited(idle, n);
      var i := 0;
      while i < |order|
        invariant 0 <= i <= |order|
        invariant fresh(heap) && Holds(heap.h, kept, idle)
        invariant visited == set k | k in order[..i]
        invariant Top(kept, visited, idle, n)
      {
        assert order[..i + 1] == order[..i] + [order[i]];
        kept := Consider(heap, order[i], idle, n, kept, visited);
        visited := visited + {order[i]};
        i := i + 1;
      }
      assert order[..|order|] == order;
    }

    method Consider(heap: Heap, k: Cid, idle: map<Cid, int>, n: nat, ghost kept: set<Cid>, ghost visited: set<Cid>)
      returns (ghost kept': set<Cid>)
      requires n > 0 && k in idle && k !in visited
      requires Holds(heap.h, kept, idle) && Top(kept, visited, idle, n)
      modifies heap
      ensures Holds(heap.h, kept', idle) && Top(kept', visited + {k}, idle, n)
    {
      hide Top, IsHeap, Ages;
      var age := SessionAge(k, idle[k]);
      HeapSize(heap.h, kept, idle);
      TopBounds(kept, visited, idle, n);
      if |heap.h| < n {
        AgesAdd(kept, k, idle);
        TopGrows(kept, visited, idle, n, k);
        heap.Push(age);
        kept' := kept + {k};
      } else {
        RootIsYoungest(heap.h, kept, idle);
        if age.idle > heap.h[0].idle {
          ghost var out := heap.h[0].key;
          TopReplaces(kept, visited, idle, n, k, out);
          AgesRemove(kept, out, idle);
          AgesAdd(kept - {out}, k, idle);
          var root := heap.Pop();
          assert root == SessionAge(out, idle[out]);
          Cancel(multiset(heap.h), multiset(Ages(kept - {out}, idle)), root);
          heap.Push(age);
          kept' := kept - {out} + {k};
        } else {
          TopStays(kept, visited, idle, n, k, heap.h[0].key);
          kept' := kept;
        }
      }
    }

    /** Removes the n sessions that have been idle longest, for any order of visiting them. */
    method CleanupOldestSessions(n: int, order: seq<Cid>, idle: map<Cid, int>) returns (ghost victims: seq<Cid>)
      requires Visits(order, sessions) && forall k | k in sessions :: k in idle
      modifies this`sessions, this`sessionCount, this`dcidAliases, this`sessionAliases, this`clientSessions,
               this`chainRefs, this`retiredChains, this`shutdowns
      ensures State() == old(State()).ForgetAll(victims)
      ensures Oldest(victims, old(sessions), idle, if n <= 0 then 0 else n)
    {
      hide Holds, Top, Oldest, Table.Forget, Table.ForgetAll, Visits, Removing;
      victims := [];
      ghost var before := State();
      assert before == before.ForgetAll([]) by { NothingToForget(before); }
      if n <= 0 {
        NoVictims(sessions, idle);
        return;
      }
      VisitsAll(order, sessions);
      var heap, kept := SelectOldest(order, idle, n);
      ghost var left := kept;
      NothingRemoved(kept);
      while |heap.h| > 0
        invariant fresh(heap) && Holds(heap.h, left, idle)
        invariant State() == before.ForgetAll(victims)
        invariant Removing(victims, kept, left)
        decreases |left|
      {
        var age := PopHeld(heap, left, idle);
        if age.key in sessions {
          DeleteSession(age.key);
        } else {
          ForgetAbsent(State(), age.key);
        }
        ForgetAllSnoc(before, victims, age.key);
        OneMoreRemoved(victims, kept, left, age.key);
        victims := victims + [age.key];
        left := left - {age.key};
      }
      HeldSize(heap.h, left, idle);
      AllRemoved(victims, kept, left);
      OldestOf(victims, kept, before.index.sessions, order, idle, n);
    }

    /** Removes the root of a heap of ages. */
    method PopHeld(heap: Heap, ghost left: set<Cid>, idle: map<Cid, int>) returns (age: SessionAge)
      requires |heap.h| > 0 && Holds(heap.h, left, idle)
      modifies heap
      ensures age.key in left && Holds(heap.h, left - {age.key}, idle)
    {
      hide IsHeap, Ages;
      RootIsYoungest(heap.h, left, idle);
      age := heap.Pop();
      assert age == SessionAge(age.key, idle[age.key]);
      AgesRemove(left, age.key, idle);
      Cancel(multiset(heap.h), multiset(Ages(left - {age.key}, idle)), age);
    }

    /** Counts the session unless its slot is reserved already, makes room for it, and stores it. */
    method StoreSession(k: Cid, s: Session, reserved: bool, order: seq<Cid>, idle: map<Cid, int>)
      returns (ghost victims: seq<Cid>)
      requires Visits(order, sessions) && forall k | k in sessions :: k in idle
      modifies this`sessions, this`sessionCount, this`dcidAliases, this`sessionAliases, this`clientSessions,
               this`chainRefs, this`retiredChains, this`shutdowns
      ensures var counted := old(State()).(count := old(sessionCount) + if reserved then 0 else 1);
              && State() == counted.ForgetAll(victims).Store(k, s)
              && Oldest(victims, counted.index.sessions, idle, Surplus(counted.count))
    {
      hide Table.ForgetAll, Oldest, Visits;
      ghost var before := State();
      if !reserved {
        sessionCount := sessionCount + 1;
      }
      var count := sessionCount;
      ghost var counted := State();
      if count >= CLEANUP_AT {
        victims := CleanupOldestSessions(count / 10, order, idle);
      } else {
        victims := [];
        NothingToForget(counted);
        NoVictims(sessions, idle);
      }
      sessions := sessions[k := s];
    }

    // -------------------------------------------------------------------------------------
    // Finding the session of a packet
    // -------------------------------------------------------------------------------------

    /** The registered lengths, longest first. */
    method DescendingLengths() returns (ls: seq<nat>)
      ensures Descends(ls, dcidLengths)
    {
      ls := [];
      var rest := dcidLengths;
      while rest != {}
        invariant forall l :: l in dcidLengths <==> l in ls || l in rest
        invariant forall i, j | 0 <= i < j < |ls| :: ls[i] > ls[j]
        invariant forall l, m | l in ls && m in rest :: l > m
        decreases rest
      {
        LongestExists(rest);
        var l :| l in rest && forall m | m in rest :: m <= l;
        assert forall i | 0 <= i < |ls| :: ls[i] in ls;
        ls := ls + [l];
        rest := rest - {l};
      }
    }

    method Lookup(cid: Cid) returns (k: Option<Cid>)
      ensures k == OwnerOf(Ix(), cid)
      ensures cid in sessions ==> k == Some(cid)
      ensures cid !in sessions && cid in dcidAliases && dcidAliases[cid] in sessions ==> k == Some(dcidAliases[cid])
      ensures cid !in sessions && !(cid in dcidAliases && dcidAliases[cid] in sessions) ==> k == None
    {
      if cid in sessions {
        return Some(cid);
      }
      if cid in dcidAliases {
        var original := dcidAliases[cid];
        if original in sessions {
          return Some(original);
        }
      }
      return None;
    }

    method LookupAddress(addr: Addr) returns (k: Option<Cid>)
      ensures k == ByAddress(Ix(), addr)
      ensures addr in clientSessions && clientSessions[addr] in sessions ==> k == Some(clientSessions[addr])
      ensures !(addr in clientSessions && clientSessions[addr] in sessions) ==> k == None
    {
      if addr in clientSessions {
        var original := clientSessions[addr];
        if original in sessions {
          return Some(original);
        }
      }
      return None;
    }

    /** The session that owns a packet: trying the registered lengths only, this is the search by definition. */
    method FindSession(packet: seq<Byte>, addr: Addr) returns (f: Found)
      requires Ix().Inv()
      ensures f == Find(Ix(), packet, addr)
    {
      hide Index.Inv, OwnerOf, ByAddress, LongestOwned;
      if ClassifyPacket(packet) == ShortHeader {
        var cid := FindShort(packet);
        if cid.Some? {
          var k := Lookup(cid.value);
          return Found(k, cid);
        }
        var k := LookupAddress(addr);
        return Found(k, None);
      }
      var cid := ExtractDcid(packet, 0);
      if cid.None? {
        return Found(None, None);
      }
      var k := Lookup(cid.value);
      if k.None? {
        k := LookupAddress(addr);
      }
      return Found(k, cid);
    }

    method FindShort(packet: seq<Byte>) returns (cid: Option<Cid>)
      requires Ix().Inv() && ClassifyPacket(packet) == ShortHeader
      ensures cid == LongestOwned(Ix(), packet[1..], |packet| - 1)
    {
      hide Index.Inv, OwnerOf, LongestOwned, Descends, Searched;
      var lengths := DescendingLengths();
      ghost var tail := packet[1..];
      ghost var bound: nat := |tail|;
      SearchStarts(Ix(), tail, lengths);
      var i := 0;
      while i < |lengths|
        invariant 0 <= i <= |lengths|
        invariant Searched(Ix(), tail, lengths, i, bound)
      {
        var dcid := ExtractDcid(packet, lengths[i]);
        if dcid.Some? {
          assert dcid.value == tail[..lengths[i]];
          var k := Lookup(dcid.value);
          SearchTries(Ix(), tail, lengths, i, bound);
          if k.Some? {
            return dcid;
          }
          bound := lengths[i] - 1;
        } else {
          SearchSkips(Ix(), tail, lengths, i, bound);
        }
        i := i + 1;
      }
      SearchEnds(Ix(), tail, lengths, bound);
      return None;
    }

    // -------------------------------------------------------------------------------------
    // Steps
    // -------------------------------------------------------------------------------------

    /** One packet. `assembling` says that there is an assembler for it which is not complete, `hello` that it completes a
        ClientHello, `outcome` and `slots` what the handler chain made of that and how often its limiters reserved; `order`
        and `idle` are the visiting order and idle times if sessions must go. */
    method HandlePacket(packet: seq<Byte>, addr: Addr, assembling: bool, hello: bool, outcome: Outcome, slots: nat,
                        order: seq<Cid>, idle: map<Cid, int>) returns (panics: bool, ghost verdict: Verdict)
      requires State().Inv() && Visits(order, sessions) && forall k | k in sessions :: k in idle
      modifies this
      ensures State().Inv()
      ensures State() == AfterPacket(old(State()), packet, addr, old(allowConnectionMigration), verdict)
      ensures EffectOf(old(State()), State(), packet, addr, old(allowConnectionMigration), assembling && !panics && hello,
                       outcome == HandledWithSession, slots, verdict)
      ensures panics <==> Opens(old(Ix()), packet, addr) && assembling && InitialPacket.WalkHeader(packet).OutOfRange?
      ensures panics ==> State() == old(State())
      ensures Opens(old(Ix()), packet, addr) && !panics ==>
        match verdict
        case NoHello => !(assembling && hello)
        case Refused(n) => assembling && hello && outcome != HandledWithSession && n == slots
        case Accepted(n, victims) =>
          && assembling && hello && outcome == HandledWithSession && n == slots
          && old(State()).MakesRoom(slots, victims) && Oldest(victims, old(sessions), idle, |victims|)
      ensures allowConnectionMigration == old(allowConnectionMigration)
    {
      hide Table.Inv, Find, ClassifyPacket, ExtractDcid, Table.Migrate, Table.Connect, Table.Reject, Visits, Oldest,
           Table.MakesRoom, InitialPacket.WalkHeader;
      panics, verdict := false, NoHello;
      ghost var before := State();
      if |packet| == 0 {
        EmptyOpensNothing(Ix(), addr);
        EmptyPacket(Ix(), addr);
        return;
      }
      assert Ix().Inv() by { InvIsIndexInv(before); }
      var f := FindSession(packet, addr);
      if f.session.Some? {
        var k := f.session.value;
        if sessions[k].addr != addr && allowConnectionMigration {
          MigrateSession(k, addr);
        }
      } else if ClassifyPacket(packet) == Initial {
        var cid := if f.dcid.Some? then f.dcid else ExtractDcid(packet, 0);
        FoundId(Ix(), packet, addr);
        if cid.Some? && assembling && InitialPacket.WalkHeader(packet).OutOfRange? {
          panics := true;
          return;
        }
        if cid.Some? && assembling && hello {
          verdict := Connect(cid.value, addr, outcome, slots, order, idle);
        }
      }
      PacketKeepsInv(before, packet, addr, allowConnectionMigration, verdict);
      PacketEffect(before, packet, addr, allowConnectionMigration, verdict);
    }

    method MigrateSession(k: Cid, addr: Addr)
      requires k in sessions
      modifies this`sessions, this`clientSessions
      ensures State() == old(State()).Migrate(k, addr)
    {
      var s := sessions[k];
      sessions := sessions[k := s.(addr := addr)];
      clientSessions := clientSessions - {s.addr};
      clientSessions := clientSessions[addr := k];
    }

    /** A new connection: each limiter of its chain reserves a slot, and one is given back unless the session
        is stored. */
    method Connect(k: Cid, addr: Addr, outcome: Outcome, slots: nat, order: seq<Cid>, idle: map<Cid, int>)
      returns (ghost verdict: Verdict)
      requires State().Inv() && Visits(order, sessions) && forall k | k in sessions :: k in idle
      modifies this
      ensures outcome != HandledWithSession ==> verdict == Refused(slots) && State() == old(State()).Reject(slots)
      ensures outcome == HandledWithSession ==>
        && verdict.Accepted? && verdict.slots == slots
        && old(State()).MakesRoom(slots, verdict.victims) && Oldest(verdict.victims, old(sessions), idle, |verdict.victims|)
        && State() == old(State()).Connect(k, addr, slots, verdict.victims)
      ensures allowConnectionMigration == old(allowConnectionMigration)
    {
      hide Table.Inv, Table.Connect, Oldest, Visits, Table.MakesRoom;
      ghost var before := State();
      sessionCount := sessionCount + slots;
      var reserved := slots > 0;
      if outcome == HandledWithSession {
        ghost var victims := Establish(before, k, addr, slots, order, idle);
        OldestMakesRoom(before, slots, victims, idle);
        verdict := Accepted(slots, victims);
      } else {
        verdict := Refused(slots);
        if reserved {
          sessionCount := sessionCount - 1;
        }
      }
    }

    /** Stores a connection that its chain handled; `before` is the state without the reserved slots. */
    method Establish(ghost before: Table, k: Cid, addr: Addr, slots: nat, order: seq<Cid>, idle: map<Cid, int>)
      returns (ghost victims: seq<Cid>)
      requires before.Inv() && State() == before.(count := before.count + slots)
      requires Visits(order, sessions) && forall k | k in sessions :: k in idle
      modifies this`sessions, this`sessionCount, this`dcidAliases, this`sessionAliases, this`clientSessions,
               this`chainRefs, this`retiredChains, this`shutdowns, this`dcidLengths
      ensures State() == before.Connect(k, addr, slots, victims)
      ensures Oldest(victims, before.index.sessions, idle, Surplus(before.count + Max(slots, 1)))
    {
      hide Table.Inv, Table.Connect, Table.ForgetAll, Oldest, Visits, Chains.Retain, Surplus;
      var currentChain := chain;
      RegisterDcidLength(|k|);
      ghost var counted := before.count + Max(slots, 1);
      assert before.(count := counted).Register(|k|) == State().(count := counted);
      victims := StoreSession(k, Session(k, addr, currentChain), slots > 0, order, idle);
      RetainChain(currentChain);
      clientSessions := clientSessions[addr := k];
      ConnectInSteps(before, k, addr, slots, victims);
    }

    /** The idle sweep: exactly the sessions idle for longer than the timeout go. */
    method SweepIdle(order: seq<Cid>, idle: map<Cid, int>, timeout: int)
      requires State().Inv() && Visits(order, sessions) && forall k | k in sessions :: k in idle
      modifies this
      ensures State() == old(State()).ForgetAll(Expired(order, idle, timeout))
      ensures State().Inv()
      ensures sessions == map k | k in old(sessions) && idle[k] <= timeout :: old(sessions)[k]
      ensures allowConnectionMigration == old(allowConnectionMigration)
    {
      hide Table.Inv, Table.Forget, Visits, Expired;
      ghost var before := State();
      VisitsAll(order, sessions);
      var i := 0;
      while i < |order|
        modifies this`sessions, this`sessionCount, this`dcidAliases, this`sessionAliases, this`clientSessions,
                 this`chainRefs, this`retiredChains, this`shutdowns
        invariant 0 <= i <= |order|
        invariant before.ForgetAll(Expired(order, idle, timeout)) == State().ForgetAll(Expired(order[i..], idle, timeout))
      {
        assert order[i..][1..] == order[i + 1..];
        ExpiredNext(order[i..], idle, timeout);
        if idle[order[i]] > timeout {
          DeleteSession(order[i]);
        }
        i := i + 1;
      }
      assert Expired(order[i..], idle, timeout) == [] by { ExpiredNone(idle, timeout); }
      SweptTable(before, order, idle, timeout);
    }

    method ShutdownRetiredChains()
      modifies this`chainRefs, this`retiredChains, this`shutdowns
      ensures chainRefs == old(chainRefs) - old(retiredChains) && retiredChains == {}
      ensures shutdowns == old(shutdowns) + multiset(old(retiredChains))
    {
      ghost var before := Ch();
      AllRetired(before.refs, before.retired);
      while retiredChains != {}
        invariant ShuttingDown(before, Ch())
        decreases retiredChains
      {
        var c :| c in retiredChains;
        OneRetired(before, Ch(), c);
        retiredChains := retiredChains - {c};
        chainRefs := chainRefs - {c};
        ShutdownChain(c);
      }
      NoneRetired(before, Ch());
    }

    /** Stopping ends every session and shuts every chain down that has not been shut down yet. */
    method Stop(order: seq<Cid>)
      requires State().Inv() && Visits(order, sessions)
      modifies this
      ensures State() == old(State()).Stop(order)
      ensures sessions == map[] && dcidAliases == map[] && sessionAliases == map[] && clientSessions == map[]
      ensures sessionCount == old(State()).Excess()
      ensures installed == old(installed) && forall c | c in installed :: shutdowns[c] == 1
    {
      hide Table.Inv, Table.Forget, Visits;
      ghost var before := State();
      VisitsAll(order, sessions);
      var i := 0;
      while i < |order|
        modifies this`sessions, this`sessionCount, this`dcidAliases, this`sessionAliases, this`clientSessions,
                 this`chainRefs, this`retiredChains, this`shutdowns
        invariant 0 <= i <= |order|
        invariant before.ForgetAll(order) == State().ForgetAll(order[i..])
      {
        assert order[i..][1..] == order[i + 1..];
        DeleteSession(order[i]);
        i := i + 1;
      }
      ShutdownRetiredChains();
      ShutdownChain(chain);
      StopEnds(before, order);
    }
  }

  /** Some of the retired chains have been shut down. */
  ghost predicate ShuttingDown(before: Chains, now: Chains) {
    && now.retired <= before.retired
    && now.refs == before.refs - (before.retired - now.retired)
    && now.shutdowns + multiset(now.retired) == before.shutdowns + multiset(before.retired)
  }

  lemma AllRetired(refs: map<Chain, nat>, retired: set<Chain>)
    ensures refs - (retired - retired) == refs
  {}

  lemma OneRetired(before: Chains, now: Chains, c: Chain)
    requires ShuttingDown(before, now) && c in now.retired
    ensures forall next: Chains | next.retired == now.retired - {c} && next.refs == now.refs - {c}
                && next.shutdowns == now.shutdowns + multiset{c} :: ShuttingDown(before, next)
  {
    assert now.refs - {c} == before.refs - (before.retired - (now.retired - {c}));
    assert multiset(now.retired) == multiset(now.retired - {c}) + multiset{c};
  }

  lemma NoneRetired(before: Chains, now: Chains)
    requires ShuttingDown(before, now) && now.retired == {}
    ensures now.refs == before.refs - before.retired && now.shutdowns == before.shutdowns + multiset(before.retired)
  {
    assert before.retired - now.retired == before.retired;
  }

  /** Connecting, in the order of the steps: the length and the count first, the room, the session,
      then the reference and the client's address. */
  lemma ConnectInSteps(t: Table, k: Cid, addr: Addr, slots: nat, victims: seq<Cid>)
    requires t.Inv()
    ensures var counted := t.(count := t.count + Max(slots, 1));
            var stored := counted.Register(|k|).ForgetAll(victims).Store(k, Session(k, addr, t.chains.current));
            t.Connect(k, addr, slots, victims) ==
              stored.(index := stored.index.(clients := stored.index.clients[addr := k]), chains := stored.chains.Retain(t.chains.current))
  {
    hide Index.Inv, Chains.Inv, Table.ForgetAll, Chains.Retain;
    var counted := t.(count := t.count + Max(slots, 1));
    counted.ForgetAllKeepsLinked(victims);
    RegisteredEarly(counted, |k|, victims);
  }

  lemma OldestMakesRoom(t: Table, slots: nat, victims: seq<Cid>, idle: map<Cid, int>)
    requires t.Inv() && forall k | k in t.index.sessions :: k in idle
    requires Oldest(victims, t.index.sessions, idle, Surplus(t.count + Max(slots, 1)))
    ensures t.MakesRoom(slots, victims) && Oldest(victims, t.index.sessions, idle, |victims|)
  {
    hide Table.Linked;
  }

  /** What handling a packet does to the table, case by case. A packet of a session moves it if migration is allowed and the
      address is another one, and else does nothing. A packet that completes the ClientHello of a new connection lets it
      join if the chain handles it, and else leaves at most the slots beyond the first. Any other does nothing. */
  ghost predicate EffectOf(before: Table, after: Table, packet: seq<Byte>, addr: Addr, migrate: bool, hello: bool,
                           handled: bool, slots: nat, verdict: Verdict) {
    var f := Find(before.index, packet, addr);
    match f.session
    case Some(k) =>
      if migrate && before.index.sessions[k].addr != addr then Moved(before, after, k, addr) else after == before
    case None =>
      if !NewConnection(packet) || !hello then after == before
      else if handled then
        verdict.Accepted? && Joined(before, after, ExtractDcid(packet, 0).value, addr, slots, verdict.victims)
      else
        && after.index == before.index && after.chains == before.chains
        && after.count == before.count + if slots > 0 then slots - 1 else 0
  }

  /** Registering a length and removing sessions do not interfere. */
  lemma {:induction false} RegisteredEarly(t: Table, length: nat, victims: seq<Cid>)
    ensures t.Register(length).ForgetAll(victims) == t.ForgetAll(victims).Register(length)
    decreases |victims|
  {
    if victims != [] {
      hide Chains.Release;
      RegisteredEarly(t.Forget(victims[0]), length, victims[1..]);
    }
  }

  lemma InvIsIndexInv(t: Table)
    requires t.Inv()
    ensures t.index.Inv()
  {
    hide Index.Inv, Chains.Inv;
  }

  lemma EmptyOpensNothing(ix: Index, addr: Addr)
    ensures !Opens(ix, [], addr)
  {}

  /** A search that finds no session still tells the id of a long header. */
  lemma FoundId(ix: Index, packet: seq<Byte>, addr: Addr)
    requires ClassifyPacket(packet) == Initial
    ensures var f := Find(ix, packet, addr); f.dcid == ExtractDcid(packet, 0)
  {}

  lemma LongestExists(s: set<nat>)
    requires s != {}
    ensures exists l :: l in s && forall m | m in s :: m <= l
    decreases |s|
  {
    var x :| x in s;
    var rest := s - {x};
    if rest == {} {
      assert s == {x};
    } else {
      LongestExists(rest);
      var y :| y in rest && forall m | m in rest :: m <= y;
      var l := Max(x, y);
      assert l in s && forall m | m in s :: m == x || m in rest;
    }
  }

  // ---------------------------------------------------------------------------------------
  // The descending search
  // ---------------------------------------------------------------------------------------

  /** The lengths before the i-th have been tried, and nothing longer than `bound` is owned. */
  ghost predicate Searched(ix: Index, tail: seq<Byte>, ls: seq<nat>, i: nat, bound: nat) {
    && i <= |ls| && bound <= |tail|
    && LongestOwned(ix, tail, |tail|) == LongestOwned(ix, tail, bound)
    && (forall j | 0 <= j < i :: ls[j] > bound || ls[j] == 0)
    && (forall j | i <= j < |ls| :: ls[j] <= bound || ls[j] > |tail|)
  }

  lemma SearchStarts(ix: Index, tail: seq<Byte>, ls: seq<nat>)
    ensures Searched(ix, tail, ls, 0, |tail|)
  {}

  lemma SearchSkips(ix: Index, tail: seq<Byte>, ls: seq<nat>, i: nat, bound: nat)
    requires Searched(ix, tail, ls, i, bound) && i < |ls|
    requires ls[i] == 0 || ls[i] > |tail|
    ensures Searched(ix, tail, ls, i + 1, bound)
  {}

  lemma SearchTries(ix: Index, tail: seq<Byte>, ls: seq<nat>, i: nat, bound: nat)
    requires ix.Inv() && Descends(ls, ix.lengths)
    requires Searched(ix, tail, ls, i, bound) && i < |ls| && 0 < ls[i] <= |tail|
    ensures if OwnerOf(ix, tail[..ls[i]]).Some? then LongestOwned(ix, tail, |tail|) == Some(tail[..ls[i]])
            else Searched(ix, tail, ls, i + 1, ls[i] - 1)
  {
    hide Index.Inv, OwnerOf;
    assert forall j | 0 <= j < |ls| :: ls[j] <= ls[i] || ls[j] > bound;
    SkipUnregistered(ix, tail, bound, ls[i]);
  }

  lemma SearchEnds(ix: Index, tail: seq<Byte>, ls: seq<nat>, bound: nat)
    requires ix.Inv() && Descends(ls, ix.lengths) && Searched(ix, tail, ls, |ls|, bound)
    ensures LongestOwned(ix, tail, |tail|) == None
  {
    hide Index.Inv, OwnerOf;
    assert forall j | 0 <= j < |ls| :: ls[j] == 0 || ls[j] > bound;
    SkipUnregistered(ix, tail, bound, 0);
  }

  // ---------------------------------------------------------------------------------------
  // The idle sweep
  // ---------------------------------------------------------------------------------------

  function Expired(order: seq<Cid>, idle: map<Cid, int>, timeout: int): (r: seq<Cid>)
    requires forall k | k in order :: k in idle
    ensures forall k :: k in r <==> k in order && idle[k] > timeout
    decreases |order|
  {
    if order == [] then []
    else (if idle[order[0]] > timeout then [order[0]] else []) + Expired(order[1..], idle, timeout)
  }

  lemma ExpiredNext(order: seq<Cid>, idle: map<Cid, int>, timeout: int)
    requires order != [] && forall k | k in order :: k in idle
    ensures var rest := Expired(order[1..], idle, timeout);
            var r := Expired(order, idle, timeout);
            if idle[order[0]] > timeout then r != [] && r[0] == order[0] && r[1..] == rest else r == rest
  {}

  lemma ExpiredNone(idle: map<Cid, int>, timeout: int)
    ensures Expired([], idle, timeout) == []
  {}

  lemma SweptTable(t: Table, order: seq<Cid>, idle: map<Cid, int>, timeout: int)
    requires t.Inv() && Visits(order, t.index.sessions) && forall k | k in t.index.sessions :: k in idle
    ensures var after := t.ForgetAll(Expired(order, idle, timeout));
            && after.Inv()
            && after.index.sessions == map k | k in t.index.sessions && idle[k] <= timeout :: t.index.sessions[k]
  {
    hide Table.Linked, Table.ForgetAll, Expired;
    var expired := Expired(order, idle, timeout);
    t.ForgetAllKeepsLinked(expired);
    NotMore(t.index.sessions, set k | k in expired);
    WithoutExpired(t.index.sessions, order, idle, timeout);
  }

  lemma WithoutExpired(sessions: map<Cid, Session>, order: seq<Cid>, idle: map<Cid, int>, timeout: int)
    requires Visits(order, sessions) && forall k | k in sessions :: k in idle
    ensures sessions - (set k | k in Expired(order, idle, timeout)) ==
            map k | k in sessions && idle[k] <= timeout :: sessions[k]
  {
    hide Distinct;
  }

  lemma NotMore(m: map<Cid, Session>, gone: set<Cid>)
    ensures |m - gone| <= |m|
  {
    var left := (m - gone).Keys;
    assert m.Keys == left + (m.Keys - left);
  }

  // ---------------------------------------------------------------------------------------
  // The n oldest of the visited sessions
  // ---------------------------------------------------------------------------------------

  /** The heap holds the ages of `kept`. */
  ghost predicate Holds(h: Heaped, kept: set<Cid>, idle: map<Cid, int>) {
    && IsHeap(h) && (forall k | k in kept :: k in idle)
    && multiset(h) == multiset(Ages(kept, idle))
  }

  ghost predicate Top(kept: set<Cid>, visited: set<Cid>, idle: map<Cid, int>, n: nat) {
    && kept <= visited && |kept| == Min(n, |visited|)
    && (forall k | k in visited :: k in idle)
    && forall k, j | k in visited && k !in kept && j in kept :: idle[k] <= idle[j]
  }

  /** `victims` are the selected sessions that are no longer `left`. */
  ghost predicate Removing(victims: seq<Cid>, kept: set<Cid>, left: set<Cid>) {
    left <= kept && Distinct(victims) && (set v | v in victims) == kept - left
  }

  lemma NothingRemoved(kept: set<Cid>)
    ensures Removing([], kept, kept)
  {}

  lemma OneMoreRemoved(victims: seq<Cid>, kept: set<Cid>, left: set<Cid>, k: Cid)
    requires Removing(victims, kept, left) && k in left
    ensures Removing(victims + [k], kept, left - {k})
  {
    assert k !in victims by {
      assert k !in set v | v in victims;
    }
    assert (set v | v in victims + [k]) == (set v | v in victims) + {k};
  }

  lemma AllRemoved(victims: seq<Cid>, kept: set<Cid>, left: set<Cid>)
    requires Removing(victims, kept, left) && |left| == 0
    ensures Distinct(victims) && (set v | v in victims) == kept
  {
    assert left == {};
  }

  lemma NothingToForget(t: Table)
    ensures t.ForgetAll([]) == t
  {}

  lemma TopBounds(kept: set<Cid>, visited: set<Cid>, idle: map<Cid, int>, n: nat)
    requires Top(kept, visited, idle, n)
    ensures kept <= visited && |kept| <= n
  {}

  lemma NothingVisited(idle: map<Cid, int>, n: nat)
    ensures Holds([], {}, idle) && Top({}, {}, idle, n)
  {}

  lemma TopGrows(kept: set<Cid>, visited: set<Cid>, idle: map<Cid, int>, n: nat, k: Cid)
    requires Top(kept, visited, idle, n) && |kept| < n && k !in visited && k in idle
    ensures Top(kept + {k}, visited + {k}, idle, n)
  {
    AllKept(kept, visited);
  }

  lemma AllKept(kept: set<Cid>, visited: set<Cid>)
    requires kept <= visited && |kept| == |visited|
    ensures kept == visited
  {
    var rest := visited - kept;
    assert visited == kept + rest;
    assert |rest| == 0;
  }

  lemma TopReplaces(kept: set<Cid>, visited: set<Cid>, idle: map<Cid, int>, n: nat, k: Cid, out: Cid)
    requires Top(kept, visited, idle, n) && |kept| == n && k !in visited && k in idle && out in kept
    requires forall j | j in kept :: idle[out] <= idle[j]
    requires idle[k] > idle[out]
    ensures Top(kept - {out} + {k}, visited + {k}, idle, n)
  {}

  lemma TopStays(kept: set<Cid>, visited: set<Cid>, idle: map<Cid, int>, n: nat, k: Cid, out: Cid)
    requires Top(kept, visited, idle, n) && |kept| == n && k !in visited && k in idle && out in kept
    requires forall j | j in kept :: idle[out] <= idle[j]
    requires idle[k] <= idle[out]
    ensures Top(kept, visited + {k}, idle, n)
  {}

  lemma Cancel(a: multiset<SessionAge>, b: multiset<SessionAge>, x: SessionAge)
    requires a + multiset{x} == b + multiset{x}
    ensures a == b
  {
    assert a == (a + multiset{x}) - multiset{x};
    assert b == (b + multiset{x}) - multiset{x};
  }

  lemma HeldSize(h: Heaped, kept: set<Cid>, idle: map<Cid, int>)
    requires Holds(h, kept, idle)
    ensures |h| == |kept|
  {
    HeapSize(h, kept, idle);
  }

  lemma VisitsAll(order: seq<Cid>, sessions: map<Cid, Session>)
    requires Visits(order, sessions)
    ensures Distinct(order) && (set k | k in order) == sessions.Keys && |order| == |sessions|
    ensures forall k | k in order :: k in sessions
  {
    SizeOfDistinct(order);
    assert (set k | k in order) == sessions.Keys;
  }

  lemma NoVictims(sessions: map<Cid, Session>, idle: map<Cid, int>)
    requires forall k | k in sessions :: k in idle
    ensures Oldest([], sessions, idle, 0)
  {}

  lemma ForgetAbsent(t: Table, k: Cid)
    requires k !in t.index.sessions
    ensures t.Forget(k) == t
  {}

  /** The removed sessions are the selected ones. */
  lemma OldestOf(victims: seq<Cid>, kept: set<Cid>, sessions: map<Cid, Session>, order: seq<Cid>, idle: map<Cid, int>, n: nat)
    requires Visits(order, sessions) && forall k | k in sessions :: k in idle
    requires Top(kept, (set k | k in order), idle, n)
    requires Distinct(victims) && (set v | v in victims) == kept
    ensures Oldest(victims, sessions, idle, n)
  {
    VisitsAll(order, sessions);
    SizeOfDistinct(victims);
    assert forall v :: v in victims <==> v in kept;
  }

  lemma HeapSize(h: Heaped, kept: set<Cid>, idle: map<Cid, int>)
    requires forall k | k in kept :: k in idle
    requires multiset(h) == multiset(Ages(kept, idle))
    ensures |h| == |kept|
    decreases |kept|
  {
    AgesSize(kept, idle);
    assert |multiset(h)| == |h|;
  }

  lemma AgesSize(kept: set<Cid>, idle: map<Cid, int>)
    requires forall k | k in kept :: k in idle
    ensures |Ages(kept, idle)| == |kept|
    decreases |kept|
  {
    if kept != {} {
      var k :| k in kept;
      var rest := kept - {k};
      AgesSize(rest, idle);
      AgesAdd(rest, k, idle);
      assert rest + {k} == kept;
    }
  }

  lemma AgesAdd(kept: set<Cid>, k: Cid, idle: map<Cid, int>)
    requires k !in kept && k in idle && forall j | j in kept :: j in idle
    ensures Ages(kept + {k}, idle) == Ages(kept, idle) + {SessionAge(k, idle[k])}
    ensures SessionAge(k, idle[k]) !in Ages(kept, idle)
    ensures multiset(Ages(kept + {k}, idle)) == multiset(Ages(kept, idle)) + multiset{SessionAge(k, idle[k])}
  {}

  lemma AgesRemove(kept: set<Cid>, k: Cid, idle: map<Cid, int>)
    requires k in kept && forall j | j in kept :: j in idle
    ensures multiset(Ages(kept - {k}, idle)) + multiset{SessionAge(k, idle[k])} == multiset(Ages(kept, idle))
  {
    AgesAdd(kept - {k}, k, idle);
    assert kept - {k} + {k} == kept;
  }

  lemma RootIsYoungest(h: Heaped, kept: set<Cid>, idle: map<Cid, int>)
    requires IsHeap(h) && |h| > 0 && forall k | k in kept :: k in idle
    requires multiset(h) == multiset(Ages(kept, idle))
    ensures h[0].key in kept && h[0].idle == idle[h[0].key]
    ensures forall k | k in kept :: h[0].idle <= idle[k]
  {
    assert h[0] in multiset(h);
    forall k | k in kept ensures h[0].idle <= idle[k] {
      assert SessionAge(k, idle[k]) in multiset(h);
      var i: nat :| i < |h| && h[i] == SessionAge(k, idle[k]);
      RootIsMin(h, i);
    }
  }
}
