/** The proxy's session table as a state machine: the indexes that find a session, the session counter and
    the reference-counted handler chains. Each operation is one atomic step. */
module SessionTable {
  import opened Bytes
  import opened Counting

  type Cid = seq<Byte>
  type Chain = nat

  const MAX_SESSIONS := 100000
  const CLEANUP_AT := MAX_SESSIONS * 9 / 10

  /** A live session: the connection id it was created with, its client's current address, its chain. */
  datatype Session = Session(dcid: Cid, addr: Addr, chain: Chain)

  // ---------------------------------------------------------------------------------------
  // The indexes
  // ---------------------------------------------------------------------------------------

  /** The aliases that point to `k` among those it is known to own. */
  function AliasesToDrop(aliases: map<Cid, Cid>, aliasesOf: map<Cid, set<Cid>>, k: Cid): set<Cid> {
    if k in aliasesOf then set a | a in aliasesOf[k] && a in aliases && aliases[a] == k else {}
  }

  datatype Index = Index(
    sessions: map<Cid, Session>, aliases: map<Cid, Cid>, aliasesOf: map<Cid, set<Cid>>,
    clients: map<Addr, Cid>, lengths: set<nat>)
  {
    function Insert(k: Cid, addr: Addr, chain: Chain): Index {
      this.(sessions := sessions[k := Session(k, addr, chain)], clients := clients[addr := k], lengths := lengths + {|k|})
    }

    function Remove(k: Cid): (r: Index)
      requires k in sessions
      ensures r.sessions == sessions - {k}
    {
      this.(sessions := sessions - {k}, aliases := aliases - AliasesToDrop(aliases, aliasesOf, k), aliasesOf := aliasesOf - {k},
            clients := clients - {sessions[k].addr})
    }

    function Learn(k: Cid, scid: Cid): Index {
      if scid == k || scid in aliases then this
      else
        var known := if k in aliasesOf then aliasesOf[k] else {};
        this.(aliases := aliases[scid := k], aliasesOf := aliasesOf[k := known + {scid}], lengths := lengths + {|scid|})
    }

    function LearnAll(k: Cid, scids: seq<Cid>): Index
      decreases |scids|
    {
      if scids == [] then this else Learn(k, scids[0]).LearnAll(k, scids[1..])
    }

    function Migrate(k: Cid, addr: Addr): Index
      requires k in sessions
    {
      this.(sessions := sessions[k := sessions[k].(addr := addr)],
            clients := (clients - {sessions[k].addr})[addr := k])
    }

    /** Aliases and their owners are exact inverses. */
    ghost predicate Inverse() {
      && (forall a | a in aliases :: aliases[a] in aliasesOf && a in aliasesOf[aliases[a]])
      && (forall k, a | k in aliasesOf && a in aliasesOf[k] :: a in aliases && aliases[a] == k)
    }

    /** Everything points to a live session. */
    ghost predicate Live() {
      && (forall k | k in sessions :: sessions[k].dcid == k)
      && (forall a | a in aliases :: aliases[a] in sessions)
      && (forall k | k in aliasesOf :: k in sessions)
      && (forall c | c in clients :: clients[c] in sessions && sessions[clients[c]].addr == c)
    }

    /** The length of every live connection id is registered. */
    ghost predicate Registered() {
      && (forall k | k in sessions :: |k| in lengths)
      && (forall a | a in aliases :: |a| in lengths)
    }

    ghost predicate Inv() {
      Inverse() && Live() && Registered()
    }

    lemma EmptyWithoutSessions()
      requires Inv() && sessions == map[]
      ensures aliases == map[] && aliasesOf == map[] && clients == map[]
    {
      assert aliases.Keys == {} && aliasesOf.Keys == {} && clients.Keys == {};
    }

    lemma InsertKeepsInv(k: Cid, addr: Addr, chain: Chain)
      requires Inv() && k !in sessions
      ensures Insert(k, addr, chain).Inv()
    {
      assert forall c | c in clients :: clients[c] != k;
    }

    lemma RemoveKeepsInv(k: Cid)
      requires Inv() && k in sessions
      ensures Remove(k).Inv()
      ensures k !in Remove(k).sessions && forall a | a in Remove(k).aliases :: Remove(k).aliases[a] != k
    {
      var ix := Remove(k);
      assert forall a | a in aliases && aliases[a] == k :: a in AliasesToDrop(aliases, aliasesOf, k);
    }

    lemma LearnKeepsInv(k: Cid, scid: Cid)
      requires Inv() && k in sessions
      ensures Learn(k, scid).Inv() && Learn(k, scid).sessions == sessions
    {}

    lemma {:induction false} LearnAllKeepsInv(k: Cid, scids: seq<Cid>)
      requires Inv() && k in sessions
      ensures LearnAll(k, scids).Inv() && LearnAll(k, scids).sessions == sessions
      decreases |scids|
    {
      if scids != [] {
        LearnKeepsInv(k, scids[0]);
        Learn(k, scids[0]).LearnAllKeepsInv(k, scids[1..]);
      }
    }

    lemma MigrateKeepsInv(k: Cid, addr: Addr)
      requires Inv() && k in sessions
      ensures Migrate(k, addr).Inv()
    {}
  }

  // ---------------------------------------------------------------------------------------
  // The handler chains
  // ---------------------------------------------------------------------------------------

  /** `shutdowns` records every shutdown that was run, `installed` every chain that was ever current. */
  datatype Chains = Chains(
    current: Chain, refs: map<Chain, nat>, retired: set<Chain>, shutdowns: multiset<Chain>, installed: set<Chain>)
  {
    function Refs(c: Chain): nat {
      if c in refs then refs[c] else 0
    }

    function Retain(c: Chain): Chains {
      this.(refs := refs[c := Refs(c) + 1])
    }

    function Release(c: Chain): (r: Chains)
      ensures r.installed == installed && r.current == current
    {
      if c !in refs then this
      else
        var left := if refs[c] > 0 then refs[c] - 1 else 0;
        if left == 0 && c in retired then
          this.(refs := refs - {c}, retired := retired - {c}, shutdowns := shutdowns + multiset{c})
        else this.(refs := refs[c := left])
    }

    function Retire(c: Chain): Chains {
      if Refs(c) == 0 then this.(refs := refs - {c}, shutdowns := shutdowns + multiset{c})
      else this.(retired := retired + {c})
    }

    function Reload(c: Chain): Chains {
      var swapped := this.(current := c, refs := refs[c := Refs(c)], installed := installed + {c});
      if current != c then swapped.Retire(current) else swapped
    }

    /** What is left to shut down when the proxy stops. */
    function ShutdownAll(): Chains {
      this.(refs := refs - retired, retired := {}, shutdowns := shutdowns + multiset(retired) + multiset{current})
    }

    /** References are live sessions; a chain is kept while it is current or used, and only then;
        every other installed chain has been shut down once. */
    ghost predicate Inv(sessions: map<Cid, Session>) {
      && current !in retired && refs.Keys == retired + {current} && refs.Keys <= installed
      && (forall c | c in refs :: refs[c] == |Users(sessions, c)|)
      && (forall c | c in retired :: refs[c] > 0)
      && (forall k | k in sessions :: sessions[k].chain in refs)
      && (forall c: Chain :: shutdowns[c] == if c in installed && c !in refs then 1 else 0)
    }

    lemma RetainKeepsInv(sessions: map<Cid, Session>, k: Cid, s: Session)
      requires Inv(sessions) && k !in sessions && s.chain == current
      ensures Retain(current).Inv(sessions[k := s])
    {
      hide Users;
      forall c ensures |Users(sessions[k := s], c)| == |Users(sessions, c)| + if c == current then 1 else 0 {
        UsersAfter(sessions, sessions[k := s], k, c);
      }
    }

    lemma ReleaseKeepsInv(sessions: map<Cid, Session>, k: Cid)
      requires Inv(sessions) && k in sessions
      ensures Release(sessions[k].chain).Inv(sessions - {k})
    {
      hide Users;
      var c0 := sessions[k].chain;
      forall c ensures |Users(sessions - {k}, c)| == |Users(sessions, c)| - if c == c0 then 1 else 0 {
        UsersAfter(sessions, sessions - {k}, k, c);
      }
      var rest := sessions - {k};
      if |Users(rest, c0)| == 0 {
        NoUsers(rest, c0);
      }
    }

    lemma MigrationKeepsInv(sessions: map<Cid, Session>, k: Cid, addr: Addr)
      requires Inv(sessions) && k in sessions
      ensures Inv(sessions[k := sessions[k].(addr := addr)])
    {
      hide Users;
      var after := sessions[k := sessions[k].(addr := addr)];
      forall c ensures |Users(after, c)| == |Users(sessions, c)| {
        UsersAfter(sessions, after, k, c);
      }
    }

    lemma ShutdownAllIsComplete()
      requires Inv(map[])
      ensures var e := ShutdownAll();
              e.installed == installed && forall c | c in installed :: e.shutdowns[c] == 1
    {
      forall c ensures c !in retired {
        NoSessionsNoUsers(c);
      }
      assert retired == {};
      assert multiset(retired) == multiset{};
    }

    /** Reloading with a chain that was never installed before. */
    lemma ReloadKeepsInv(sessions: map<Cid, Session>, c: Chain)
      requires Inv(sessions) && c !in installed
      ensures Reload(c).Inv(sessions)
    {
      NobodyUses(sessions, c);
      if Refs(current) == 0 {
        NoUsers(sessions, current);
      }
    }

    lemma NobodyUses(sessions: map<Cid, Session>, c: Chain)
      requires Inv(sessions) && c !in installed
      ensures |Users(sessions, c)| == 0
    {
      assert Users(sessions, c) == {};
    }
  }

  /** The live sessions created under a chain. */
  function Users(sessions: map<Cid, Session>, c: Chain): set<Cid> {
    set k | k in sessions && sessions[k].chain == c
  }

  lemma NoSessionsNoUsers(c: Chain)
    ensures |Users(map[], c)| == 0
  {
    assert Users(map[], c) == {};
  }

  lemma NoUsers(sessions: map<Cid, Session>, c: Chain)
    requires |Users(sessions, c)| == 0
    ensures forall k | k in sessions :: sessions[k].chain != c
  {
    assert forall k | k in sessions && sessions[k].chain == c :: k in Users(sessions, c);
  }

  lemma UsersAfter(before: map<Cid, Session>, after: map<Cid, Session>, k: Cid, c: Chain)
    requires before - {k} == after - {k}
    ensures |Users(after, c)| == |Users(before, c)|
              - (if k in before && before[k].chain == c then 1 else 0)
              + (if k in after && after[k].chain == c then 1 else 0)
  {
    assert forall j | j != k :: (j in before <==> j in before - {k}) && (j in after <==> j in after - {k});
    assert forall j | j in before && j != k :: j in after && before[j] == (before - {k})[j] == after[j];
    assert forall j | j in after && j != k :: j in before;
    SizeAfter(Users(before, c), Users(after, c), k);
  }

  // ---------------------------------------------------------------------------------------
  // The whole table
  // ---------------------------------------------------------------------------------------

  /** How many sessions must go when `count` are counted. */
  function Surplus(count: int): nat {
    if count >= CLEANUP_AT then count / 10 else 0
  }

  datatype Table = Table(index: Index, count: int, chains: Chains) {

    /** Deleting a session; deleting a key that is gone does nothing. */
    function Forget(k: Cid): Table {
      if k in index.sessions then
        Table(index.Remove(k), count - 1, chains.Release(index.sessions[k].chain))
      else this
    }

    function ForgetAll(ks: seq<Cid>): Table
      decreases |ks|
    {
      if ks == [] then this else Forget(ks[0]).ForgetAll(ks[1..])
    }

    function Store(k: Cid, s: Session): Table {
      this.(index := index.(sessions := index.sessions[k := s]))
    }

    function Register(length: nat): Table {
      this.(index := index.(lengths := index.lengths + {length}))
    }

    /** A connection that its chain handled after reserving `slots` slots: without one the session is counted now,
        old sessions make room, the session enters. */
    function Connect(k: Cid, addr: Addr, slots: nat, victims: seq<Cid>): Table {
      this.(count := count + Max(slots, 1)).ForgetAll(victims).Enter(k, addr)
    }

    /** A connection that comes to nothing gives one slot back, however many its chain reserved. */
    function Reject(slots: nat): Table {
      this.(count := count + Max(slots, 1) - 1)
    }

    /** How many slots are counted that no session stands for. */
    function Excess(): int {
      count - |index.sessions|
    }

    /** A session created under the current chain enters the table. */
    function Enter(k: Cid, addr: Addr): Table {
      this.(index := index.Insert(k, addr, chains.current), chains := chains.Retain(chains.current))
    }

    function Migrate(k: Cid, addr: Addr): Table
      requires k in index.sessions
    {
      this.(index := index.Migrate(k, addr))
    }

    function Learn(k: Cid, scids: seq<Cid>): Table {
      this.(index := index.LearnAll(k, scids))
    }

    function Reload(c: Chain): Table {
      this.(chains := chains.Reload(c))
    }

    function Stop(order: seq<Cid>): Table {
      var t := ForgetAll(order);
      t.(chains := t.chains.ShutdownAll())
    }

    /** All that does not concern the counter. */
    ghost predicate Linked() {
      index.Inv() && chains.Inv(index.sessions)
    }

    ghost predicate Inv() {
      Linked() && |index.sessions| <= count && |index.sessions| < CLEANUP_AT
    }

    /** The sessions that must go before one more is stored. */
    ghost predicate MakesRoom(slots: nat, victims: seq<Cid>) {
      && Distinct(victims) && (forall v | v in victims :: v in index.sessions)
      && |victims| == Min(Surplus(count + Max(slots, 1)), |index.sessions|)
    }

    lemma ForgetKeepsLinked(k: Cid)
      requires Linked()
      ensures Forget(k).Linked()
      ensures Forget(k).index.sessions == index.sessions - {k}
      ensures Forget(k).count - |Forget(k).index.sessions| == count - |index.sessions|
      ensures Forget(k).chains.installed == chains.installed && Forget(k).chains.current == chains.current
    {
      hide Index.Inv, Chains.Inv, Index.Remove, Chains.Release;
      if k in index.sessions {
        index.RemoveKeepsInv(k);
        chains.ReleaseKeepsInv(index.sessions, k);
        RemovalShrinks(index.sessions, k);
      } else {
        assert index.sessions - {k} == index.sessions;
      }
    }

    lemma {:induction false} ForgetAllKeepsLinked(ks: seq<Cid>)
      requires Linked()
      ensures ForgetAll(ks).Linked()
      ensures ForgetAll(ks).index.sessions == index.sessions - (set k | k in ks)
      ensures ForgetAll(ks).count - |ForgetAll(ks).index.sessions| == count - |index.sessions|
      ensures ForgetAll(ks).chains.installed == chains.installed && ForgetAll(ks).chains.current == chains.current
      decreases |ks|
    {
      hide Forget, Linked;
      if ks == [] {
        assert index.sessions - (set k | k in ks) == index.sessions;
      } else {
        ForgetKeepsLinked(ks[0]);
        Forget(ks[0]).ForgetAllKeepsLinked(ks[1..]);
        MinusStepwise(index.sessions, ks);
      }
    }

    lemma ConnectKeepsInv(k: Cid, addr: Addr, slots: nat, victims: seq<Cid>)
      requires Inv() && k !in index.sessions && MakesRoom(slots, victims)
      ensures Connect(k, addr, slots, victims).Inv()
      ensures Connect(k, addr, slots, victims).Excess() == Excess() + Max(slots, 1) - 1
    {
      hide Inv, Linked, Enter, ForgetAll, MakesRoom, Index.Inv, Chains.Inv, Distinct;
      RoomIsMade(slots, victims);
      var t := this.(count := count + Max(slots, 1)).ForgetAll(victims);
      assert k !in t.index.sessions.Keys;
      t.EnterKeepsInv(k, addr);
    }

    lemma EnterKeepsInv(k: Cid, addr: Addr)
      requires Linked() && k !in index.sessions && |index.sessions| < count && |index.sessions| + 1 < CLEANUP_AT
      ensures Enter(k, addr).Inv() && Enter(k, addr).Excess() == Excess() - 1
    {
      hide Index.Inv, Chains.Inv, Chains.Retain;
      index.InsertKeepsInv(k, addr, chains.current);
      chains.RetainKeepsInv(index.sessions, k, Session(k, addr, chains.current));
      InsertionGrows(index.sessions, k, Session(k, addr, chains.current));
    }

    lemma RoomIsMade(slots: nat, victims: seq<Cid>)
      requires Inv() && MakesRoom(slots, victims)
      ensures var t := this.(count := count + Max(slots, 1)).ForgetAll(victims);
              && t.Linked() && t.index.sessions.Keys == index.sessions.Keys - (set v | v in victims)
              && |t.index.sessions| < t.count && |t.index.sessions| + 1 < CLEANUP_AT
              && t.Excess() == Excess() + Max(slots, 1)
    {
      hide Index.Inv, Chains.Inv, ForgetAll;
      this.(count := count + Max(slots, 1)).ForgetAllKeepsLinked(victims);
      RemainingAfter(index.sessions, victims);
    }

    lemma MigrateKeepsInv(k: Cid, addr: Addr)
      requires Inv() && k in index.sessions
      ensures Migrate(k, addr).Inv() && Migrate(k, addr).Excess() == Excess()
    {
      hide Index.Inv, Chains.Inv;
      index.MigrateKeepsInv(k, addr);
      chains.MigrationKeepsInv(index.sessions, k, addr);
      assert index.Migrate(k, addr).sessions.Keys == index.sessions.Keys;
    }

    lemma LearnKeepsInv(k: Cid, scids: seq<Cid>)
      requires Inv() && k in index.sessions
      ensures Learn(k, scids).Inv() && Learn(k, scids).Excess() == Excess()
    {
      hide Index.Inv, Chains.Inv;
      index.LearnAllKeepsInv(k, scids);
    }
  }

  lemma ReloadKeepsTableInv(t: Table, c: Chain)
    requires t.Inv() && c !in t.chains.installed
    ensures t.Reload(c).Inv()
  {
    hide Index.Inv, Chains.Inv, Chains.Reload;
    t.chains.ReloadKeepsInv(t.index.sessions, c);
  }

  // ---------------------------------------------------------------------------------------
  // What each step does, entry by entry
  // ---------------------------------------------------------------------------------------

  /** Exactly the new ids among `scids` became aliases of `k`, with their lengths; nothing else changed. */
  ghost predicate Learnt(before: Index, after: Index, k: Cid, scids: seq<Cid>) {
    && after.sessions == before.sessions && after.clients == before.clients
    && (forall a :: a in after.aliases <==> a in before.aliases || (a in scids && a != k))
    && (forall a | a in before.aliases :: after.aliases[a] == before.aliases[a])
    && (forall a | a in after.aliases && a !in before.aliases :: after.aliases[a] == k && |a| in after.lengths)
    && before.lengths <= after.lengths
    && (forall l | l in after.lengths && l !in before.lengths :: exists s :: s in scids && |s| == l)
  }

  lemma {:induction false} LearnAllLearns(ix: Index, k: Cid, scids: seq<Cid>)
    ensures Learnt(ix, ix.LearnAll(k, scids), k, scids)
    decreases |scids|
  {
    if scids != [] {
      var next := ix.Learn(k, scids[0]);
      LearnOneLearns(ix, k, scids[0]);
      LearnAllLearns(next, k, scids[1..]);
      LearntStepwise(ix, next, next.LearnAll(k, scids[1..]), k, scids);
    }
  }

  lemma LearnOneLearns(ix: Index, k: Cid, scid: Cid)
    ensures Learnt(ix, ix.Learn(k, scid), k, [scid])
  {
    assert scid in [scid];
  }

  lemma LearntStepwise(ix: Index, next: Index, last: Index, k: Cid, scids: seq<Cid>)
    requires scids != [] && Learnt(ix, next, k, [scids[0]]) && Learnt(next, last, k, scids[1..])
    ensures Learnt(ix, last, k, scids)
  {
    forall a ensures a in scids <==> a == scids[0] || a in scids[1..] {}
    forall l | l in last.lengths && l !in ix.lengths ensures exists s :: s in scids && |s| == l {
      var s :| (s in [scids[0]] || s in scids[1..]) && |s| == l;
      assert s in scids;
    }
  }

  /** The sessions in `gone` and what belongs to them are no longer there; nothing else is missing. A client entry goes with
      every session that has its address. */
  ghost predicate Remains(before: Index, after: Index, gone: seq<Cid>) {
    && (forall k :: k in after.sessions <==> k in before.sessions && k !in gone)
    && (forall k | k in after.sessions :: after.sessions[k] == before.sessions[k])
    && (forall a :: a in after.aliases <==> a in before.aliases && before.aliases[a] !in gone)
    && (forall a | a in after.aliases :: after.aliases[a] == before.aliases[a])
    && (forall c :: c in after.clients <==>
          c in before.clients && forall k | k in gone && k in before.sessions :: before.sessions[k].addr != c)
    && (forall c | c in after.clients :: after.clients[c] == before.clients[c])
    && after.lengths == before.lengths
  }

  lemma ForgetRemains(t: Table, k: Cid)
    requires t.Linked()
    ensures Remains(t.index, t.Forget(k).index, [k])
  {
    hide Chains.Inv, Chains.Release;
  }

  lemma {:induction false} ForgetAllRemains(t: Table, ks: seq<Cid>)
    requires t.Linked()
    ensures Remains(t.index, t.ForgetAll(ks).index, ks)
    decreases |ks|
  {
    if ks != [] {
      hide Table.Forget, Table.Linked, Remains;
      t.ForgetKeepsLinked(ks[0]);
      ForgetRemains(t, ks[0]);
      ForgetAllRemains(t.Forget(ks[0]), ks[1..]);
      RemainsStepwise(t.index, t.Forget(ks[0]).index, t.ForgetAll(ks).index, ks);
    }
  }

  lemma RemainsStepwise(ix: Index, next: Index, last: Index, ks: seq<Cid>)
    requires ks != [] && Remains(ix, next, [ks[0]]) && Remains(next, last, ks[1..])
    ensures Remains(ix, last, ks)
  {
    forall k ensures k in ks <==> k == ks[0] || k in ks[1..] {}
    forall k ensures k in [ks[0]] <==> k == ks[0] {}
  }

  /** Session `k` has a new address, and its client entry with it; nothing else changed. */
  ghost predicate Moved(before: Table, after: Table, k: Cid, addr: Addr)
    requires k in before.index.sessions
  {
    var ix, ix' := before.index, after.index;
    var was := ix.sessions[k].addr;
    && ix'.sessions.Keys == ix.sessions.Keys && (forall j | j in ix.sessions && j != k :: ix'.sessions[j] == ix.sessions[j])
    && ix'.sessions[k] == Session(ix.sessions[k].dcid, addr, ix.sessions[k].chain)
    && addr in ix'.clients && ix'.clients[addr] == k
    && (was != addr ==> was !in ix'.clients)
    && (forall c | c != addr && c != was :: c in ix'.clients <==> c in ix.clients)
    && (forall c | c != addr && c in ix'.clients :: ix'.clients[c] == ix.clients[c])
    && ix'.aliases == ix.aliases && ix'.aliasesOf == ix.aliasesOf && ix'.lengths == ix.lengths
    && after.count == before.count && after.chains == before.chains
  }

  lemma MigrateMoves(t: Table, k: Cid, addr: Addr)
    requires k in t.index.sessions
    ensures Moved(t, t.Migrate(k, addr), k, addr)
  {}

  /** Session `k` is new, under the current chain, with its client's address and its length; the victims are gone with all that
      belonged to them, and nothing else changed. */
  ghost predicate Joined(before: Table, after: Table, k: Cid, addr: Addr, slots: nat, victims: seq<Cid>) {
    var ix, ix' := before.index, after.index;
    && ix'.sessions.Keys == ix.sessions.Keys - (set v | v in victims) + {k}
    && ix'.sessions[k] == Session(k, addr, before.chains.current)
    && (forall j | j in ix'.sessions && j != k :: ix'.sessions[j] == ix.sessions[j])
    && addr in ix'.clients && ix'.clients[addr] == k
    && (forall c | c != addr :: c in ix'.clients <==>
          c in ix.clients && forall v | v in victims && v in ix.sessions :: ix.sessions[v].addr != c)
    && (forall c | c != addr && c in ix'.clients :: ix'.clients[c] == ix.clients[c])
    && (forall a :: a in ix'.aliases <==> a in ix.aliases && ix.aliases[a] !in victims)
    && (forall a | a in ix'.aliases :: ix'.aliases[a] == ix.aliases[a])
    && ix'.lengths == ix.lengths + {|k|}
    && after.count == before.count + Max(slots, 1) - |victims|
    && after.chains.current == before.chains.current && after.chains.installed == before.chains.installed
  }

  lemma ConnectJoins(t: Table, k: Cid, addr: Addr, slots: nat, victims: seq<Cid>)
    requires t.Inv() && k !in t.index.sessions && t.MakesRoom(slots, victims)
    ensures Joined(t, t.Connect(k, addr, slots, victims), k, addr, slots, victims)
  {
    hide Table.Inv, Table.Linked, Table.ForgetAll, Table.MakesRoom, Table.Enter, Remains, Joined;
    var counted := t.(count := t.count + Max(slots, 1));
    InvIsLinked(t, counted);
    counted.ForgetAllKeepsLinked(victims);
    ForgetAllRemains(counted, victims);
    VictimsAreCounted(t, counted, slots, victims);
    EnteringJoins(t, counted.ForgetAll(victims), k, addr, slots, victims);
  }

  lemma EnteringJoins(t: Table, room: Table, k: Cid, addr: Addr, slots: nat, victims: seq<Cid>)
    requires k !in t.index.sessions && Remains(t.index, room.index, victims)
    requires room.count == t.count + Max(slots, 1) - |victims|
    requires room.chains.current == t.chains.current && room.chains.installed == t.chains.installed
    ensures Joined(t, room.Enter(k, addr), k, addr, slots, victims)
  {
    var joined := room.Enter(k, addr);
    assert joined.index.sessions.Keys == t.index.sessions.Keys - (set v | v in victims) + {k};
  }

  lemma InvIsLinked(t: Table, counted: Table)
    requires t.Inv() && counted == t.(count := counted.count)
    ensures counted.Linked()
  {
    hide Index.Inv, Chains.Inv;
  }

  lemma VictimsAreCounted(t: Table, counted: Table, slots: nat, victims: seq<Cid>)
    requires t.Inv() && t.MakesRoom(slots, victims) && counted == t.(count := t.count + Max(slots, 1)) && counted.Linked()
    ensures counted.ForgetAll(victims).count == counted.count - |victims|
  {
    hide Index.Inv, Chains.Inv, Table.ForgetAll;
    counted.ForgetAllKeepsLinked(victims);
    RemainingAfter(t.index.sessions, victims);
  }

  /** A reload makes the new chain current and touches nothing but the chains. */
  lemma ReloadInstalls(t: Table, c: Chain)
    ensures var r := t.Reload(c);
            && r.chains.current == c && r.chains.installed == t.chains.installed + {c}
            && r.index == t.index && r.count == t.count
  {}

  /** From 90000 counted sessions on, a tenth of the count must go. */
  lemma SurplusIsATenth(count: nat)
    ensures count < 90000 ==> Surplus(count) == 0
    ensures count >= 90000 ==> 10 * Surplus(count) <= count < 10 * Surplus(count) + 10
  {}

  lemma MinusStepwise(m: map<Cid, Session>, ks: seq<Cid>)
    requires ks != []
    ensures m - {ks[0]} - (set k | k in ks[1..]) == m - (set k | k in ks)
  {
    assert (set k | k in ks) == {ks[0]} + (set k | k in ks[1..]);
  }

  predicate Distinct(ks: seq<Cid>) {
    forall i, j | 0 <= i < j < |ks| :: ks[i] != ks[j]
  }

  lemma InsertionGrows(m: map<Cid, Session>, k: Cid, s: Session)
    requires k !in m
    ensures m[k := s].Keys == m.Keys + {k} && |m[k := s]| == |m| + 1
  {
    assert m[k := s].Keys == m.Keys + {k};
  }

  lemma RemovalShrinks(m: map<Cid, Session>, k: Cid)
    requires k in m
    ensures |m - {k}| == |m| - 1
  {
    assert (m - {k}).Keys == m.Keys - {k};
  }

  lemma {:induction false} SizeOfDistinct(ks: seq<Cid>)
    requires Distinct(ks)
    ensures |set k | k in ks| == |ks|
    decreases |ks|
  {
    if ks != [] {
      SizeOfDistinct(ks[1..]);
      assert (set k | k in ks) == {ks[0]} + (set k | k in ks[1..]);
    }
  }

  lemma RemainingAfter(m: map<Cid, Session>, victims: seq<Cid>)
    requires Distinct(victims) && forall v | v in victims :: v in m
    ensures |m - (set v | v in victims)| == |m| - |victims|
    ensures (m - (set v | v in victims)).Keys == m.Keys - (set v | v in victims)
  {
    var gone := set v | v in victims;
    SizeOfDistinct(victims);
    assert (m - gone).Keys == m.Keys - gone;
    assert gone <= m.Keys;
  }

  // ---------------------------------------------------------------------------------------
  // Runs
  // ---------------------------------------------------------------------------------------

  datatype Event =
    | Connected(key: Cid, addr: Addr, slots: nat, victims: seq<Cid>)
    | Rejected(slots: nat)
    | Learned(key: Cid, scids: seq<Cid>)
    | Migrated(key: Cid, addr: Addr)
    | Deleted(key: Cid)
    | Reloaded(chain: Chain)

  function Start(chain: Chain): Table {
    Table(Index(map[], map[], map[], map[], {}), 0, Chains(chain, map[chain := 0], {}, multiset{}, {chain}))
  }

  ghost predicate Enabled(t: Table, e: Event) {
    match e
    case Connected(k, _, slots, victims) => k !in t.index.sessions && t.MakesRoom(slots, victims)
    case Rejected(_) => true
    case Learned(k, _) => k in t.index.sessions
    case Migrated(k, _) => k in t.index.sessions
    case Deleted(k) => true
    case Reloaded(c) => c !in t.chains.installed
  }

  ghost function Apply(t: Table, e: Event): Table
    requires Enabled(t, e)
  {
    match e
    case Connected(k, addr, slots, victims) => t.Connect(k, addr, slots, victims)
    case Rejected(slots) => t.Reject(slots)
    case Learned(k, scids) => t.Learn(k, scids)
    case Migrated(k, addr) => t.Migrate(k, addr)
    case Deleted(k) => t.Forget(k)
    case Reloaded(c) => t.Reload(c)
  }

  ghost predicate Possible(t: Table, run: seq<Event>)
    decreases |run|
  {
    run == [] || (Enabled(t, run[0]) && Possible(Apply(t, run[0]), run[1..]))
  }

  ghost function After(t: Table, run: seq<Event>): Table
    requires Possible(t, run)
    decreases |run|
  {
    if run == [] then t else After(Apply(t, run[0]), run[1..])
  }

  /** After any run the counter is the number of live sessions exactly when no connection reserved twice. */
  lemma CounterIsExactExactlyWhen(first: Chain, run: seq<Event>)
    requires Possible(Start(first), run)
    ensures After(Start(first), run).count == |After(Start(first), run).index.sessions|
       <==> forall e | e in run && (e.Connected? || e.Rejected?) :: e.slots <= 1
  {
    hide Possible, After, Table.Inv, AllLost, Start;
    StartInv(first);
    RunKeepsInv(Start(first), run);
  }

  lemma StartInv(chain: Chain)
    ensures Start(chain).Inv() && Start(chain).Excess() == 0
  {
    assert Users(map[], chain) == {};
  }

  lemma StepKeepsInv(t: Table, e: Event)
    requires t.Inv() && Enabled(t, e)
    ensures Apply(t, e).Inv() && Apply(t, e).Excess() == t.Excess() + Lost(e)
  {
    hide Index.Inv, Chains.Inv, Table.Forget, Table.Connect, Table.Migrate, Table.Learn, Index.Migrate, Table.MakesRoom;
    match e {
      case Connected(k, addr, slots, victims) => t.ConnectKeepsInv(k, addr, slots, victims);
      case Rejected(_) =>
      case Learned(k, scids) => t.LearnKeepsInv(k, scids);
      case Migrated(k, addr) => t.MigrateKeepsInv(k, addr);
      case Deleted(k) =>
        t.ForgetKeepsLinked(k);
        if k in t.index.sessions {
          RemovalShrinks(t.index.sessions, k);
        }
      case Reloaded(c) => ReloadKeepsTableInv(t, c);
    }
  }

  /** The slots that a step leaves counted for ever: all but one of those reserved for a connection. */
  function Lost(e: Event): nat {
    match e
    case Connected(_, _, slots, _) => Max(slots, 1) - 1
    case Rejected(slots) => Max(slots, 1) - 1
    case _ => 0
  }

  function AllLost(run: seq<Event>): (n: nat)
    ensures n == 0 <==> forall e | e in run :: Lost(e) == 0
  {
    if run == [] then 0 else Lost(run[0]) + AllLost(run[1..])
  }

  /** Every run keeps the indexes consistent, the references exact and the table below the cleanup mark,
      and the counter exceeds the sessions by exactly what was lost. */
  lemma {:induction false} RunKeepsInv(t: Table, run: seq<Event>)
    requires t.Inv() && Possible(t, run)
    ensures After(t, run).Inv() && After(t, run).Excess() == t.Excess() + AllLost(run)
    decreases |run|
  {
    if run != [] {
      hide Table.Inv, Enabled, Apply, Lost;
      StepKeepsInv(t, run[0]);
      RunKeepsInv(Apply(t, run[0]), run[1..]);
    }
  }

  /** The idle sweep and the deletions of a stop are runs too. */
  lemma {:induction false} DeletionsAreARun(t: Table, ks: seq<Cid>)
    ensures var run := seq(|ks|, i requires 0 <= i < |ks| => Deleted(ks[i]));
            Possible(t, run) && After(t, run) == t.ForgetAll(ks)
    decreases |ks|
  {
    hide Table.Forget;
    if ks != [] {
      var run := seq(|ks|, i requires 0 <= i < |ks| => Deleted(ks[i]));
      DeletionsAreARun(t.Forget(ks[0]), ks[1..]);
      assert run[1..] == seq(|ks[1..]|, i requires 0 <= i < |ks[1..]| => Deleted(ks[1..][i]));
    }
  }

  /** Over whole runs: a chain that is current or used by a live session has not been shut down, no chain has
      been shut down twice, and a chain that is neither has been shut down. */
  lemma ChainsLiveExactlyAsLongAsNeeded(first: Chain, run: seq<Event>, c: Chain)
    requires Possible(Start(first), run)
    ensures var t := After(Start(first), run);
            var needed := c == t.chains.current || exists k | k in t.index.sessions :: t.index.sessions[k].chain == c;
            t.chains.shutdowns[c] == if c in t.chains.installed && !needed then 1 else 0
  {
    StartInv(first);
    RunKeepsInv(Start(first), run);
    var t := After(Start(first), run);
    if c in t.chains.retired {
      var users := Users(t.index.sessions, c);
      assert |users| > 0;
      var k :| k in users;
    }
  }

  /** When the proxy stops after any run, nothing is left in the table,
      and every chain that was ever installed has been shut down exactly once. */
  lemma StopEndsEverything(first: Chain, run: seq<Event>, order: seq<Cid>)
    requires Possible(Start(first), run)
    requires forall k | k in After(Start(first), run).index.sessions :: k in order
    ensures var t := After(Start(first), run).Stop(order);
            && t.index.sessions == map[] && t.index.aliases == map[] && t.index.aliasesOf == map[]
            && t.index.clients == map[] && t.count == AllLost(run)
            && forall c | c in t.chains.installed :: t.chains.shutdowns[c] == 1
  {
    StartInv(first);
    RunKeepsInv(Start(first), run);
    StopEnds(After(Start(first), run), order);
  }

  lemma StopEnds(t: Table, order: seq<Cid>)
    requires t.Inv() && forall k | k in t.index.sessions :: k in order
    ensures var e := t.Stop(order);
            && e.index.sessions == map[] && e.index.aliases == map[] && e.index.aliasesOf == map[]
            && e.index.clients == map[] && e.count == t.Excess()
            && e.chains.installed == t.chains.installed
            && forall c | c in e.chains.installed :: e.chains.shutdowns[c] == 1
  {
    hide Table.ForgetAll, Index.Inv, Chains.Inv, Chains.ShutdownAll;
    t.ForgetAllKeepsLinked(order);
    var e := t.ForgetAll(order);
    assert e.index.sessions == map[];
    e.index.EmptyWithoutSessions();
    e.chains.ShutdownAllIsComplete();
  }
}
