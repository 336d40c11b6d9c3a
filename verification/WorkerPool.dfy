/** Packets sharded over workers by client address. Each channel operation, counter update and buffer
    return is one step; submitters and workers interleave freely. */
module WorkerPool {
  import opened Bytes
  import opened Counting
  import InitialPacket

  /** A submitted packet with its buffer; `id` names the submission. */
  datatype Item = Item(id: nat, client: Addr, packet: seq<Byte>)

  /** The walk over the packet's header leaves the packet. */
  predicate Overruns(item: Item) {
    InitialPacket.WalkHeader(item.packet).OutOfRange?
  }

  // ---------------------------------------------------------------------------------------
  // Sharding: FNV-1a over the address, in 32-bit arithmetic
  // ---------------------------------------------------------------------------------------

  function Mix(h: bv32, v: bv32): bv32 {
    (h ^ v) * 16777619
  }

  function Wide(b: bv8): bv32 { b as bv32 }

  function Port(port: bv16): bv32 { port as bv32 }

  function PortHigh(port: bv16): bv32 { (port >> 8) as bv32 }

  function HashIp(h: bv32, ip: seq<bv8>): bv32
    decreases |ip|
  {
    if ip == [] then h else HashIp(Mix(h, Wide(ip[0])), ip[1..])
  }

  function Hash(addr: Addr): bv32 {
    Mix(Mix(HashIp(2166136261, addr.ip), Port(addr.port)), PortHigh(addr.port))
  }

  /** FNV-1a of nothing, of "a" and of "foobar", as published with the algorithm. */
  lemma HashIsFnv1a()
    ensures HashIp(2166136261, []) == 0x811c9dc5
    ensures HashIp(2166136261, [0x61]) == 0xe40c292c
    ensures HashIp(2166136261, [0x66, 0x6f, 0x6f, 0x62, 0x61, 0x72]) == 0xbf9cf968
  {
    var a: seq<bv8> := [0x61];
    assert a[1..] == [];
    var s: seq<bv8> := [0x66, 0x6f, 0x6f, 0x62, 0x61, 0x72];
    assert s[1..] == [0x6f, 0x6f, 0x62, 0x61, 0x72] && s[1..][1..] == [0x6f, 0x62, 0x61, 0x72];
    assert s[1..][1..][1..] == [0x62, 0x61, 0x72] && s[1..][1..][1..][1..] == [0x61, 0x72];
    assert s[1..][1..][1..][1..][1..] == [0x72] && s[1..][1..][1..][1..][1..][1..] == [];
  }

  method HashAddr(addr: Addr) returns (h: bv32)
    ensures h == Hash(addr)
  {
    hide Mix, Wide, Port, PortHigh;
    h := 2166136261;
    var i := 0;
    assert addr.ip[0..] == addr.ip;
    while i < |addr.ip|
      invariant 0 <= i <= |addr.ip|
      invariant HashIp(2166136261, addr.ip) == HashIp(h, addr.ip[i..])
    {
      assert addr.ip[i..][1..] == addr.ip[i + 1..];
      h := Mix(h, Wide(addr.ip[i]));
      i := i + 1;
    }
    h := Mix(h, Port(addr.port));
    h := Mix(h, PortHigh(addr.port));
  }

  function ShardOf(addr: Addr, workers: nat): (i: nat)
    requires workers > 0
    ensures i < workers
  {
    Hash(addr) as nat % workers
  }

  /** A whole address by example: the bytes of the IP, then the port, then its high byte; the shard is the remainder. */
  lemma ShardByExample()
    ensures Hash(Addr([127, 0, 0, 1], 4433)) == 0xbb54067f
    ensures ShardOf(Addr([127, 0, 0, 1], 4433), 16) == 15
  {
    var s: seq<bv8> := [127, 0, 0, 1];
    assert s[1..] == [0, 0, 1] && s[1..][1..] == [0, 1] && s[1..][1..][1..] == [1] && s[1..][1..][1..][1..] == [];
    assert (0xbb54067f as bv32) as nat == 0xbb54067f;
  }

  // ---------------------------------------------------------------------------------------
  // State
  // ---------------------------------------------------------------------------------------

  datatype Worker = Waiting | Handling(item: Item) | Returning(item: Item) | Done

  /** A shard's channel, worker and drop counter, with the packets it has handled and the buffers it returned. */
  datatype Shard = Shard(
    queue: seq<Item>, closed: bool, worker: Worker, dropped: nat, handled: seq<Item>, returned: seq<Item>)
  {
    function InHand(): seq<Item> {
      if worker.Handling? then [worker.item] else []
    }

    function Unreturned(): seq<Item> {
      if worker.Returning? then [worker.item] else []
    }
  }

  /** A goroutine that submits: between its calls, or in the drop branch before or after the count. */
  datatype Pc = Ready | Dropping(item: Item) | Counted(item: Item)

  datatype Submitter = Submitter(pc: Pc, returned: seq<Item>) {
    function Unreturned(): seq<Item> {
      if pc.Ready? then [] else [pc.item]
    }
  }

  /** One call of Submit: who called, with what, and whether the queue took it. */
  datatype Entry = Entry(tid: nat, item: Item, accepted: bool)

  /** `crashed`: a panic has ended the program, because a submission met a closed channel or the handler walked over a
      header that leaves its packet. */
  datatype State = State(
    cap: nat, shards: seq<Shard>, submitters: map<nat, Submitter>, log: seq<Entry>, crashed: bool)
  {
    function At(t: nat): Submitter {
      if t in submitters then submitters[t] else Submitter(Ready, [])
    }

    function ShardIndex(item: Item): nat
      requires |shards| > 0
    {
      ShardOf(item.client, |shards|)
    }
  }

  function Fresh(workers: nat, cap: nat): State
    requires workers > 0
  {
    State(cap, seq(workers, _ => Shard([], false, Waiting, 0, [], [])), map[], [], false)
  }

  // ---------------------------------------------------------------------------------------
  // Steps
  // ---------------------------------------------------------------------------------------

  /** `walks`: the handler takes the packet for one of a new connection and walks over its header. */
  datatype Action =
    | Submit(t: nat, item: Item)
    | CountDrop(t: nat)
    | ReturnDropped(t: nat)
    | Take(i: nat)
    | Handle(i: nat, walks: bool)
    | Return(i: nat)
    | Close(i: nat)

  predicate Enabled(s: State, a: Action)
    requires |s.shards| > 0
  {
    !s.crashed &&
    match a
    case Submit(t, _) => s.At(t).pc.Ready?
    case CountDrop(t) => s.At(t).pc.Dropping?
    case ReturnDropped(t) => s.At(t).pc.Counted?
    case Take(i) => i < |s.shards| && s.shards[i].worker.Waiting? && (s.shards[i].queue != [] || s.shards[i].closed)
    case Handle(i, _) => i < |s.shards| && s.shards[i].worker.Handling?
    case Return(i) => i < |s.shards| && s.shards[i].worker.Returning?
    case Close(i) => i < |s.shards| && !s.shards[i].closed
  }

  /** What a worker step makes of its shard. */
  function Work(sh: Shard, a: Action): Shard
    requires a.Handle? ==> sh.worker.Handling?
    requires a.Return? ==> sh.worker.Returning?
  {
    match a
    case Take(_) =>
      if sh.queue == [] then sh.(worker := Done)
      else sh.(worker := Handling(sh.queue[0]), queue := sh.queue[1..])
    case Handle(_, _) => sh.(worker := Returning(sh.worker.item), handled := sh.handled + [sh.worker.item])
    case Return(_) => sh.(worker := Waiting, returned := sh.returned + [sh.worker.item])
    case Close(_) => sh.(closed := true)
    case _ => sh
  }

  function Apply(s: State, a: Action): (s': State)
    requires |s.shards| > 0 && Enabled(s, a)
    ensures |s'.shards| == |s.shards| && s'.cap == s.cap
  {
    match a
    case Submit(t, item) =>
      var i := s.ShardIndex(item);
      var sh := s.shards[i];
      if sh.closed then s.(crashed := true)
      else if |sh.queue| < s.cap then
        s.(shards := s.shards[i := sh.(queue := sh.queue + [item])], log := s.log + [Entry(t, item, true)])
      else
        s.(submitters := s.submitters[t := s.At(t).(pc := Dropping(item))], log := s.log + [Entry(t, item, false)])
    case CountDrop(t) =>
      var item := s.At(t).pc.item;
      var i := s.ShardIndex(item);
      s.(shards := s.shards[i := s.shards[i].(dropped := s.shards[i].dropped + 1)],
         submitters := s.submitters[t := s.At(t).(pc := Counted(item))])
    case ReturnDropped(t) =>
      s.(submitters := s.submitters[t := Submitter(Ready, s.At(t).returned + [s.At(t).pc.item])])
    case Take(i) => s.(shards := s.shards[i := Work(s.shards[i], a)])
    case Handle(i, walks) =>
      if walks && Overruns(s.shards[i].worker.item) then s.(crashed := true)
      else s.(shards := s.shards[i := Work(s.shards[i], a)])
    case Return(i) => s.(shards := s.shards[i := Work(s.shards[i], a)])
    case Close(i) => s.(shards := s.shards[i := Work(s.shards[i], a)])
  }

  // ---------------------------------------------------------------------------------------
  // What the log says
  // ---------------------------------------------------------------------------------------

  /** The items of the entries that `keep` selects, in submission order. */
  function Select(log: seq<Entry>, keep: Entry -> bool): seq<Item>
    decreases |log|
  {
    if log == [] then []
    else
      var last := log[|log| - 1];
      Select(log[..|log| - 1], keep) + (if keep(last) then [last.item] else [])
  }

  lemma SelectSnoc(log: seq<Entry>, e: Entry, keep: Entry -> bool)
    ensures Select(log + [e], keep) == Select(log, keep) + (if keep(e) then [e.item] else [])
  {
    assert (log + [e])[..|log|] == log;
  }

  function Accepted(workers: nat, i: nat): Entry -> bool
    requires workers > 0
  {
    (e: Entry) => e.accepted && ShardOf(e.item.client, workers) == i
  }

  function Refused(workers: nat, i: nat): Entry -> bool
    requires workers > 0
  {
    (e: Entry) => !e.accepted && ShardOf(e.item.client, workers) == i
  }

  function RefusedBy(t: nat): Entry -> bool {
    (e: Entry) => !e.accepted && e.tid == t
  }

  /** The submitters that have decided to drop a packet of shard i but not counted it. */
  function Uncounted(s: State, i: nat): set<nat>
    requires |s.shards| > 0
  {
    set t | t in s.submitters && s.submitters[t].pc.Dropping? && s.ShardIndex(s.submitters[t].pc.item) == i
  }

  ghost predicate ShardInv(s: State, i: nat)
    requires i < |s.shards|
  {
    var sh := s.shards[i];
    && Select(s.log, Accepted(|s.shards|, i)) == sh.handled + sh.InHand() + sh.queue
    && sh.handled == sh.returned + sh.Unreturned()
    && |sh.queue| <= s.cap
    && |Select(s.log, Refused(|s.shards|, i))| == sh.dropped + |Uncounted(s, i)|
    && (sh.worker.Done? ==> sh.closed && sh.queue == [])
  }

  ghost predicate SubmitterInv(s: State, t: nat) {
    Select(s.log, RefusedBy(t)) == s.At(t).returned + s.At(t).Unreturned()
  }

  ghost predicate Inv(s: State) {
    && |s.shards| > 0
    && (forall i: nat | i < |s.shards| :: ShardInv(s, i))
    && (forall t: nat :: SubmitterInv(s, t))
  }

  // ---------------------------------------------------------------------------------------
  // Every step keeps it
  // ---------------------------------------------------------------------------------------

  lemma UncountedMoved(s: State, s': State, t: nat, i: nat)
    requires |s.shards| == |s'.shards| > 0
    requires t in s'.submitters && s'.submitters == s.submitters[t := s'.At(t)]
    ensures var was := s.At(t).pc.Dropping? && s.ShardIndex(s.At(t).pc.item) == i;
            var now := s'.At(t).pc.Dropping? && s.ShardIndex(s'.At(t).pc.item) == i;
            |Uncounted(s', i)| == |Uncounted(s, i)| - (if was then 1 else 0) + (if now then 1 else 0)
  {
    SizeAfter(Uncounted(s, i), Uncounted(s', i), t);
  }

  lemma SubmitKeepsShard(s: State, a: Action, i: nat)
    requires Inv(s) && a.Submit? && Enabled(s, a) && i < |s.shards|
    ensures ShardInv(Apply(s, a), i)
  {
    hide Hash, Overruns, Select, Uncounted;
    var s' := Apply(s, a);
    assert ShardInv(s, i);
    if s'.crashed {
      SameSubmitters(s, s', i);
      return;
    }
    var e := s'.log[|s.log|];
    SelectSnoc(s.log, e, Accepted(|s.shards|, i));
    SelectSnoc(s.log, e, Refused(|s.shards|, i));
    if e.accepted {
      SameSubmitters(s, s', i);
    } else {
      UncountedMoved(s, s', a.t, i);
    }
  }

  lemma SameSubmitters(s: State, s': State, i: nat)
    requires |s.shards| == |s'.shards| > 0 && s'.submitters == s.submitters
    ensures Uncounted(s', i) == Uncounted(s, i)
  {}

  lemma StepKeepsShard(s: State, a: Action, i: nat)
    requires Inv(s) && Enabled(s, a) && i < |s.shards|
    ensures ShardInv(Apply(s, a), i)
  {
    hide Hash, Overruns, Select, Uncounted;
    var s' := Apply(s, a);
    assert ShardInv(s, i);
    match a {
      case Submit(_, _) => SubmitKeepsShard(s, a, i);
      case CountDrop(t) => UncountedMoved(s, s', t, i);
      case ReturnDropped(t) => UncountedMoved(s, s', t, i);
      case _ => SameSubmitters(s, s', i);
    }
  }

  lemma StepKeepsSubmitter(s: State, a: Action, t: nat)
    requires Inv(s) && Enabled(s, a)
    ensures SubmitterInv(Apply(s, a), t)
  {
    hide Hash, Overruns, Select, ShardInv;
    assert SubmitterInv(s, t);
    if a.Submit? && !Apply(s, a).crashed {
      SelectSnoc(s.log, Apply(s, a).log[|s.log|], RefusedBy(t));
    }
  }

  lemma StepKeepsInv(s: State, a: Action)
    requires Inv(s) && Enabled(s, a)
    ensures Inv(Apply(s, a))
  {
    hide ShardInv, SubmitterInv;
    forall i: nat | i < |s.shards| ensures ShardInv(Apply(s, a), i) { StepKeepsShard(s, a, i); }
    forall t: nat ensures SubmitterInv(Apply(s, a), t) { StepKeepsSubmitter(s, a, t); }
  }

  // ---------------------------------------------------------------------------------------
  // Runs
  // ---------------------------------------------------------------------------------------

  ghost predicate Possible(s: State, run: seq<Action>)
    requires |s.shards| > 0
    decreases |run|
  {
    run == [] || (Enabled(s, run[0]) && Possible(Apply(s, run[0]), run[1..]))
  }

  ghost function After(s: State, run: seq<Action>): (e: State)
    requires |s.shards| > 0 && Possible(s, run)
    ensures |e.shards| == |s.shards|
    decreases |run|
  {
    if run == [] then s else After(Apply(s, run[0]), run[1..])
  }

  lemma {:induction false} RunKeepsInv(s: State, run: seq<Action>)
    requires Inv(s) && Possible(s, run)
    ensures Inv(After(s, run)) && |After(s, run).shards| == |s.shards| && After(s, run).cap == s.cap
    decreases |run|
  {
    if run != [] {
      hide Inv;
      StepKeepsInv(s, run[0]);
      RunKeepsInv(Apply(s, run[0]), run[1..]);
    }
  }

  lemma FreshInv(workers: nat, cap: nat)
    requires workers > 0
    ensures Inv(Fresh(workers, cap))
  {
    hide Hash, Overruns;
    var s := Fresh(workers, cap);
    forall i: nat | i < workers ensures ShardInv(s, i) {
      assert Uncounted(s, i) == {};
    }
  }

  /** The packets of one client, in order. */
  function Of(items: seq<Item>, client: Addr): seq<Item> {
    if items == [] then []
    else (if items[0].client == client then [items[0]] else []) + Of(items[1..], client)
  }

  lemma {:induction false} OfConcat(a: seq<Item>, b: seq<Item>, client: Addr)
    ensures Of(a + b, client) == Of(a, client) + Of(b, client)
    decreases |a|
  {
    if a == [] {
      assert a + b == b;
    } else {
      assert (a + b)[1..] == a[1..] + b;
      OfConcat(a[1..], b, client);
    }
  }

  function AcceptedFrom(client: Addr): Entry -> bool {
    (e: Entry) => e.accepted && e.item.client == client
  }

  lemma {:induction false} OfAccepted(log: seq<Entry>, workers: nat, client: Addr)
    requires workers > 0
    ensures Of(Select(log, Accepted(workers, ShardOf(client, workers))), client) == Select(log, AcceptedFrom(client))
    decreases |log|
  {
    hide Hash, Overruns;
    if log != [] {
      var init, last := log[..|log| - 1], log[|log| - 1];
      var keep := Accepted(workers, ShardOf(client, workers));
      OfAccepted(init, workers, client);
      OfConcat(Select(init, keep), if keep(last) then [last.item] else [], client);
      assert Of([last.item], client) == if last.item.client == client then [last.item] else [];
    }
  }

  /** In every reachable state every shard and every submitter accounts for its part of the log. */
  lemma ReachableInv(workers: nat, cap: nat, run: seq<Action>)
    requires workers > 0 && Possible(Fresh(workers, cap), run)
    ensures var s := After(Fresh(workers, cap), run);
            Inv(s) && |s.shards| == workers && s.cap == cap
  {
    FreshInv(workers, cap);
    RunKeepsInv(Fresh(workers, cap), run);
  }

  lemma {:induction false} AcceptedElsewhere(log: seq<Entry>, workers: nat, i: nat, client: Addr)
    requires workers > 0 && ShardOf(client, workers) != i
    ensures Of(Select(log, Accepted(workers, i)), client) == []
    decreases |log|
  {
    hide ShardOf;
    if log != [] {
      var init, last := log[..|log| - 1], log[|log| - 1];
      AcceptedElsewhere(init, workers, i, client);
      OfConcat(Select(init, Accepted(workers, i)), if Accepted(workers, i)(last) then [last.item] else [], client);
    }
  }

  /** No other shard ever handles a packet of the client. */
  lemma OtherShardsServeOthers(workers: nat, cap: nat, run: seq<Action>, client: Addr, i: nat)
    requires workers > 0 && Possible(Fresh(workers, cap), run) && i < workers && i != ShardOf(client, workers)
    ensures var s := After(Fresh(workers, cap), run);
            |s.shards| == workers && Of(s.shards[i].handled, client) == []
  {
    hide ShardOf, Select, Enabled, Possible, After, Of, SubmitterInv, Uncounted;
    ReachableInv(workers, cap, run);
    var s := After(Fresh(workers, cap), run);
    assert ShardInv(s, i);
    var sh := s.shards[i];
    AcceptedElsewhere(s.log, workers, i, client);
    assert sh.handled + sh.InHand() + sh.queue == sh.handled + (sh.InHand() + sh.queue);
    OfConcat(sh.handled, sh.InHand() + sh.queue, client);
  }

  /** Every client's packets are handled in submission order, except those that were dropped: the handled
      ones are a prefix of the accepted ones. */
  lemma ClientsAreServedInOrder(workers: nat, cap: nat, run: seq<Action>, client: Addr)
    requires workers > 0 && Possible(Fresh(workers, cap), run)
    ensures var s := After(Fresh(workers, cap), run);
            |s.shards| == workers &&
            var sh := s.shards[ShardOf(client, workers)];
            && |sh.queue| <= cap
            && Select(s.log, AcceptedFrom(client)) == Of(sh.handled, client) + Of(sh.InHand() + sh.queue, client)
  {
    hide ShardOf, Select, Enabled, Possible, After, Of, AcceptedFrom, SubmitterInv, Uncounted;
    ReachableInv(workers, cap, run);
    var s := After(Fresh(workers, cap), run);
    var i := ShardOf(client, workers);
    assert ShardInv(s, i);
    var sh := s.shards[i];
    OfAccepted(s.log, workers, client);
    assert sh.handled + sh.InHand() + sh.queue == sh.handled + (sh.InHand() + sh.queue);
    OfConcat(sh.handled, sh.InHand() + sh.queue, client);
  }

  /** The accepted packets of a shard that its worker has not taken. */
  function Untaken(s: State, i: nat): int
    requires i < |s.shards|
  {
    |Select(s.log, Accepted(|s.shards|, i))| - |s.shards[i].handled| - |s.shards[i].InHand()|
  }

  /** In every reachable state a packet is refused exactly when its shard is open and as many accepted packets wait there
      as the queue holds. Otherwise an open shard accepts it. */
  lemma RefusedExactlyWhenFull(workers: nat, cap: nat, run: seq<Action>, t: nat, item: Item)
    requires workers > 0 && Possible(Fresh(workers, cap), run)
    requires Enabled(After(Fresh(workers, cap), run), Submit(t, item))
    ensures var s := After(Fresh(workers, cap), run);
            && |s.shards| == workers
            && var i := ShardOf(item.client, workers);
               var s' := Apply(s, Submit(t, item));
               && (s'.log == s.log + [Entry(t, item, false)] <==> !s.shards[i].closed && Untaken(s, i) == cap)
               && (s'.log == s.log + [Entry(t, item, true)] <==> !s.shards[i].closed && Untaken(s, i) < cap)
               && Untaken(s, i) <= cap
  {
    hide ShardOf, Select, Possible, After, SubmitterInv, Uncounted, Overruns;
    ReachableInv(workers, cap, run);
    var s := After(Fresh(workers, cap), run);
    var i := ShardOf(item.client, workers);
    assert ShardInv(s, i);
    assert |s.log + [Entry(t, item, false)]| == |s.log + [Entry(t, item, true)]| == |s.log| + 1;
    assert (s.log + [Entry(t, item, false)])[|s.log|] != (s.log + [Entry(t, item, true)])[|s.log|];
  }

  /** In terms of one shard: nothing is refused before the shard has been sent more than its queue holds. */
  ghost predicate NothingRefusedBelowCap(s: State, i: nat)
    requires |s.shards| > 0
  {
    |Select(s.log, SubmittedTo(|s.shards|, i))| <= s.cap ==> Select(s.log, Refused(|s.shards|, i)) == []
  }

  lemma StepRefusesNothingBelowCap(s: State, a: Action, i: nat)
    requires Inv(s) && Enabled(s, a) && i < |s.shards| && NothingRefusedBelowCap(s, i)
    ensures NothingRefusedBelowCap(Apply(s, a), i)
  {
    hide ShardOf, Select, SubmitterInv, Uncounted, Overruns;
    var s' := Apply(s, a);
    if s'.log != s.log {
      var e := s'.log[|s.log|];
      SelectSnoc(s.log, e, SubmittedTo(|s.shards|, i));
      SelectSnoc(s.log, e, Refused(|s.shards|, i));
      SubmittedSplits(s.log, |s.shards|, i);
      assert ShardInv(s, i);
    }
  }

  lemma {:induction false} RunRefusesNothingBelowCap(s: State, run: seq<Action>, i: nat)
    requires Inv(s) && Possible(s, run) && i < |s.shards| && NothingRefusedBelowCap(s, i)
    ensures |After(s, run).shards| == |s.shards| && NothingRefusedBelowCap(After(s, run), i)
    decreases |run|
  {
    if run != [] {
      hide Inv, NothingRefusedBelowCap, Enabled, Apply;
      StepKeepsInv(s, run[0]);
      StepRefusesNothingBelowCap(s, run[0], i);
      RunRefusesNothingBelowCap(Apply(s, run[0]), run[1..], i);
    }
  }

  /** A shard to which at most `cap` packets were ever submitted has dropped none of them. */
  lemma FewPacketsAreAllAccepted(workers: nat, cap: nat, run: seq<Action>, i: nat)
    requires workers > 0 && Possible(Fresh(workers, cap), run) && i < workers
    ensures var s := After(Fresh(workers, cap), run);
            |s.shards| == workers &&
            (|Select(s.log, SubmittedTo(workers, i))| <= cap ==>
               s.shards[i].dropped == 0 && Select(s.log, Accepted(workers, i)) == Select(s.log, SubmittedTo(workers, i)))
  {
    hide ShardOf, Enabled, Possible, After, SubmitterInv, Uncounted, Apply;
    ReachableInv(workers, cap, run);
    FreshInv(workers, cap);
    var s := After(Fresh(workers, cap), run);
    assert Select(Fresh(workers, cap).log, Refused(workers, i)) == [];
    RunRefusesNothingBelowCap(Fresh(workers, cap), run, i);
    assert ShardInv(s, i);
    if Select(s.log, Refused(workers, i)) == [] {
      NoneRefused(s.log, workers, i);
    }
  }

  lemma {:induction false} NoneRefused(log: seq<Entry>, workers: nat, i: nat)
    requires workers > 0 && Select(log, Refused(workers, i)) == []
    ensures Select(log, Accepted(workers, i)) == Select(log, SubmittedTo(workers, i))
    decreases |log|
  {
    hide ShardOf;
    if log != [] {
      NoneRefused(log[..|log| - 1], workers, i);
    }
  }

  function SubmittedTo(workers: nat, i: nat): Entry -> bool
    requires workers > 0
  {
    (e: Entry) => ShardOf(e.item.client, workers) == i
  }

  lemma {:induction false} SubmittedSplits(log: seq<Entry>, workers: nat, i: nat)
    requires workers > 0
    ensures |Select(log, SubmittedTo(workers, i))| ==
            |Select(log, Accepted(workers, i))| + |Select(log, Refused(workers, i))|
    decreases |log|
  {
    hide ShardOf;
    if log != [] {
      SubmittedSplits(log[..|log| - 1], workers, i);
    }
  }

  /** Packets are conserved in every shard: submitted = handled + in progress + queued + dropped,
      up to the drops that are not counted yet. */
  lemma PacketsAreConserved(workers: nat, cap: nat, run: seq<Action>, i: nat)
    requires workers > 0 && Possible(Fresh(workers, cap), run) && i < workers
    ensures var s := After(Fresh(workers, cap), run);
            |s.shards| == workers &&
            var sh := s.shards[i];
            |Select(s.log, SubmittedTo(workers, i))| ==
            |sh.handled| + |sh.InHand()| + |sh.queue| + sh.dropped + |Uncounted(s, i)|
  {
    hide ShardOf, Select, Enabled, Possible, After, SubmitterInv, Uncounted;
    ReachableInv(workers, cap, run);
    var s := After(Fresh(workers, cap), run);
    assert ShardInv(s, i);
    SubmittedSplits(s.log, workers, i);
  }

  /** Buffers are returned once each and in order: for a shard those of the accepted packets, up to the one
      being worked on and the queued ones; for a submitter those of its refused packets, up to a current one. */
  lemma BuffersAreReturnedOnce(workers: nat, cap: nat, run: seq<Action>, i: nat, t: nat)
    requires workers > 0 && Possible(Fresh(workers, cap), run) && i < workers
    ensures var s := After(Fresh(workers, cap), run);
            |s.shards| == workers &&
            var sh := s.shards[i];
            && Select(s.log, Accepted(workers, i)) == sh.returned + (sh.Unreturned() + sh.InHand() + sh.queue)
            && Select(s.log, RefusedBy(t)) == s.At(t).returned + s.At(t).Unreturned()
  {
    hide ShardOf, Select, Enabled, Possible, After, Uncounted;
    ReachableInv(workers, cap, run);
    var s := After(Fresh(workers, cap), run);
    assert ShardInv(s, i) && SubmitterInv(s, t);
    var sh := s.shards[i];
    assert sh.returned + sh.Unreturned() + sh.InHand() + sh.queue
        == sh.returned + (sh.Unreturned() + sh.InHand() + sh.queue);
  }

  /** When every worker has finished after the queues were closed, every accepted packet was handled
      and its buffer returned. */
  lemma StopDrainsTheQueues(workers: nat, cap: nat, run: seq<Action>, i: nat)
    requires workers > 0 && Possible(Fresh(workers, cap), run) && i < workers
    requires |After(Fresh(workers, cap), run).shards| == workers
    requires After(Fresh(workers, cap), run).shards[i].worker.Done?
    ensures var s := After(Fresh(workers, cap), run);
            Select(s.log, Accepted(workers, i)) == s.shards[i].handled == s.shards[i].returned
  {
    hide ShardOf, Select, Enabled, Possible, After, SubmitterInv, Uncounted;
    ReachableInv(workers, cap, run);
    assert ShardInv(After(Fresh(workers, cap), run), i);
  }

  /** The steps a worker still has to do before it can end. */
  function Remaining(sh: Shard): nat {
    3 * |sh.queue| + match sh.worker
                     case Done => 0
                     case Waiting => 1
                     case Returning(_) => 2
                     case Handling(_) => 3
  }

  /** A closed shard comes to its end unless the program crashes: its worker can always go on, which brings
      the end nearer, and no other step of anybody puts it off. */
  lemma ClosedShardsRunDry(s: State, a: Action, i: nat)
    requires i < |s.shards| && s.shards[i].closed && Enabled(s, a)
    ensures !s.shards[i].worker.Done? ==> Enabled(s, Take(i)) || Enabled(s, Handle(i, false)) || Enabled(s, Return(i))
    ensures var s' := Apply(s, a);
            s'.shards[i].closed &&
            if !s'.crashed && a in {Take(i), Handle(i, true), Handle(i, false), Return(i)}
            then Remaining(s'.shards[i]) < Remaining(s.shards[i])
            else Remaining(s'.shards[i]) == Remaining(s.shards[i])
  {
    hide Hash, Overruns;
  }

  // ---------------------------------------------------------------------------------------
  // Crashes
  // ---------------------------------------------------------------------------------------

  /** The two steps that panic: submitting to a closed shard, and walking over a header that leaves its packet. */
  predicate Panics(s: State, a: Action)
    requires |s.shards| > 0 && Enabled(s, a)
  {
    || (a.Submit? && s.shards[s.ShardIndex(a.item)].closed)
    || (a.Handle? && a.walks && Overruns(s.shards[a.i].worker.item))
  }

  /** At some point of the run a packet is submitted to a shard that was closed before. */
  ghost predicate SubmitsAfterClose(s: State, run: seq<Action>)
    requires |s.shards| > 0
  {
    exists k | 0 <= k < |run| :: run[k].Submit? &&
      (s.shards[s.ShardIndex(run[k].item)].closed || Close(s.ShardIndex(run[k].item)) in run[..k])
  }

  /** At some point of the run a worker walks over a header that leaves its packet. */
  ghost predicate WalksOutOfRange(s: State, run: seq<Action>)
    requires |s.shards| > 0 && Possible(s, run)
    decreases |run|
  {
    run != [] &&
    ((run[0].Handle? && run[0].walks && Overruns(s.shards[run[0].i].worker.item))
     || WalksOutOfRange(Apply(s, run[0]), run[1..]))
  }

  /** A run crashes exactly when it submits a packet to a shard after closing it, or handles a packet of a new connection
      whose header walk leaves the packet. Nothing happens after that. */
  lemma {:induction false} CrashesExactlyWhen(s: State, run: seq<Action>)
    requires |s.shards| > 0 && !s.crashed && Possible(s, run)
    ensures After(s, run).crashed <==> SubmitsAfterClose(s, run) || WalksOutOfRange(s, run)
    decreases |run|
  {
    hide ShardOf, Overruns, Apply, Enabled;
    if run != [] {
      var s' := Apply(s, run[0]);
      CrashIsAPanic(s, run[0]);
      if s'.crashed {
        NothingAfterCrash(s', run[1..]);
      } else {
        CrashesExactlyWhen(s', run[1..]);
        AfterOneStep(s, run);
      }
    }
  }

  lemma CrashIsAPanic(s: State, a: Action)
    requires |s.shards| > 0 && Enabled(s, a)
    ensures Apply(s, a).crashed <==> Panics(s, a)
  {
    hide ShardOf, Overruns;
  }

  lemma NothingAfterCrash(s: State, run: seq<Action>)
    requires |s.shards| > 0 && s.crashed && Possible(s, run)
    ensures run == [] && After(s, run) == s
  {}

  lemma ClosedByStep(s: State, a: Action, i: nat)
    requires |s.shards| > 0 && Enabled(s, a) && i < |s.shards|
    ensures Apply(s, a).shards[i].closed <==> s.shards[i].closed || a == Close(i)
  {
    hide ShardOf, Overruns;
  }

  lemma AfterOneStep(s: State, run: seq<Action>)
    requires |s.shards| > 0 && run != [] && Enabled(s, run[0]) && !Apply(s, run[0]).crashed
    ensures SubmitsAfterClose(s, run) <==> SubmitsAfterClose(Apply(s, run[0]), run[1..])
  {
    hide ShardOf, Apply, Overruns;
    var s' := Apply(s, run[0]);
    CrashIsAPanic(s, run[0]);
    forall k | 0 < k < |run| && run[k].Submit?
      ensures run[1..][k - 1] == run[k]
      ensures var i := s.ShardIndex(run[k].item);
              s.shards[i].closed || Close(i) in run[..k] <==> s'.shards[i].closed || Close(i) in run[1..][..k - 1]
    {
      var i := s.ShardIndex(run[k].item);
      ClosedByStep(s, run[0], i);
      assert run[..k] == [run[0]] + run[1..][..k - 1];
    }
    assert run[..0] == [];
    if SubmitsAfterClose(s', run[1..]) {
      var k :| 0 <= k < |run[1..]| && run[1..][k].Submit? &&
        (s'.shards[s'.ShardIndex(run[1..][k].item)].closed || Close(s'.ShardIndex(run[1..][k].item)) in run[1..][..k]);
      assert run[k + 1].Submit?;
    }
  }
}
