/** The read loop, the workers and Stop together, and when a panic can still end the program. Stop cancels, closes the
    socket and closes the queues, but does not wait for the loop to return. */
module Shutdown {
  import opened Bytes
  import P = WorkerPool

  /** The read loop: before its look at the context, in the socket read, or with a packet to submit. */
  datatype Loop = Checking | Reading | Submitting(item: P.Item) | Returned

  /** Stop: `Closing(next)` is about to close queue `next`; `Waiting` waits for the workers. */
  datatype Stopper = NotCalled | Cancelled | Closing(next: nat) | Waiting

  datatype Server = Server(pool: P.State, cancelled: bool, connOpen: bool, loop: Loop, stopper: Stopper)

  /** The loop's goroutine as a submitter of the pool. */
  const LOOP: nat := 0

  datatype Event =
    | CheckDone
    | Receive(item: P.Item)
    | ReadFails
    | Offer
    | PoolStep(a: P.Action)
    | Cancel
    | CloseSocket
    | CloseNext

  function Start(workers: nat, cap: nat): Server
    requires workers > 0
  {
    Server(P.Fresh(workers, cap), false, true, Checking, NotCalled)
  }

  predicate Enabled(s: Server, e: Event)
    requires |s.pool.shards| > 0
  {
    !s.pool.crashed &&
    match e
    case CheckDone => s.loop.Checking? && s.pool.At(LOOP).pc.Ready?
    case Receive(_) => s.loop.Reading? && s.connOpen
    case ReadFails => s.loop.Reading?
    case Offer => s.loop.Submitting? && P.Enabled(s.pool, P.Submit(LOOP, s.loop.item))
    case PoolStep(a) => !a.Submit? && !a.Close? && P.Enabled(s.pool, a)
    case Cancel => s.stopper.NotCalled?
    case CloseSocket => s.stopper.Cancelled?
    case CloseNext => s.stopper.Closing? && P.Enabled(s.pool, P.Close(s.stopper.next))
  }

  function Apply(s: Server, e: Event): (s': Server)
    requires |s.pool.shards| > 0 && Enabled(s, e)
    ensures |s'.pool.shards| == |s.pool.shards|
  {
    match e
    case CheckDone => s.(loop := if s.cancelled then Returned else Reading)
    case Receive(item) => s.(loop := Submitting(item))
    case ReadFails => s.(loop := Checking)
    case Offer => s.(pool := P.Apply(s.pool, P.Submit(LOOP, s.loop.item)), loop := Checking)
    case PoolStep(a) => s.(pool := P.Apply(s.pool, a))
    case Cancel => s.(cancelled := true, stopper := Cancelled)
    case CloseSocket => s.(connOpen := false, stopper := Closing(0))
    case CloseNext =>
      var next := s.stopper.next;
      s.(pool := P.Apply(s.pool, P.Close(next)),
         stopper := if next + 1 < |s.pool.shards| then Closing(next + 1) else Waiting)
  }

  ghost predicate Possible(s: Server, run: seq<Event>)
    requires |s.pool.shards| > 0
    decreases |run|
  {
    run == [] || (Enabled(s, run[0]) && Possible(Apply(s, run[0]), run[1..]))
  }

  ghost function After(s: Server, run: seq<Event>): (e: Server)
    requires |s.pool.shards| > 0 && Possible(s, run)
    ensures |e.pool.shards| == |s.pool.shards|
    decreases |run|
  {
    if run == [] then s else After(Apply(s, run[0]), run[1..])
  }

  // ---------------------------------------------------------------------------------------
  // What every step keeps
  // ---------------------------------------------------------------------------------------

  /** The first `n` queues are closed, the others open. */
  ghost predicate ClosedUpTo(pool: P.State, n: nat) {
    forall i: nat | i < |pool.shards| :: pool.shards[i].closed <==> i < n
  }

  ghost predicate Inv(s: Server) {
    && |s.pool.shards| > 0
    && (s.loop.Reading? || s.loop.Submitting? ==> s.pool.At(LOOP).pc.Ready?)
    && (forall i | 0 <= i < |s.pool.shards| ::
          s.pool.shards[i].worker.Done? ==> s.pool.shards[i].closed && s.pool.shards[i].queue == [])
    && (s.cancelled <==> !s.stopper.NotCalled?)
    && (s.connOpen <==> s.stopper.NotCalled? || s.stopper.Cancelled?)
    && match s.stopper
       case NotCalled => ClosedUpTo(s.pool, 0)
       case Cancelled => ClosedUpTo(s.pool, 0)
       case Closing(n) => n < |s.pool.shards| && ClosedUpTo(s.pool, n)
       case Waiting => ClosedUpTo(s.pool, |s.pool.shards|)
  }

  lemma StepKeepsInv(s: Server, e: Event)
    requires Inv(s) && Enabled(s, e)
    ensures Inv(Apply(s, e))
  {
    hide P.ShardOf, P.Overruns, ClosedUpTo;
    var s' := Apply(s, e);
    if e.CloseNext? {
      ClosedOneMore(s.pool, s.stopper.next);
    } else {
      forall n | ClosedUpTo(s.pool, n) ensures ClosedUpTo(s'.pool, n) {
        if e.Offer? {
          ClosedStays(s.pool, P.Submit(LOOP, s.loop.item), n);
        } else if e.PoolStep? {
          ClosedStays(s.pool, e.a, n);
        }
      }
    }
  }

  lemma ClosedOneMore(pool: P.State, n: nat)
    requires |pool.shards| > 0 && P.Enabled(pool, P.Close(n)) && ClosedUpTo(pool, n)
    ensures ClosedUpTo(P.Apply(pool, P.Close(n)), n + 1)
  {}

  lemma ClosedStays(pool: P.State, a: P.Action, n: nat)
    requires |pool.shards| > 0 && P.Enabled(pool, a) && !a.Close? && ClosedUpTo(pool, n)
    ensures ClosedUpTo(P.Apply(pool, a), n)
  {
    hide P.ShardOf, P.Overruns;
  }

  lemma {:induction false} RunKeepsInv(s: Server, run: seq<Event>)
    requires Inv(s) && Possible(s, run)
    ensures Inv(After(s, run))
    decreases |run|
  {
    if run != [] {
      hide Inv, Enabled, Apply;
      assert Inv(Apply(s, run[0])) by { StepKeepsInv(s, run[0]); }
      RunKeepsInv(Apply(s, run[0]), run[1..]);
    }
  }

  // ---------------------------------------------------------------------------------------
  // When a crash is still possible
  // ---------------------------------------------------------------------------------------

  /** The loop holds a packet or can still come to hold one. */
  predicate MayHold(s: Server) {
    || s.loop.Submitting?
    || (s.connOpen && s.loop.Reading?)
    || (s.connOpen && s.loop.Checking? && !s.cancelled)
  }

  /** The packets that the shard's worker handles or will handle. */
  function Due(sh: P.Shard): seq<P.Item> {
    sh.InHand() + sh.queue
  }

  /** Some of them would panic its handler if the handler took it for one of a new connection. */
  ghost predicate Lurks(sh: P.Shard) {
    exists item | item in Due(sh) :: P.Overruns(item)
  }

  ghost predicate Dangerous(s: Server) {
    MayHold(s) || exists i | 0 <= i < |s.pool.shards| :: Lurks(s.pool.shards[i])
  }

  lemma HarmlessStep(s: Server, e: Event)
    requires Inv(s) && !Dangerous(s) && Enabled(s, e)
    ensures !Dangerous(Apply(s, e)) && !Apply(s, e).pool.crashed
  {
    hide P.ShardOf, P.Overruns, Lurks;
    if e.PoolStep? {
      HarmlessWork(s.pool, e.a);
    } else if e.CloseNext? {
      HarmlessWork(s.pool, P.Close(s.stopper.next));
    }
  }

  lemma HarmlessWork(pool: P.State, a: P.Action)
    requires |pool.shards| > 0 && P.Enabled(pool, a) && !a.Submit?
    requires forall i | 0 <= i < |pool.shards| :: !Lurks(pool.shards[i])
    ensures var next := P.Apply(pool, a);
            !next.crashed && forall i | 0 <= i < |next.shards| :: !Lurks(next.shards[i])
  {
    hide P.ShardOf, P.Overruns, Lurks;
    P.CrashIsAPanic(pool, a);
    var next := P.Apply(pool, a);
    if next.crashed {
      InHandLurks(pool.shards[a.i]);
    }
    forall i | 0 <= i < |next.shards| ensures !Lurks(next.shards[i]) {
      if !next.crashed {
        NothingNewLurks(pool, a, i);
      }
    }
  }

  lemma InHandLurks(sh: P.Shard)
    requires sh.worker.Handling? && P.Overruns(sh.worker.item)
    ensures Lurks(sh)
  {
    assert Due(sh)[0] == sh.worker.item;
  }

  lemma NothingNewLurks(pool: P.State, a: P.Action, i: nat)
    requires |pool.shards| > 0 && P.Enabled(pool, a) && !a.Submit? && i < |pool.shards|
    requires !P.Apply(pool, a).crashed && !Lurks(pool.shards[i])
    ensures !Lurks(P.Apply(pool, a).shards[i])
  {
    hide P.ShardOf, P.Overruns;
    var was, now := pool.shards[i], P.Apply(pool, a).shards[i];
    forall item | item in Due(now) ensures item in Due(was) {}
  }

  lemma {:induction false} HarmlessStaysUp(s: Server, run: seq<Event>)
    requires Inv(s) && !s.pool.crashed && !Dangerous(s) && Possible(s, run)
    ensures !After(s, run).pool.crashed
    decreases |run|
  {
    if run != [] {
      hide Inv, Dangerous, Enabled, Apply;
      assert |s.pool.shards| > 0 by { InvHasShards(s); }
      HarmlessStep(s, run[0]);
      StepKeepsInv(s, run[0]);
      HarmlessStaysUp(Apply(s, run[0]), run[1..]);
    }
  }

  lemma InvHasShards(s: Server)
    requires Inv(s)
    ensures |s.pool.shards| > 0
  {}

  /** Some continuation crashes. */
  ghost predicate CanCrash(s: Server)
    requires |s.pool.shards| > 0
  {
    exists more :: Possible(s, more) && After(s, more).pool.crashed
  }

  lemma CrashFollows(s: Server, e: Event)
    requires |s.pool.shards| > 0 && Enabled(s, e) && CanCrash(Apply(s, e))
    ensures CanCrash(s)
  {
    hide Enabled, Apply, Possible, After;
    var more :| Possible(Apply(s, e), more) && After(Apply(s, e), more).pool.crashed;
    OneStep(s, e, more);
  }

  lemma CrashedAlready(s: Server)
    requires |s.pool.shards| > 0 && s.pool.crashed
    ensures CanCrash(s)
  {
    assert Possible(s, []) && After(s, []) == s;
  }

  /** The steps that Stop still has to do before it waits. */
  function StopSteps(s: Server): nat {
    match s.stopper
    case NotCalled => |s.pool.shards| + 2
    case Cancelled => |s.pool.shards| + 1
    case Closing(n) => if n < |s.pool.shards| then |s.pool.shards| - n else 0
    case Waiting => 0
  }

  /** A packet in the loop's hands: stop the proxy first, then offer it. */
  lemma {:induction false} PacketInHandCrashes(s: Server)
    requires Inv(s) && !s.pool.crashed && s.loop.Submitting?
    ensures CanCrash(s)
    decreases StopSteps(s)
  {
    hide P.ShardOf, Possible, After, CanCrash;
    if s.stopper.Waiting? {
      CrashedAlready(Apply(s, Offer));
      CrashFollows(s, Offer);
    } else {
      var e := match s.stopper
        case NotCalled => Cancel
        case Cancelled => CloseSocket
        case _ => CloseNext;
      StepKeepsInv(s, e);
      PacketInHandCrashes(Apply(s, e));
      CrashFollows(s, e);
    }
  }

  /** The loop's way to a packet, which some sender provides. */
  lemma LoopCanCrash(s: Server, item: P.Item)
    requires Inv(s) && !s.pool.crashed && MayHold(s)
    ensures CanCrash(s)
  {
    hide P.ShardOf, P.Overruns, Possible, After, CanCrash, ClosedUpTo;
    if s.loop.Submitting? {
      PacketInHandCrashes(s);
    } else if s.loop.Reading? {
      LoopCanCrashReading(s, item);
    } else {
      CheckingCanCrash(s, item);
    }
  }

  /** The loop's submission may still be busy with a dropped packet. */
  lemma {:induction false} CheckingCanCrash(s: Server, item: P.Item)
    requires Inv(s) && !s.pool.crashed && s.connOpen && s.loop.Checking? && !s.cancelled
    ensures CanCrash(s)
    decreases match s.pool.At(LOOP).pc { case Ready => 0 case Counted(_) => 1 case Dropping(_) => 2 }
  {
    hide P.ShardOf, P.Overruns, Possible, After, CanCrash, ClosedUpTo;
    var e := match s.pool.At(LOOP).pc
      case Ready => CheckDone
      case Counted(_) => PoolStep(P.ReturnDropped(LOOP))
      case Dropping(_) => PoolStep(P.CountDrop(LOOP));
    StepKeepsInv(s, e);
    if e.CheckDone? {
      LoopCanCrashReading(Apply(s, e), item);
    } else {
      CheckingCanCrash(Apply(s, e), item);
    }
    CrashFollows(s, e);
  }

  lemma LoopCanCrashReading(s: Server, item: P.Item)
    requires Inv(s) && !s.pool.crashed && s.connOpen && s.loop.Reading?
    ensures CanCrash(s)
  {
    hide P.ShardOf, P.Overruns, Possible, After, CanCrash, ClosedUpTo;
    StepKeepsInv(s, Receive(item));
    PacketInHandCrashes(Apply(s, Receive(item)));
    CrashFollows(s, Receive(item));
  }

  /** A worker that gets to such a packet, the ones before it handled without harm. */
  lemma {:induction false} LurkingCrashes(s: Server, i: nat)
    requires Inv(s) && !s.pool.crashed && i < |s.pool.shards| && Lurks(s.pool.shards[i])
    ensures CanCrash(s)
    decreases P.Remaining(s.pool.shards[i])
  {
    hide P.ShardOf, P.Overruns, Possible, After, CanCrash, ClosedUpTo, Lurks, Due;
    var sh := s.pool.shards[i];
    LurkingWorker(sh);
    if sh.worker.Handling? && P.Overruns(sh.worker.item) {
      CrashedAlready(Apply(s, PoolStep(P.Handle(i, true))));
      CrashFollows(s, PoolStep(P.Handle(i, true)));
    } else {
      var e := match sh.worker
        case Waiting => PoolStep(P.Take(i))
        case Handling(_) => PoolStep(P.Handle(i, false))
        case _ => PoolStep(P.Return(i));
      StepKeepsInv(s, e);
      LurksOn(sh, e.a);
      LurkingCrashes(Apply(s, e), i);
      CrashFollows(s, e);
    }
  }

  lemma LurkingWorker(sh: P.Shard)
    requires Lurks(sh)
    ensures sh.worker.Done? || sh.worker.Waiting? ==> sh.queue != []
  {
    var item :| item in Due(sh) && P.Overruns(item);
  }

  lemma LurksOn(sh: P.Shard, a: P.Action)
    requires Lurks(sh)
    requires match a
             case Take(_) => sh.worker.Waiting?
             case Handle(_, _) => sh.worker.Handling? && !P.Overruns(sh.worker.item)
             case Return(_) => sh.worker.Returning?
             case _ => false
    ensures Lurks(P.Work(sh, a))
  {
    hide P.Overruns;
    var item :| item in Due(sh) && P.Overruns(item);
    LurkingWorker(sh);
    assert item in Due(P.Work(sh, a));
  }

  /** In every reachable state of a running program a crash is still possible exactly when the read loop holds a packet or
      can come to hold one, or when a packet whose header walk leaves it is being handled or waits in a queue. */
  lemma CanCrashExactlyWhen(workers: nat, cap: nat, run: seq<Event>)
    requires workers > 0 && Possible(Start(workers, cap), run) && !After(Start(workers, cap), run).pool.crashed
    ensures var s := After(Start(workers, cap), run); CanCrash(s) <==> Dangerous(s)
  {
    hide P.ShardOf, Possible, After, Enabled, Apply, MayHold, Lurks, Inv;
    assert Inv(Start(workers, cap)) by { StartInv(workers, cap); }
    RunKeepsInv(Start(workers, cap), run);
    var s := After(Start(workers, cap), run);
    InvHasShards(s);
    if MayHold(s) {
      LoopCanCrash(s, P.Item(0, Addr([], 0), []));
    } else if Dangerous(s) {
      var i :| 0 <= i < |s.pool.shards| && Lurks(s.pool.shards[i]);
      LurkingCrashes(s, i);
    } else {
      forall more | Possible(s, more) ensures !After(s, more).pool.crashed {
        HarmlessStaysUp(s, more);
      }
    }
  }

  lemma StartInv(workers: nat, cap: nat)
    requires workers > 0
    ensures Inv(Start(workers, cap))
  {}

  lemma NothingMore(s: Server)
    requires |s.pool.shards| > 0
    ensures Possible(s, []) && After(s, []) == s
  {}

  /** Such a state is reached: the packet is read, then the proxy is stopped before the packet is submitted. */
  lemma PacketReadBeforeStop(workers: nat, cap: nat, item: P.Item)
    requires workers > 0
    ensures var run := [CheckDone, Receive(item), Cancel, CloseSocket];
            && Possible(Start(workers, cap), run)
            && After(Start(workers, cap), run).stopper == Closing(0)
            && After(Start(workers, cap), run).loop == Submitting(item)
  {
    hide Possible, After;
    var s0 := Start(workers, cap);
    var s1 := Apply(s0, CheckDone);
    var s2 := Apply(s1, Receive(item));
    var s3 := Apply(s2, Cancel);
    var s4 := Apply(s3, CloseSocket);
    NothingMore(s4);
    OneStep(s3, CloseSocket, []);
    assert [CloseSocket] + [] == [CloseSocket] && [Cancel] + [CloseSocket] == [Cancel, CloseSocket];
    assert [Receive(item)] + [Cancel, CloseSocket] == [Receive(item), Cancel, CloseSocket];
    assert [CheckDone] + [Receive(item), Cancel, CloseSocket] == [CheckDone, Receive(item), Cancel, CloseSocket];
    OneStep(s2, Cancel, [CloseSocket]);
    OneStep(s1, Receive(item), [Cancel, CloseSocket]);
    OneStep(s0, CheckDone, [Receive(item), Cancel, CloseSocket]);
  }

  lemma OneStep(s: Server, e: Event, run: seq<Event>)
    requires |s.pool.shards| > 0 && Enabled(s, e) && Possible(Apply(s, e), run)
    ensures Possible(s, [e] + run) && After(s, [e] + run) == After(Apply(s, e), run)
  {
    assert ([e] + run)[1..] == run;
  }

  // ---------------------------------------------------------------------------------------
  // The pool's own runs
  // ---------------------------------------------------------------------------------------

  /** The pool's part of a run. */
  ghost function PoolRun(s: Server, run: seq<Event>): seq<P.Action>
    requires |s.pool.shards| > 0 && Possible(s, run)
    decreases |run|
  {
    if run == [] then []
    else
      (match run[0]
       case Offer => [P.Submit(LOOP, s.loop.item)]
       case PoolStep(a) => [a]
       case CloseNext => [P.Close(s.stopper.next)]
       case _ => []) + PoolRun(Apply(s, run[0]), run[1..])
  }

  /** Every run of the proxy is a run of its pool, so what holds for all runs of the pool holds here. */
  lemma {:induction false} PoolRunIsARun(s: Server, run: seq<Event>)
    requires |s.pool.shards| > 0 && Possible(s, run)
    ensures P.Possible(s.pool, PoolRun(s, run)) && P.After(s.pool, PoolRun(s, run)) == After(s, run).pool
    decreases |run|
  {
    hide P.Enabled, P.Apply;
    if run != [] {
      PoolRunIsARun(Apply(s, run[0]), run[1..]);
      var rest := PoolRun(Apply(s, run[0]), run[1..]);
      if run[0].Offer? || run[0].PoolStep? || run[0].CloseNext? {
        assert PoolRun(s, run)[1..] == rest;
      } else {
        assert PoolRun(s, run) == rest;
      }
    }
  }
}
