/** The session counter and the global limiter that reserves slots on it, one atomic operation a step. */
module SessionSlots {
  import opened Bytes
  import opened Counting

  type Key = seq<Byte>
  type Tid = nat

  /** What a thread is doing for a connection. `reserved` is the context's reservation flag, `limits` the
      limiters of the chain that are still to run. */
  datatype Phase =
    | Idle
    | Connecting(limits: seq<int>, reserved: bool)
    | Trying(limits: seq<int>, reserved: bool, current: int)
    | Dropping(reserved: bool)
    | Storing(key: Key, reserved: bool)
    | Counted(key: Key)
  {
    /** The thread holds one unit of the counter for a session that is not stored. */
    predicate Holds() {
      match this
      case Idle => false
      case Connecting(_, reserved) => reserved
      case Trying(_, reserved, _) => reserved
      case Dropping(reserved) => reserved
      case Storing(_, reserved) => reserved
      case Counted(_) => true
    }
  }

  /** `owing`: the thread deleted a session and has not decremented yet. */
  datatype Thread = Thread(phase: Phase, owing: bool)

  /** `lost` counts units that no session and no thread stands for any more. */
  datatype State = State(count: int, sessions: set<Key>, threads: map<Tid, Thread>, lost: nat) {
    function At(t: Tid): Thread {
      if t in threads then threads[t] else Thread(Idle, false)
    }

    function Holders(): set<Tid> {
      set t | t in threads && threads[t].phase.Holds()
    }

    function Debtors(): set<Tid> {
      set t | t in threads && threads[t].owing
    }

    function With(t: Tid, phase: Phase): State {
      this.(threads := threads[t := Thread(phase, At(t).owing)])
    }

    predicate Quiescent() {
      forall t | t in threads :: !threads[t].phase.Holds() && !threads[t].owing
    }
  }

  datatype Action =
    | Connect(limits: seq<int>)
    | Load
    | CompareAndSwap
    | Drop
    | Release
    | Handle(key: Key)
    | Count
    | Store
    | Delete(key: Key)
    | Settle

  predicate Enabled(s: State, t: Tid, a: Action) {
    var th := s.At(t);
    match a
    case Connect(_) => th.phase.Idle?
    case Load => th.phase.Connecting? && th.phase.limits != []
    case CompareAndSwap => th.phase.Trying? && th.phase.limits != []
    case Drop => th.phase.Connecting?
    case Release => th.phase.Dropping?
    case Handle(_) => th.phase.Connecting? && th.phase.limits == []
    case Count => th.phase.Storing?
    case Store => th.phase.Counted?
    case Delete(_) => !th.owing
    case Settle => th.owing
  }

  function Apply(s: State, t: Tid, a: Action): State
    requires Enabled(s, t, a)
  {
    var phase := s.At(t).phase;
    match a
    case Connect(limits) => s.With(t, Connecting(limits, false))
    case Load =>
      if s.count >= phase.limits[0] then s.With(t, Dropping(phase.reserved))
      else s.With(t, Trying(phase.limits, phase.reserved, s.count))
    case CompareAndSwap =>
      if s.count != phase.current then s.With(t, Connecting(phase.limits, phase.reserved))
      else s.With(t, Connecting(phase.limits[1..], true))
            .(count := phase.current + 1, lost := s.lost + if phase.reserved then 1 else 0)
    case Drop => s.With(t, Dropping(phase.reserved))
    case Release =>
      s.With(t, Idle).(count := s.count - if phase.reserved then 1 else 0)
    case Handle(key) => s.With(t, Storing(key, phase.reserved))
    case Count =>
      s.With(t, Counted(phase.key)).(count := s.count + if phase.reserved then 0 else 1)
    case Store =>
      s.With(t, Idle).(sessions := s.sessions + {phase.key}, lost := s.lost + if phase.key in s.sessions then 1 else 0)
    case Delete(key) =>
      if key in s.sessions then
        s.(sessions := s.sessions - {key}, threads := s.threads[t := Thread(phase, true)])
      else s
    case Settle =>
      s.(count := s.count - 1, threads := s.threads[t := Thread(phase, false)])
  }

  // ---------------------------------------------------------------------------------------
  // Runs
  // ---------------------------------------------------------------------------------------

  datatype Event = Event(t: Tid, a: Action)

  const INIT := State(0, {}, map[], 0)

  ghost predicate Possible(s: State, run: seq<Event>)
    decreases |run|
  {
    run == [] || (Enabled(s, run[0].t, run[0].a) && Possible(Apply(s, run[0].t, run[0].a), run[1..]))
  }

  ghost function After(s: State, run: seq<Event>): State
    requires Possible(s, run)
    decreases |run|
  {
    if run == [] then s else After(Apply(s, run[0].t, run[0].a), run[1..])
  }

  // ---------------------------------------------------------------------------------------
  // Conservation
  // ---------------------------------------------------------------------------------------

  ghost predicate Conserved(s: State) {
    s.count == |s.sessions| + |s.Holders()| + |s.Debtors()| + s.lost
  }

  lemma Moved(s: State, s': State, t: Tid)
    requires t in s'.threads && s'.threads == s.threads[t := s'.At(t)]
    ensures |s'.Holders()| == |s.Holders()| - (if s.At(t).phase.Holds() then 1 else 0)
                                            + (if s'.At(t).phase.Holds() then 1 else 0)
    ensures |s'.Debtors()| == |s.Debtors()| - (if s.At(t).owing then 1 else 0) + (if s'.At(t).owing then 1 else 0)
  {
    SizeAfter(s.Holders(), s'.Holders(), t);
    SizeAfter(s.Debtors(), s'.Debtors(), t);
  }

  lemma StepConserves(s: State, t: Tid, a: Action)
    requires Conserved(s) && Enabled(s, t, a)
    ensures Conserved(Apply(s, t, a))
  {
    hide State.Holders, State.Debtors;
    var s' := Apply(s, t, a);
    if a.Delete? {
      DeleteConserves(s, t, a.key);
    } else if a.Store? {
      StoreConserves(s, t);
    } else {
      Moved(s, s', t);
      assert s'.sessions == s.sessions;
    }
  }

  lemma StoreConserves(s: State, t: Tid)
    requires Conserved(s) && Enabled(s, t, Store)
    ensures Conserved(Apply(s, t, Store))
  {
    hide State.Holders, State.Debtors;
    var s' := Apply(s, t, Store);
    Moved(s, s', t);
    SizeAfter(s.sessions, s'.sessions, s.At(t).phase.key);
  }

  lemma DeleteConserves(s: State, t: Tid, key: Key)
    requires Conserved(s) && Enabled(s, t, Delete(key))
    ensures Conserved(Apply(s, t, Delete(key)))
  {
    hide State.Holders, State.Debtors;
    var s' := Apply(s, t, Delete(key));
    if key in s.sessions {
      Moved(s, s', t);
      SizeAfter(s.sessions, s'.sessions, key);
    }
  }

  /** At every interleaving the counter covers the live sessions and the outstanding reservations.
      When nothing is in flight it exceeds the live sessions by exactly the lost units. */
  lemma {:induction false} SlotsAreConserved(s: State, run: seq<Event>)
    requires Conserved(s) && Possible(s, run)
    ensures var e := After(s, run);
            && Conserved(e)
            && |e.sessions| + |e.Holders()| <= e.count
            && (e.Quiescent() ==> e.count == |e.sessions| + e.lost)
    decreases |run|
  {
    if run == [] {
      if s.Quiescent() {
        assert s.Holders() == {} && s.Debtors() == {};
      }
    } else {
      StepConserves(s, run[0].t, run[0].a);
      SlotsAreConserved(Apply(s, run[0].t, run[0].a), run[1..]);
    }
  }

  // ---------------------------------------------------------------------------------------
  // The limiter
  // ---------------------------------------------------------------------------------------

  /** Every chain passes a limiter, and none of its limiters allows more than `limit`. */
  ghost predicate Limited(run: seq<Event>, limit: int) {
    forall e | e in run && e.a.Connect? :: e.a.limits != [] && AtMost(e.a.limits, limit)
  }

  predicate AtMost(limits: seq<int>, limit: int) {
    forall i | 0 <= i < |limits| :: limits[i] <= limit
  }

  /** A thread that is past its last limiter holds a reservation. */
  predicate Careful(p: Phase, limit: int) {
    match p
    case Connecting(limits, reserved) => AtMost(limits, limit) && (limits == [] ==> reserved)
    case Trying(limits, reserved, current) => AtMost(limits, limit) && limits != [] && current < limits[0]
    case Storing(_, reserved) => reserved
    case _ => true
  }

  ghost predicate Bounded(s: State, limit: int) {
    && s.count <= limit
    && forall t | t in s.threads :: Careful(s.threads[t].phase, limit)
  }

  lemma RestAtMost(limits: seq<int>, limit: int)
    requires AtMost(limits, limit)
    ensures limits != [] ==> limits[0] <= limit && AtMost(limits[1..], limit)
  {
  }

  lemma StepKeepsBound(s: State, t: Tid, a: Action, limit: int)
    requires Conserved(s) && Bounded(s, limit) && Enabled(s, t, a)
    requires a.Connect? ==> a.limits != [] && AtMost(a.limits, limit)
    ensures Bounded(Apply(s, t, a), limit)
  {
    hide State.Holders, State.Debtors, Conserved;
    var s' := Apply(s, t, a);
    assert forall u | u in s'.threads && u != t :: u in s.threads && s'.threads[u] == s.threads[u];
    var phase := s.At(t).phase;
    assert Careful(phase, limit);
    if phase.Connecting? || phase.Trying? {
      RestAtMost(phase.limits, limit);
    }
  }

  /** The limiter is never exceeded: neither the counter nor the live sessions with the outstanding
      reservations pass the limit, at any interleaving. */
  lemma {:induction false} LimitHolds(s: State, run: seq<Event>, limit: int)
    requires Conserved(s) && Bounded(s, limit) && Possible(s, run) && Limited(run, limit)
    ensures var e := After(s, run);
            |e.sessions| + |e.Holders()| <= e.count <= limit
    decreases |run|
  {
    if run == [] {
    } else {
      assert run[0] in run;
      StepConserves(s, run[0].t, run[0].a);
      StepKeepsBound(s, run[0].t, run[0].a, limit);
      assert Limited(run[1..], limit) by {
        assert forall e | e in run[1..] :: e in run;
      }
      LimitHolds(Apply(s, run[0].t, run[0].a), run[1..], limit);
    }
  }

  /** The limiter refuses a connection exactly when live sessions, outstanding reservations, owed decrements and lost
      units together have reached its limit. */
  lemma RefusedExactlyAtTheLimit(run: seq<Event>, t: Tid)
    requires Possible(INIT, run) && Enabled(After(INIT, run), t, Load)
    ensures var s := After(INIT, run);
            var limit := s.At(t).phase.limits[0];
            Apply(s, t, Load).At(t).phase.Dropping? <==>
              |s.sessions| + |s.Holders()| + |s.Debtors()| + s.lost >= limit
  {
    assert INIT.Holders() == {} && INIT.Debtors() == {};
    SlotsAreConserved(INIT, run);
  }

  /** A thread that is not disturbed between its load and its compare-and-swap gets a slot below the limit. */
  lemma UndisturbedReservationSucceeds(s: State, t: Tid)
    requires Enabled(s, t, Load) && s.count < s.At(t).phase.limits[0]
    ensures var s1 := Apply(s, t, Load);
            && Enabled(s1, t, CompareAndSwap)
            && var s2 := Apply(s1, t, CompareAndSwap);
               s2.count == s.count + 1 && s2.sessions == s.sessions
               && s2.At(t).phase == Connecting(s.At(t).phase.limits[1..], true)
  {}

  /** A session that is stored is there under its key, a deleted one is gone, and no other is touched. */
  lemma StoredAndDeleted(s: State, t: Tid, key: Key)
    ensures Enabled(s, t, Store) ==> var key := s.At(t).phase.key;
              key in Apply(s, t, Store).sessions && Apply(s, t, Store).sessions - {key} == s.sessions - {key}
    ensures Enabled(s, t, Delete(key)) ==>
              key !in Apply(s, t, Delete(key)).sessions && Apply(s, t, Delete(key)).sessions == s.sessions - {key}
  {}

  // ---------------------------------------------------------------------------------------
  // When the counter is exact
  // ---------------------------------------------------------------------------------------

  /** What one step loses: a second reservation under one flag, or a session stored over another. */
  function Loses(s: State, t: Tid, a: Action): nat {
    var phase := s.At(t).phase;
    if a.CompareAndSwap? && phase.Trying? && phase.reserved && s.count == phase.current then 1
    else if a.Store? && phase.Counted? && phase.key in s.sessions then 1
    else 0
  }

  ghost predicate LosesNothing(s: State, run: seq<Event>)
    requires Possible(s, run)
    decreases |run|
  {
    run == [] ||
    (Loses(s, run[0].t, run[0].a) == 0 && LosesNothing(Apply(s, run[0].t, run[0].a), run[1..]))
  }

  lemma {:induction false} LostOnlyGrows(s: State, run: seq<Event>)
    requires Possible(s, run)
    ensures After(s, run).lost >= s.lost
    ensures After(s, run).lost == s.lost <==> LosesNothing(s, run)
    decreases |run|
  {
    if run != [] {
      LostOnlyGrows(Apply(s, run[0].t, run[0].a), run[1..]);
    }
  }

  /** When nothing is in flight, the counter is the number of live sessions exactly when no connection
      reserved twice and no session was stored over a live one. */
  lemma CounterIsExactExactlyWhen(run: seq<Event>)
    requires Possible(INIT, run) && After(INIT, run).Quiescent()
    ensures var e := After(INIT, run);
            e.count == |e.sessions| <==> LosesNothing(INIT, run)
  {
    assert INIT.Holders() == {} && INIT.Debtors() == {};
    SlotsAreConserved(INIT, run);
    LostOnlyGrows(INIT, run);
  }

  /** With one limiter a chain, no connection reserves twice. */
  predicate OneLimiter(p: Phase) {
    match p
    case Connecting(limits, reserved) => |limits| <= if reserved then 0 else 1
    case Trying(limits, reserved, _) => |limits| == 1 && !reserved
    case _ => true
  }

  ghost predicate FreshKeys(s: State, run: seq<Event>)
    requires Possible(s, run)
    decreases |run|
  {
    run == [] ||
    ((run[0].a.Store? ==> s.At(run[0].t).phase.key !in s.sessions)
     && FreshKeys(Apply(s, run[0].t, run[0].a), run[1..]))
  }

  lemma {:induction false} OneLimiterLosesNothing(s: State, run: seq<Event>)
    requires Possible(s, run) && FreshKeys(s, run)
    requires forall t | t in s.threads :: OneLimiter(s.threads[t].phase)
    requires forall e | e in run && e.a.Connect? :: |e.a.limits| <= 1
    ensures LosesNothing(s, run)
    decreases |run|
  {
    if run != [] {
      assert run[0] in run;
      var s' := Apply(s, run[0].t, run[0].a);
      assert OneLimiter(s.At(run[0].t).phase);
      assert forall t | t in s'.threads :: OneLimiter(s'.threads[t].phase);
      assert forall e | e in run[1..] :: e in run;
      OneLimiterLosesNothing(s', run[1..]);
    }
  }

  lemma NoSteps(s: State)
    ensures Possible(s, []) && After(s, []) == s
  {}

  lemma OneStep(s: State, t: Tid, a: Action, run: seq<Event>)
    requires Enabled(s, t, a) && Possible(Apply(s, t, a), run)
    ensures Possible(s, [Event(t, a)] + run)
    ensures After(s, [Event(t, a)] + run) == After(Apply(s, t, a), run)
  {
    var whole := [Event(t, a)] + run;
    assert whole[0] == Event(t, a) && whole[1..] == run;
  }

  /** A connection through two limiters: both reserve, one slot is given back, one stays counted for ever. */
  lemma TwoLimitersLoseASlot()
    ensures exists run: seq<Event> :: Possible(INIT, run) && After(INIT, run).Quiescent()
              && After(INIT, run).sessions == {} && After(INIT, run).count == 1
  {
    hide Possible, After;
    var s1 := Apply(INIT, 0, Connect([10, 10]));
    var s2 := Apply(s1, 0, Load);
    var s3 := Apply(s2, 0, CompareAndSwap);
    var s4 := Apply(s3, 0, Load);
    var s5 := Apply(s4, 0, CompareAndSwap);
    var s6 := Apply(s5, 0, Drop);
    var s7 := Apply(s6, 0, Release);
    assert s7.count == 1 && s7.sessions == {} && s7.Quiescent();
    NoSteps(s7);
    OneStep(s6, 0, Release, []);
    var r6 := [Event(0, Release)] + [];
    OneStep(s5, 0, Drop, r6);
    var r5 := [Event(0, Drop)] + r6;
    OneStep(s4, 0, CompareAndSwap, r5);
    var r4 := [Event(0, CompareAndSwap)] + r5;
    OneStep(s3, 0, Load, r4);
    var r3 := [Event(0, Load)] + r4;
    OneStep(s2, 0, CompareAndSwap, r3);
    var r2 := [Event(0, CompareAndSwap)] + r3;
    OneStep(s1, 0, Load, r2);
    var r1 := [Event(0, Load)] + r2;
    OneStep(INIT, 0, Connect([10, 10]), r1);
    var r0 := [Event(0, Connect([10, 10]))] + r1;
    assert After(INIT, r0) == s7;
  }
}
