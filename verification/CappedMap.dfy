/** A concurrent map with a hard cap, kept by a counter that is reserved before the map is written.
    Every atomic operation is one step; any number of threads may be anywhere in the code. */
module CappedMap {
  import opened Bytes
  import opened Counting

  type Key = seq<Byte>
  type Tid = nat

  const MAX_ASSEMBLERS := 50000
  const MAX_PENDING_BUFFERS := 50000

  /** Where a thread is: in the retry loop of a store, past it, or with a decrement still to do. */
  datatype Pc =
    | Idle
    | Loading(key: Key)
    | Loaded(key: Key, count: int)
    | Reserved(key: Key)
    | Owing

  datatype State = State(cap: int, count: int, entries: set<Key>, threads: map<Tid, Pc>) {
    function At(t: Tid): Pc {
      if t in threads then threads[t] else Idle
    }

    /** Threads between the compare-and-swap and the map operation. */
    function Reservers(): set<Tid> {
      set t | t in threads && threads[t].Reserved?
    }

    /** Threads that removed an entry, or found one, and have not decremented yet. */
    function Debtors(): set<Tid> {
      set t | t in threads && threads[t].Owing?
    }

    predicate Quiescent() {
      forall t | t in threads :: !threads[t].Reserved? && !threads[t].Owing?
    }
  }

  datatype Action =
    | BeginStore(key: Key)
    | Load
    | CompareAndSwap
    | LoadOrStore
    | LoadAndDelete(key: Key)
    | Decrement

  predicate Enabled(s: State, t: Tid, a: Action) {
    match a
    case BeginStore(_) => s.At(t).Idle?
    case Load => s.At(t).Loading?
    case CompareAndSwap => s.At(t).Loaded?
    case LoadOrStore => s.At(t).Reserved?
    case LoadAndDelete(_) => s.At(t).Idle?
    case Decrement => s.At(t).Owing?
  }

  function Apply(s: State, t: Tid, a: Action): State
    requires Enabled(s, t, a)
  {
    match a
    case BeginStore(key) => s.(threads := s.threads[t := Loading(key)])
    case Load =>
      if s.count >= s.cap then s.(threads := s.threads[t := Idle])
      else s.(threads := s.threads[t := Loaded(s.At(t).key, s.count)])
    case CompareAndSwap =>
      var Loaded(key, count) := s.At(t);
      if s.count == count then s.(count := count + 1, threads := s.threads[t := Reserved(key)])
      else s.(threads := s.threads[t := Loading(key)])
    case LoadOrStore =>
      var key := s.At(t).key;
      if key in s.entries then s.(threads := s.threads[t := Owing])
      else s.(entries := s.entries + {key}, threads := s.threads[t := Idle])
    case LoadAndDelete(key) =>
      if key in s.entries then s.(entries := s.entries - {key}, threads := s.threads[t := Owing])
      else s
    case Decrement => s.(count := s.count - 1, threads := s.threads[t := Idle])
  }

  // ---------------------------------------------------------------------------------------
  // Runs
  // ---------------------------------------------------------------------------------------

  datatype Event = Event(t: Tid, a: Action)

  function Init(cap: int): State {
    State(cap, 0, {}, map[])
  }

  ghost predicate Possible(s: State, run: seq<Event>)
    decreases |run|
  {
    run == [] || (Enabled(s, run[0].t, run[0].a) && Possible(Apply(s, run[0].t, run[0].a), run[1..]))
  }

  ghost function After(s: State, run: seq<Event>): State
    requires Possible(s, run)
    decreases |run|
  {
    if run == [] then s else After(Apply(s, run[0].t, run[0].a), run[1..])
  }

  /** The counter accounts for every entry, every reservation and every pending decrement. */
  ghost predicate Inv(s: State) {
    && s.count == |s.entries| + |s.Reservers()| + |s.Debtors()|
    && s.count <= s.cap
    && forall t | t in s.threads && s.threads[t].Loaded? :: s.threads[t].count < s.cap
  }

  lemma ReserversMoved(s: State, t: Tid, pc: Pc)
    ensures |s.(threads := s.threads[t := pc]).Reservers()| ==
            |s.Reservers()| - (if s.At(t).Reserved? then 1 else 0) + (if pc.Reserved? then 1 else 0)
  {
    SizeAfter(s.Reservers(), s.(threads := s.threads[t := pc]).Reservers(), t);
  }

  lemma DebtorsMoved(s: State, t: Tid, pc: Pc)
    ensures |s.(threads := s.threads[t := pc]).Debtors()| ==
            |s.Debtors()| - (if s.At(t).Owing? then 1 else 0) + (if pc.Owing? then 1 else 0)
  {
    SizeAfter(s.Debtors(), s.(threads := s.threads[t := pc]).Debtors(), t);
  }

  lemma StepKeepsInv(s: State, t: Tid, a: Action)
    requires Inv(s) && Enabled(s, t, a)
    ensures Inv(Apply(s, t, a)) && Apply(s, t, a).cap == s.cap
  {
    var s' := Apply(s, t, a);
    var moved := s.(threads := s.threads[t := s'.At(t)]);
    ReserversMoved(s, t, s'.At(t));
    DebtorsMoved(s, t, s'.At(t));
    if s'.threads == moved.threads {
      assert s'.Reservers() == moved.Reservers() && s'.Debtors() == moved.Debtors();
    }
  }

  /** At every interleaving of any number of threads the counter is exact up to operations in flight,
      and neither it nor the map exceeds the cap. */
  lemma {:induction false} CapHolds(s: State, run: seq<Event>)
    requires Inv(s) && Possible(s, run)
    ensures var e := After(s, run);
            && Inv(e) && e.cap == s.cap
            && |e.entries| <= e.count <= e.cap
            && (e.Quiescent() ==> e.count == |e.entries|)
    decreases |run|
  {
    if run == [] {
      if s.Quiescent() {
        assert s.Reservers() == {} && s.Debtors() == {};
      }
    } else {
      StepKeepsInv(s, run[0].t, run[0].a);
      CapHolds(Apply(s, run[0].t, run[0].a), run[1..]);
    }
  }

  lemma CapHoldsFromStart(cap: nat, run: seq<Event>)
    requires Possible(Init(cap), run)
    ensures var e := After(Init(cap), run);
            && |e.entries| <= cap && e.count == |e.entries| + |e.Reservers()| + |e.Debtors()|
            && (e.Quiescent() ==> e.count == |e.entries|)
  {
    assert Init(cap).Reservers() == {} && Init(cap).Debtors() == {};
    CapHolds(Init(cap), run);
  }

  /** In every reachable state a store is refused at the cap only when entries and operations in flight fill it. */
  lemma RefusalsAreJustified(cap: nat, run: seq<Event>, t: Tid)
    requires Possible(Init(cap), run)
    ensures var e := After(Init(cap), run);
            e.At(t).Loading? && Apply(e, t, Load).At(t).Idle? ==>
              |e.entries| + |e.Reservers()| + |e.Debtors()| == cap
  {
    assert Init(cap).Reservers() == {} && Init(cap).Debtors() == {};
    CapHolds(Init(cap), run);
  }

  /** A store that nobody disturbs enters its key whenever the counter is below the cap and the key is not there,
      and touches no other entry. */
  lemma UndisturbedStoreSucceeds(s: State, t: Tid, key: Key)
    requires s.At(t).Idle? && s.count < s.cap && key !in s.entries
    ensures var s1 := Apply(s, t, BeginStore(key));
            && Enabled(s1, t, Load)
            && var s2 := Apply(s1, t, Load);
               && Enabled(s2, t, CompareAndSwap)
               && var s3 := Apply(s2, t, CompareAndSwap);
                  && Enabled(s3, t, LoadOrStore)
                  && var s4 := Apply(s3, t, LoadOrStore);
                     s4.entries == s.entries + {key} && s4.count == s.count + 1 && s4.At(t).Idle?
  {}

  /** What one operation on the map does, whatever happened before it: a store enters its own key or finds it, a delete
      removes its own key, and no other entry is touched. */
  lemma EntriesChangeAsAsked(s: State, t: Tid, a: Action)
    requires Enabled(s, t, a)
    ensures Apply(s, t, a).entries == match a
              case LoadOrStore => s.entries + {s.At(t).key}
              case LoadAndDelete(key) => s.entries - {key}
              case _ => s.entries
  {}

  /** Both maps of the proxy that are capped this way. */
  lemma ProxyCaps(assemblers: seq<Event>, pending: seq<Event>)
    requires Possible(Init(MAX_ASSEMBLERS), assemblers) && Possible(Init(MAX_PENDING_BUFFERS), pending)
    ensures |After(Init(MAX_ASSEMBLERS), assemblers).entries| <= 50000
    ensures |After(Init(MAX_PENDING_BUFFERS), pending).entries| <= 50000
  {
    CapHoldsFromStart(MAX_ASSEMBLERS, assemblers);
    CapHoldsFromStart(MAX_PENDING_BUFFERS, pending);
  }
}
