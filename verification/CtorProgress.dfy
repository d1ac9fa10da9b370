/** Which threads can go on.

    A thread in `do_init_fini` waits for an object that another thread is constructing.  Without nested
    calls somebody can always go on.  A constructor that opens a library makes its thread wait inside,
    and threads can come to wait for each other; then they do so for ever.
 */
module CtorProgress {
  import opened CtorProtocol
  import opened Graph

  /** A step of a thread that has a queue to work on. */
  ghost predicate CanStep<V>(s: State<V>, t: Tid) {
    Enabled(s, Skip(t)) || Enabled(s, Start(t)) || Enabled(s, Finish(t)) || Enabled(s, Return(t))
  }

  /** Thread `t` is at an entry that thread `u` is constructing. */
  ghost predicate Waits<V>(s: State<V>, t: Tid, u: Tid) {
    && s.HasTop(t) && !s.Top(t).running && s.Top(t).i < |s.Top(t).queue|
    && var p := s.Top(t).queue[s.Top(t).i]; p in s.visitor && s.visitor[p] == u && t != u
  }

  lemma WaitsForOther<V>(s: State<V>, t: Tid, u: Tid)
    requires Waits(s, t, u)
    ensures t != u && t in s.calls && s.HasTop(t)
  {
  }

  /** What the holder of an object is doing: it is inside that object's constructor, or in a call that
      constructor made. */
  lemma HolderIsInside<V>(fini: set<V>, s: State<V>, p: V)
    requires Invariant(fini, s) && p in s.visitor && !s.ShuttingDown()
    ensures var u := s.visitor[p]; s.HasTop(u) && (CanStep(s, u) || |s.Calls(u)| >= 2)
  {
    hide Passed, Reversed;
    var u := s.visitor[p];
    assert Nested(s, u);
    var k :| 0 <= k < |s.Calls(u)| && Runs(s.Calls(u)[k], p);
    if k == |s.Calls(u)| - 1 { assert Enabled(s, Finish(u)); }
  }

  /** The threads that work on a queue. */
  ghost function Busy<V>(s: State<V>): set<Tid> {
    set t | t in s.calls && s.HasTop(t)
  }

  lemma WaitedFor<V>(fini: set<V>, s: State<V>, t: Tid, u: Tid)
    requires Invariant(fini, s) && Waits(s, t, u) && !s.ShuttingDown()
    ensures u in Busy(s) && (CanStep(s, u) || |s.Calls(u)| >= 2)
  {
    hide Invariant, CanStep;
    HolderIsInside(fini, s, s.Top(t).queue[s.Top(t).i]);
  }

  /** A thread with a queue to work on steps or waits. */
  lemma StepsOrWaits<V>(fini: set<V>, s: State<V>, t: Tid)
    requires Invariant(fini, s) && s.HasTop(t) && !s.ShuttingDown()
    ensures !CanStep(s, t) <==> exists u :: Waits(s, t, u)
  {
    hide Passed, Reversed;
    assert Nested(s, t);
    var f := s.Top(t);
    if !f.running && f.i < |f.queue| && s.HeldByOther(t, f.queue[f.i]) {
      assert Waits(s, t, s.visitor[f.queue[f.i]]);
    }
  }

  /** Every thread of `ts` waits for another of them. */
  ghost predicate Deadlock<V>(s: State<V>, ts: set<Tid>) {
    forall t :: t in ts ==> WaitsAmong(s, t, ts)
  }

  ghost predicate WaitsAmong<V>(s: State<V>, t: Tid, ts: set<Tid>) {
    exists u :: u in ts && Waits(s, t, u)
  }

  lemma BusyWaits<V>(fini: set<V>, s: State<V>, t: Tid)
    requires Invariant(fini, s) && t in Busy(s) && !s.ShuttingDown()
    ensures !CanStep(s, t) <==> WaitsAmong(s, t, Busy(s))
  {
    hide Invariant, CanStep, Waits;
    StepsOrWaits(fini, s, t);
    if !CanStep(s, t) {
      var u :| Waits(s, t, u);
      WaitedFor(fini, s, t, u);
    }
  }

  /** Nobody can step exactly when all who work on a queue wait for each other. */
  lemma NobodySteps<V(!new)>(fini: set<V>, s: State<V>)
    requires Reachable(fini, s) && !s.ShuttingDown()
    ensures (forall t :: t in Busy(s) ==> !CanStep(s, t)) <==> Deadlock(s, Busy(s))
  {
    hide CanStep, Waits, Reachable, Busy, Invariant;
    ReachableKeeps(fini, s);
    hide WaitsAmong;
    forall t | t in Busy(s) ensures !CanStep(s, t) <==> WaitsAmong(s, t, Busy(s)) {
      BusyWaits(fini, s, t);
    }
  }

  /** Then each of those waited for has called out of a constructor.  So without nested calls somebody
      always can step. */
  lemma Progress<V(!new)>(fini: set<V>, s: State<V>)
    requires Reachable(fini, s) && !s.ShuttingDown()
    ensures Deadlock(s, Busy(s)) ==> forall t, u :: Waits(s, t, u) ==> |s.Calls(u)| >= 2
    ensures Busy(s) != {} && (forall t :: |s.Calls(t)| <= 1) ==> exists t :: t in Busy(s) && CanStep(s, t)
  {
    hide CanStep, Waits, Reachable, Busy, Invariant, Deadlock;
    ReachableKeeps(fini, s);
    NobodySteps(fini, s);
    forall t, u | Waits(s, t, u) ensures u in Busy(s) && (CanStep(s, u) || |s.Calls(u)| >= 2) {
      WaitedFor(fini, s, t, u);
    }
    if Busy(s) != {} {
      var t :| t in Busy(s);
      if !CanStep(s, t) {
        BusyWaits(fini, s, t);
        var u :| u in Busy(s) && Waits(s, t, u);
        WaitedFor(fini, s, t, u);
      }
    }
  }

  /** An exit that is not done goes on, or waits for a thread that is inside a constructor: one that can
      leave it, has called out of it, or exits itself. */
  lemma ExitProgress<V(!new)>(fini: set<V>, s: State<V>, t: Tid)
    requires Reachable(fini, s) && t in s.exits && s.exits[t].rest != []
    ensures Enabled(s, ExitSkip(t)) || Enabled(s, ExitRun(t)) ||
      var p := s.exits[t].rest[0];
      && p in s.visitor && s.visitor[p] != t
      && var u := s.visitor[p]; Enabled(s, Finish(u)) || |s.Calls(u)| >= 2 || u in s.exits
  {
    hide Reachable, Invariant;
    ReachableKeeps(fini, s);
    var p := s.exits[t].rest[0];
    if s.HeldByOther(t, p) { HolderAtExit(fini, s, p); }
  }

  lemma HolderAtExit<V>(fini: set<V>, s: State<V>, p: V)
    requires Invariant(fini, s) && p in s.visitor
    ensures var u := s.visitor[p]; Enabled(s, Finish(u)) || |s.Calls(u)| >= 2 || u in s.exits
  {
    hide Passed, Reversed, ExitSound, StartedOnce;
    var u := s.visitor[p];
    assert Nested(s, u);
    var k :| 0 <= k < |s.Calls(u)| && Runs(s.Calls(u)[k], p);
  }

  /** Threads that wait for each other still do so after any event. */
  lemma DeadlockStays<V>(fini: set<V>, s: State<V>, e: Event<V>, ts: set<Tid>)
    requires Invariant(fini, s) && Enabled(s, e) && Deadlock(s, ts)
    ensures Deadlock(Next(fini, s, e), ts)
  {
    hide Invariant, Enabled, Next, WaitsAmong;
    var s' := Next(fini, s, e);
    forall t | t in ts ensures WaitsAmong(s', t, ts) {
      WaitStaysAmong(fini, s, e, t, ts);
    }
  }

  lemma WaitStaysAmong<V>(fini: set<V>, s: State<V>, e: Event<V>, t: Tid, ts: set<Tid>)
    requires Invariant(fini, s) && Enabled(s, e) && Deadlock(s, ts) && t in ts
    ensures WaitsAmong(Next(fini, s, e), t, ts)
  {
    hide Invariant, Enabled, Next, Waits;
    var u :| u in ts && Waits(s, t, u);
    assert WaitsAmong(s, u, ts);
    var v :| v in ts && Waits(s, u, v);
    WaitStays(fini, s, e, t, u, v);
  }

  lemma WaitStays<V>(fini: set<V>, s: State<V>, e: Event<V>, t: Tid, u: Tid, v: Tid)
    requires Invariant(fini, s) && Enabled(s, e) && Waits(s, t, u) && Waits(s, u, v)
    ensures Waits(Next(fini, s, e), t, u)
  {
    hide Enabled, Next, Passed, Nested, StartedOnce, Reversed, Owned, ExitSound;
    assert Nested(s, e.t);
    hide Invariant;
    if e.t == t { WaitingIsStill(s, e, t, u); }
    if e.t == u { WaitingIsStill(s, e, u, v); }
    CallsKept(fini, s, e, t);
    ClaimKept(fini, s, e, s.Top(t).queue[s.Top(t).i]);
  }

  /** A thread that waits does nothing, unless it exits. */
  lemma WaitingIsStill<V>(s: State<V>, e: Event<V>, t: Tid, u: Tid)
    requires Waits(s, t, u) && Enabled(s, e) && e.t == t
    ensures e.ExitBegin? || e.ExitSkip? || e.ExitRun?
  {
  }

  lemma CallsKept<V>(fini: set<V>, s: State<V>, e: Event<V>, t: Tid)
    requires Enabled(s, e) && (e.t != t || e.ExitBegin? || e.ExitSkip? || e.ExitRun?)
    ensures Next(fini, s, e).Calls(t) == s.Calls(t)
  {
  }

  /** Only its own thread gives an object up. */
  lemma ClaimKept<V>(fini: set<V>, s: State<V>, e: Event<V>, p: V)
    requires Enabled(s, e) && Nested(s, e.t) && p in s.visitor
    requires s.visitor[p] != e.t || e.ExitBegin? || e.ExitSkip? || e.ExitRun?
    ensures var s' := Next(fini, s, e); p in s'.visitor && s'.visitor[p] == s.visitor[p]
  {
  }

  /** For ever. */
  lemma {:induction false} DeadlockForever<V>(fini: set<V>, s: State<V>, events: seq<Event<V>>, s': State<V>, ts: set<Tid>)
    requires Invariant(fini, s) && Run(fini, s, events, s') && Deadlock(s, ts)
    ensures Deadlock(s', ts)
    decreases events
  {
    hide Invariant, Enabled, Next, Deadlock;
    if events == [] {
    } else {
      EventKeeps(fini, s, events[0]);
      DeadlockStays(fini, s, events[0], ts);
      DeadlockForever(fini, Next(fini, s, events[0]), events[1..], s', ts);
    }
  }

  // ---------------------------------------------------------------- how it comes about

  /** Two constructors, each of which opens the object of the other. */
  ghost function Crossing(n: nat): State<nat> {
    var out0, out1 := Frame([0], 0, true), Frame([1], 0, true);
    var in0, in1 := Frame([1], 0, false), Frame([0], 0, false);
    if n == 0 then Initial()
    else if n == 1 then State(map[], {}, [], map[], map[0 := [out0.(running := false)]], [])
    else if n == 2 then State(map[0 := 0], {}, [], map[], map[0 := [out0]], [0])
    else if n == 3 then State(map[0 := 0], {}, [], map[], map[0 := [out0], 1 := [out1.(running := false)]], [0])
    else if n == 4 then State(map[0 := 0, 1 := 1], {}, [], map[], map[0 := [out0], 1 := [out1]], [0, 1])
    else if n == 5 then State(map[0 := 0, 1 := 1], {}, [], map[], map[0 := [out0, in0], 1 := [out1]], [0, 1])
    else State(map[0 := 0, 1 := 1], {}, [], map[], map[0 := [out0, in0], 1 := [out1, in1]], [0, 1])
  }

  ghost function CrossingEvent(n: nat): Event<nat> {
    if n == 0 then Call(0, [0])
    else if n == 1 then Start(0)
    else if n == 2 then Call(1, [1])
    else if n == 3 then Start(1)
    else if n == 4 then Call(0, [1])
    else Call(1, [0])
  }

  lemma CrossingCalls(n: nat)
    requires n == 0 || n == 2
    ensures Enabled(Crossing(n), CrossingEvent(n)) && Next({}, Crossing(n), CrossingEvent(n)) == Crossing(n + 1)
  {
    if n == 0 {
      assert Crossing(0).Calls(0) + [Frame([0], 0, false)] == [Frame([0], 0, false)];
    } else {
      assert Crossing(2).Calls(1) + [Frame([1], 0, false)] == [Frame([1], 0, false)];
    }
  }

  lemma CrossingStarts(n: nat)
    requires n == 1 || n == 3
    ensures Enabled(Crossing(n), CrossingEvent(n)) && Next({}, Crossing(n), CrossingEvent(n)) == Crossing(n + 1)
  {
    if n == 1 {
      assert Crossing(1).Calls(0)[..0] + [Frame([0], 0, true)] == [Frame([0], 0, true)];
    } else {
      assert Crossing(3).Calls(1)[..0] + [Frame([1], 0, true)] == [Frame([1], 0, true)];
    }
  }

  lemma CrossingNests(n: nat)
    requires n == 4 || n == 5
    ensures Enabled(Crossing(n), CrossingEvent(n)) && Next({}, Crossing(n), CrossingEvent(n)) == Crossing(n + 1)
  {
    if n == 4 {
      assert Crossing(4).Calls(0) + [Frame([1], 0, false)] == [Frame([0], 0, true), Frame([1], 0, false)];
    } else {
      assert Crossing(5).Calls(1) + [Frame([0], 0, false)] == [Frame([1], 0, true), Frame([0], 0, false)];
    }
  }

  lemma {:induction false} CrossingReached(n: nat)
    requires n <= 6
    ensures Reachable({}, Crossing(n))
  {
    hide Reachable, Crossing, CrossingEvent, Enabled, Next;
    if n == 0 {
      CrossingInitial();
    } else {
      CrossingReached(n - 1);
      if n == 1 || n == 3 {
        CrossingCalls(n - 1);
      } else if n == 2 || n == 4 {
        CrossingStarts(n - 1);
      } else {
        CrossingNests(n - 1);
      }
      ReachesNext({}, Crossing(n - 1), CrossingEvent(n - 1), Crossing(n));
    }
  }

  lemma CrossingInitial()
    ensures Reachable({}, Crossing(0))
  {
    InitialReachable<nat>({});
  }

  /** So a run can come to a state in which two threads wait for each other, and from which they do so
      for ever. */
  lemma DeadlockHappens() returns (s: State<nat>)
    ensures Reachable({}, s) && 0 in Busy(s) && Waits(s, 0, 1) && Waits(s, 1, 0)
    ensures forall events, s' :: Run({}, s, events, s') ==> Waits(s', 0, 1) && Waits(s', 1, 0)
  {
    s := Crossing(6);
    assert Waits(s, 0, 1) && Waits(s, 1, 0);
    CrossingReached(6);
    ReachableKeeps({}, s);
    hide Reachable, Invariant, Run, Waits, Crossing;
    forall events, s' | Run({}, s, events, s') ensures Waits(s', 0, 1) && Waits(s', 1, 0) {
      WaitsForever({}, s, events, s');
    }
  }

  lemma WaitsForever(fini: set<nat>, s: State<nat>, events: seq<Event<nat>>, s': State<nat>)
    requires Invariant(fini, s) && Run(fini, s, events, s') && Waits(s, 0, 1) && Waits(s, 1, 0)
    ensures Waits(s', 0, 1) && Waits(s', 1, 0)
  {
    hide Invariant, Run, Waits;
    assert Waits(s', 0, 1) && Waits(s', 1, 0) by {
      DeadlockForever(fini, s, events, s', {0, 1});
      WaitsApart(s');
    }
  }

  lemma WaitsApart(s: State<nat>)
    requires Deadlock(s, {0, 1})
    ensures Waits(s, 0, 1) && Waits(s, 1, 0)
  {
    hide Waits;
    assert WaitsAmong(s, 0, {0, 1}) && WaitsAmong(s, 1, {0, 1});
    var u :| u in {0, 1} && Waits(s, 0, u);
    var v :| v in {0, 1} && Waits(s, 1, v);
    WaitsForOther(s, 0, u);
    WaitsForOther(s, 1, v);
  }
}
