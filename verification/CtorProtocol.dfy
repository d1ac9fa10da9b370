/** Running constructors and finalizers from any number of threads.

    A state is what the two locks protect, plus each thread's nest of calls: a constructor may
    open another object and so run a further queue inside.  An event is one critical section
    of `do_init_fini` or one turn of the exit loop; between events other threads may act, which
    allows every interleaving the locks allow and more.  `started` and each exit's `finalized` are
    history.  Nothing keeps a second thread from calling `exit` too.
 */
module CtorProtocol {
  import opened Graph
  import CtorOrder

  type Tid = nat

  /** A call working on `queue`, at entry `i`, whose constructor is running or not. */
  datatype Frame<V> = Frame(queue: seq<V>, i: nat, running: bool)

  /** One thread's way through the finalizer list: what is left of it, and what it finalized. */
  datatype Exit<V> = Exit(rest: seq<V>, finalized: seq<V>)

  datatype State<V> = State(
    visitor: map<V, Tid>,
    constructed: set<V>,
    finiList: seq<V>,
    exits: map<Tid, Exit<V>>,
    calls: map<Tid, seq<Frame<V>>>,
    started: seq<V>)
  {
    /** `shutting_down` is set by every thread that exits. */
    predicate ShuttingDown() {
      exits != map[]
    }

    function Calls(t: Tid): seq<Frame<V>> {
      if t in calls then calls[t] else []
    }

    /** Thread `t` can act: a thread never comes back from `exit`. */
    predicate Active(t: Tid) {
      t !in exits
    }

    predicate HasTop(t: Tid) {
      Calls(t) != []
    }

    function Top(t: Tid): Frame<V>
      requires HasTop(t)
    {
      Calls(t)[|Calls(t)| - 1]
    }

    function WithTop(t: Tid, f: Frame<V>): State<V>
      requires HasTop(t)
    {
      this.(calls := calls[t := Calls(t)[..|Calls(t)| - 1] + [f]])
    }

    /** Some thread other than `t` is running the constructor of `p`. */
    predicate HeldByOther(t: Tid, p: V) {
      p in visitor && visitor[p] != t
    }

    /** Thread `t`, at an entry of its queue, has got past the wait for it. */
    predicate AtEntry(t: Tid) {
      && Active(t) && HasTop(t) && !Top(t).running && Top(t).i < |Top(t).queue|
      && !HeldByOther(t, Top(t).queue[Top(t).i]) && !ShuttingDown()
    }
  }

  datatype Event<V> =
    | Call(t: Tid, queue: seq<V>)
    | Skip(t: Tid)
    | Start(t: Tid)
    | Finish(t: Tid)
    | Return(t: Tid)
    | ExitBegin(t: Tid)
    | ExitSkip(t: Tid)
    | ExitRun(t: Tid)

  ghost function Initial<V>(): State<V> {
    State(map[], {}, [], map[], map[], [])
  }

  /** An exit loop has got past its wait for the next entry of the finalizer list. */
  ghost predicate AtFinalizer<V>(s: State<V>, t: Tid) {
    t in s.exits && s.exits[t].rest != [] && !s.HeldByOther(t, s.exits[t].rest[0])
  }

  ghost predicate Enabled<V>(s: State<V>, e: Event<V>) {
    match e
    case Call(t, _) => s.Active(t) && (s.HasTop(t) ==> s.Top(t).running)
    case Skip(t) => s.AtEntry(t) &&
      var p := s.Top(t).queue[s.Top(t).i]; p in s.visitor || p in s.constructed
    case Start(t) => s.AtEntry(t) &&
      var p := s.Top(t).queue[s.Top(t).i]; p !in s.visitor && p !in s.constructed
    case Finish(t) => s.Active(t) && s.HasTop(t) && s.Top(t).running && s.Top(t).i < |s.Top(t).queue|
    case Return(t) => s.Active(t) && s.HasTop(t) && !s.Top(t).running && s.Top(t).i == |s.Top(t).queue|
    case ExitBegin(t) => s.Active(t)
    case ExitSkip(t) => AtFinalizer(s, t) && s.exits[t].rest[0] !in s.constructed
    case ExitRun(t) => AtFinalizer(s, t) && s.exits[t].rest[0] in s.constructed
  }

  /** The state after an event; `fini` holds the objects that have finalizers. */
  ghost function Next<V>(fini: set<V>, s: State<V>, e: Event<V>): State<V>
    requires Enabled(s, e)
  {
    match e
    case Call(t, queue) => s.(calls := s.calls[t := s.Calls(t) + [Frame(queue, 0, false)]])
    case Skip(t) => s.WithTop(t, s.Top(t).(i := s.Top(t).i + 1))
    case Start(t) =>
      var p := s.Top(t).queue[s.Top(t).i];
      s.WithTop(t, s.Top(t).(running := true)).(
        visitor := s.visitor[p := t],
        finiList := if p in fini then [p] + s.finiList else s.finiList,
        started := s.started + [p])
    case Finish(t) =>
      var p := s.Top(t).queue[s.Top(t).i];
      s.WithTop(t, s.Top(t).(running := false, i := s.Top(t).i + 1)).(
        visitor := s.visitor - {p}, constructed := s.constructed + {p})
    case Return(t) => s.(calls := s.calls[t := s.Calls(t)[..|s.Calls(t)| - 1]])
    case ExitBegin(t) => s.(exits := s.exits[t := Exit(s.finiList, [])])
    case ExitSkip(t) => s.(exits := s.exits[t := s.exits[t].(rest := s.exits[t].rest[1..])])
    case ExitRun(t) =>
      var x := s.exits[t];
      s.(exits := s.exits[t := Exit(x.rest[1..], x.finalized + [x.rest[0]])])
  }

  // ---------------------------------------------------------------- what every event keeps

  /** What was started is running or constructed, and nothing is both or started twice. */
  ghost predicate StartedOnce<V>(s: State<V>) {
    && Distinct(s.started)
    && (forall p :: p in s.started ==> p in s.visitor || p in s.constructed)
    && (forall p :: p in s.visitor ==> p in s.started && p !in s.constructed)
    && (forall p :: p in s.constructed ==> p in s.started)
  }

  /** The members of `s` in `keep`, last first. */
  ghost function Reversed<V>(s: seq<V>, keep: set<V>): seq<V> {
    if s == [] then []
    else (if s[|s| - 1] in keep then [s[|s| - 1]] else []) + Reversed(s[..|s| - 1], keep)
  }

  /** The entry a call is running. */
  ghost predicate Runs<V>(f: Frame<V>, p: V) {
    f.running && f.i < |f.queue| && f.queue[f.i] == p
  }

  /** A nest of calls of one thread: all but the last are inside a constructor. */
  ghost predicate Nested<V>(s: State<V>, t: Tid) {
    var fs := s.Calls(t);
    && (forall k :: 0 <= k < |fs| ==> fs[k].i <= |fs[k].queue| && (fs[k].running ==> fs[k].i < |fs[k].queue|))
    && (forall k :: 0 <= k < |fs| - 1 ==> fs[k].running)
    && (forall k :: 0 <= k < |fs| && fs[k].running ==>
          fs[k].queue[fs[k].i] in s.visitor && s.visitor[fs[k].queue[fs[k].i]] == t)
    && (forall j, k :: 0 <= j < k < |fs| && fs[j].running && fs[k].running ==>
          fs[j].queue[fs[j].i] != fs[k].queue[fs[k].i])
  }

  /** Entry `p` was passed by call `k` of `fs` because it is done or running further out. */
  ghost predicate Settled<V>(s: State<V>, fs: seq<Frame<V>>, k: nat, p: V) {
    p in s.constructed || exists j :: 0 <= j < k && j < |fs| && Runs(fs[j], p)
  }

  ghost predicate Passed<V>(s: State<V>, t: Tid) {
    var fs := s.Calls(t);
    forall k, j :: 0 <= k < |fs| && 0 <= j < fs[k].i && j < |fs[k].queue| ==>
      Settled(s, fs, k, fs[k].queue[j])
  }

  /** Whoever is recorded as constructing an object has a call running it. */
  ghost predicate Owned<V>(s: State<V>) {
    forall p :: p in s.visitor ==>
      exists k :: 0 <= k < |s.Calls(s.visitor[p])| && Runs(s.Calls(s.visitor[p])[k], p)
  }

  /** The members of `s` in `keep`, in order. */
  ghost function Kept<V>(s: seq<V>, keep: set<V>): seq<V> {
    if s == [] then []
    else Kept(s[..|s| - 1], keep) + (if s[|s| - 1] in keep then [s[|s| - 1]] else [])
  }

  /** Of the finalizer list, the part an exit has dealt with was finalized if constructed, and is
      otherwise being constructed by the exiting thread itself. */
  ghost predicate ExitSoundFor<V>(s: State<V>, t: Tid)
    requires t in s.exits
  {
    var x := s.exits[t];
    && |x.rest| <= |s.finiList| && x.rest == s.finiList[|s.finiList| - |x.rest|..]
    && var done := s.finiList[..|s.finiList| - |x.rest|];
    && x.finalized == Kept(done, s.constructed)
    && forall p :: p in done ==> p in s.constructed || (p in s.visitor && s.visitor[p] == t)
  }

  ghost predicate ExitSound<V>(s: State<V>) {
    forall t :: t in s.exits ==> ExitSoundFor(s, t)
  }

  ghost predicate Invariant<V>(fini: set<V>, s: State<V>) {
    && StartedOnce(s)
    && s.finiList == Reversed(s.started, fini)
    && (forall t :: Nested(s, t) && Passed(s, t))
    && Owned(s)
    && ExitSound(s)
  }

  lemma InitialInvariant<V>(fini: set<V>)
    ensures Invariant(fini, Initial<V>())
  {
  }

  lemma SettledKept<V>(s: State<V>, fs: seq<Frame<V>>, s': State<V>, fs': seq<Frame<V>>, k: nat, p: V)
    requires Settled(s, fs, k, p) && s.constructed <= s'.constructed
    requires k <= |fs| && k <= |fs'| && fs[..k] == fs'[..k]
    ensures Settled(s', fs', k, p)
  {
    if p !in s.constructed {
      var j :| 0 <= j < k && j < |fs| && Runs(fs[j], p);
      assert fs'[j] == fs'[..k][j] == fs[j];
      assert Runs(fs'[j], p);
    }
  }

  /** Threads whose calls and claims an event leaves alone. */
  lemma ThreadKept<V>(s: State<V>, s': State<V>, u: Tid)
    requires Nested(s, u) && Passed(s, u)
    requires s'.Calls(u) == s.Calls(u) && s.constructed <= s'.constructed
    requires forall p :: p in s.visitor && s.visitor[p] == u ==> p in s'.visitor && s'.visitor[p] == u
    ensures Nested(s', u) && Passed(s', u)
  {
    var fs := s.Calls(u);
    forall k, j | 0 <= k < |fs| && 0 <= j < fs[k].i && j < |fs[k].queue|
      ensures Settled(s', fs, k, fs[k].queue[j])
    {
      SettledKept(s, fs, s', fs, k, fs[k].queue[j]);
    }
  }

  /** What a thread passed stays passed when only its last call changes, if that call's new
      position is settled too. */
  lemma PassedKept<V>(s: State<V>, s': State<V>, t: Tid, f: Frame<V>)
    requires Passed(s, t) && s.HasTop(t) && s.constructed <= s'.constructed
    requires s'.Calls(t) == s.Calls(t)[..|s.Calls(t)| - 1] + [f] && f.queue == s.Top(t).queue
    requires f.i == s.Top(t).i || (f.i == s.Top(t).i + 1 <= |f.queue| &&
               Settled(s', s'.Calls(t), |s.Calls(t)| - 1, f.queue[f.i - 1]))
    ensures Passed(s', t)
  {
    var fs, fs' := s.Calls(t), s'.Calls(t);
    forall k, j | 0 <= k < |fs'| && 0 <= j < fs'[k].i && j < |fs'[k].queue|
      ensures Settled(s', fs', k, fs'[k].queue[j])
    {
      if k < |fs| - 1 || j < s.Top(t).i {
        assert fs[..k] == fs'[..k];
        SettledKept(s, fs, s', fs', k, fs[k].queue[j]);
      }
    }
  }

  lemma CallThreads<V>(fini: set<V>, s: State<V>, t: Tid, queue: seq<V>)
    requires Enabled(s, Call(t, queue)) && forall u :: Nested(s, u) && Passed(s, u)
    ensures forall u :: Nested(Next(fini, s, Call(t, queue)), u) && Passed(Next(fini, s, Call(t, queue)), u)
  {
    hide Passed, Nested;
    var s' := Next(fini, s, Call(t, queue));
    forall u ensures Nested(s', u) && Passed(s', u) {
      assert Nested(s, u) && Passed(s, u);
      if u == t { PushCall(s, s', t, Frame(queue, 0, false)); } else { ThreadKept(s, s', u); }
    }
  }

  lemma CallOwned<V>(fini: set<V>, s: State<V>, t: Tid, queue: seq<V>)
    requires Enabled(s, Call(t, queue)) && Owned(s)
    ensures Owned(Next(fini, s, Call(t, queue)))
  {
    var s' := Next(fini, s, Call(t, queue));
    forall p | p in s'.visitor
      ensures exists k :: 0 <= k < |s'.Calls(s'.visitor[p])| && Runs(s'.Calls(s'.visitor[p])[k], p)
    {
      var k :| 0 <= k < |s.Calls(s.visitor[p])| && Runs(s.Calls(s.visitor[p])[k], p);
      assert Runs(s'.Calls(s.visitor[p])[k], p);
    }
  }

  lemma CallKeeps<V>(fini: set<V>, s: State<V>, t: Tid, queue: seq<V>)
    requires Invariant(fini, s) && Enabled(s, Call(t, queue))
    ensures Invariant(fini, Next(fini, s, Call(t, queue)))
  {
    hide Nested, Passed, Owned, Reversed, Kept;
    CallThreads(fini, s, t, queue);
    CallOwned(fini, s, t, queue);
  }

  lemma PushCall<V>(s: State<V>, s': State<V>, t: Tid, f: Frame<V>)
    requires Nested(s, t) && Passed(s, t) && (s.HasTop(t) ==> s.Top(t).running)
    requires s'.Calls(t) == s.Calls(t) + [f] && f.i == 0 && !f.running
    requires s'.visitor == s.visitor && s'.constructed == s.constructed
    ensures Nested(s', t) && Passed(s', t)
  {
    var fs, fs' := s.Calls(t), s'.Calls(t);
    forall k, j | 0 <= k < |fs'| && 0 <= j < fs'[k].i && j < |fs'[k].queue|
      ensures Settled(s', fs', k, fs'[k].queue[j])
    {
      assert fs[..k] == fs'[..k];
      SettledKept(s, fs, s', fs', k, fs[k].queue[j]);
    }
  }

  lemma ReturnKeeps<V>(fini: set<V>, s: State<V>, t: Tid)
    requires Invariant(fini, s) && Enabled(s, Return(t))
    ensures Invariant(fini, Next(fini, s, Return(t)))
  {
    hide Nested, Passed, Owned, Reversed, Kept;
    ReturnThreads(fini, s, t);
    ReturnOwned(fini, s, t);
  }

  lemma ReturnThreads<V>(fini: set<V>, s: State<V>, t: Tid)
    requires Enabled(s, Return(t)) && forall u :: Nested(s, u) && Passed(s, u)
    ensures forall u :: Nested(Next(fini, s, Return(t)), u) && Passed(Next(fini, s, Return(t)), u)
  {
    hide Nested, Passed;
    var s' := Next(fini, s, Return(t));
    forall u ensures Nested(s', u) && Passed(s', u) {
      assert Nested(s, u) && Passed(s, u);
      if u == t { PopCall(s, s', t); } else { ThreadKept(s, s', u); }
    }
  }

  lemma ReturnOwned<V>(fini: set<V>, s: State<V>, t: Tid)
    requires Enabled(s, Return(t)) && Owned(s)
    ensures Owned(Next(fini, s, Return(t)))
  {
    var s' := Next(fini, s, Return(t));
    forall p | p in s'.visitor
      ensures exists k :: 0 <= k < |s'.Calls(s'.visitor[p])| && Runs(s'.Calls(s'.visitor[p])[k], p)
    {
      var k :| 0 <= k < |s.Calls(s.visitor[p])| && Runs(s.Calls(s.visitor[p])[k], p);
      assert Runs(s'.Calls(s.visitor[p])[k], p);
    }
  }

  lemma PopCall<V>(s: State<V>, s': State<V>, t: Tid)
    requires Nested(s, t) && Passed(s, t) && s.HasTop(t)
    requires s'.Calls(t) == s.Calls(t)[..|s.Calls(t)| - 1]
    requires s'.visitor == s.visitor && s'.constructed == s.constructed
    ensures Nested(s', t) && Passed(s', t)
  {
    var fs, fs' := s.Calls(t), s'.Calls(t);
    forall k, j | 0 <= k < |fs'| && 0 <= j < fs'[k].i && j < |fs'[k].queue|
      ensures Settled(s', fs', k, fs'[k].queue[j])
    {
      assert fs[..k] == fs'[..k];
      SettledKept(s, fs, s', fs', k, fs[k].queue[j]);
    }
  }

  /** A claim keeps its call when the last call of `t` changes without running anything else. */
  lemma OwnerKept<V>(s: State<V>, s': State<V>, t: Tid, f: Frame<V>, p: V)
    requires Owned(s) && p in s.visitor && p in s'.visitor && s'.visitor[p] == s.visitor[p]
    requires s.HasTop(t) && s'.Calls(t) == s.Calls(t)[..|s.Calls(t)| - 1] + [f]
    requires forall u :: u != t ==> s'.Calls(u) == s.Calls(u)
    requires s.visitor[p] == t ==> !Runs(s.Top(t), p)
    ensures exists k :: 0 <= k < |s'.Calls(s'.visitor[p])| && Runs(s'.Calls(s'.visitor[p])[k], p)
  {
    var k :| 0 <= k < |s.Calls(s.visitor[p])| && Runs(s.Calls(s.visitor[p])[k], p);
    assert Runs(s'.Calls(s.visitor[p])[k], p);
  }

  lemma OthersKept<V>(s: State<V>, s': State<V>, t: Tid)
    requires forall u :: Nested(s, u) && Passed(s, u)
    requires forall u :: u != t ==> s'.Calls(u) == s.Calls(u)
    requires s.constructed <= s'.constructed
    requires forall p :: p in s.visitor && s.visitor[p] != t ==> p in s'.visitor && s'.visitor[p] == s.visitor[p]
    ensures forall u :: u != t ==> Nested(s', u) && Passed(s', u)
  {
    hide Nested, Passed;
    forall u | u != t ensures Nested(s', u) && Passed(s', u) {
      assert Nested(s, u) && Passed(s, u);
      ThreadKept(s, s', u);
    }
  }

  /** The nest stays well formed when the last call ends up at rest, claims of the others intact. */
  lemma NestedKept<V>(s: State<V>, s': State<V>, t: Tid, f: Frame<V>)
    requires Nested(s, t) && s.HasTop(t)
    requires s'.Calls(t) == s.Calls(t)[..|s.Calls(t)| - 1] + [f] && !f.running && f.i <= |f.queue|
    requires forall p :: p in s.visitor && s.visitor[p] == t && !Runs(s.Top(t), p) ==>
      p in s'.visitor && s'.visitor[p] == t
    ensures Nested(s', t)
  {
  }

  lemma SkipThread<V>(fini: set<V>, s: State<V>, t: Tid)
    requires Invariant(fini, s) && Enabled(s, Skip(t))
    ensures Nested(Next(fini, s, Skip(t)), t) && Passed(Next(fini, s, Skip(t)), t)
  {
    hide Passed, Nested, StartedOnce, ExitSound, Settled, Reversed, Owned;
    assert Nested(s, t) && Passed(s, t);
    SkipSettled(fini, s, t);
    NestedKept(s, Next(fini, s, Skip(t)), t, s.Top(t).(i := s.Top(t).i + 1));
    PassedKept(s, Next(fini, s, Skip(t)), t, s.Top(t).(i := s.Top(t).i + 1));
  }

  /** An entry that is skipped is constructed, or runs in a call of the same thread further out. */
  lemma SkipSettled<V>(fini: set<V>, s: State<V>, t: Tid)
    requires Owned(s) && Enabled(s, Skip(t))
    ensures Settled(Next(fini, s, Skip(t)), Next(fini, s, Skip(t)).Calls(t), |s.Calls(t)| - 1,
                    s.Top(t).queue[s.Top(t).i])
  {
    var p := s.Top(t).queue[s.Top(t).i];
    if p !in s.constructed {
      var k :| 0 <= k < |s.Calls(t)| && Runs(s.Calls(t)[k], p);
      assert Runs(Next(fini, s, Skip(t)).Calls(t)[k], p);
    }
  }

  lemma SkipKeeps<V>(fini: set<V>, s: State<V>, t: Tid)
    requires Invariant(fini, s) && Enabled(s, Skip(t))
    ensures Invariant(fini, Next(fini, s, Skip(t)))
  {
    SkipThread(fini, s, t);
    hide Passed, Nested;
    var s' := Next(fini, s, Skip(t));
    OthersKept(s, s', t);
    forall q | q in s'.visitor
      ensures exists k :: 0 <= k < |s'.Calls(s'.visitor[q])| && Runs(s'.Calls(s'.visitor[q])[k], q)
    {
      OwnerKept(s, s', t, s.Top(t).(i := s.Top(t).i + 1), q);
    }
  }

  /** The entry a thread is about to start, and the call that will be running it. */
  lemma StartThread<V>(fini: set<V>, s: State<V>, t: Tid)
    requires Invariant(fini, s) && Enabled(s, Start(t))
    ensures Nested(Next(fini, s, Start(t)), t) && Passed(Next(fini, s, Start(t)), t)
  {
    hide Passed, StartedOnce, ExitSound, Reversed;
    assert Nested(s, t) && Passed(s, t);
    PassedKept(s, Next(fini, s, Start(t)), t, s.Top(t).(running := true));
  }

  lemma StartOwned<V>(fini: set<V>, s: State<V>, t: Tid)
    requires Owned(s) && Enabled(s, Start(t))
    ensures Owned(Next(fini, s, Start(t)))
  {
    var s' := Next(fini, s, Start(t));
    var f := s.Top(t).(running := true);
    var p := f.queue[f.i];
    forall q | q in s'.visitor
      ensures exists k :: 0 <= k < |s'.Calls(s'.visitor[q])| && Runs(s'.Calls(s'.visitor[q])[k], q)
    {
      if q == p { assert Runs(s'.Calls(t)[|s.Calls(t)| - 1], p); }
      else { OwnerKept(s, s', t, f, q); }
    }
  }

  lemma StartKeeps<V>(fini: set<V>, s: State<V>, t: Tid)
    requires Invariant(fini, s) && Enabled(s, Start(t))
    ensures Invariant(fini, Next(fini, s, Start(t)))
  {
    hide Passed, Nested, Owned, StartedOnce, Reversed;
    StartThread(fini, s, t);
    StartOwned(fini, s, t);
    StartRecorded(fini, s, t);
    OthersKept(s, Next(fini, s, Start(t)), t);
  }

  lemma StartRecorded<V>(fini: set<V>, s: State<V>, t: Tid)
    requires StartedOnce(s) && s.finiList == Reversed(s.started, fini) && Enabled(s, Start(t))
    ensures var s' := Next(fini, s, Start(t));
      StartedOnce(s') && s'.finiList == Reversed(s'.started, fini)
  {
    var s' := Next(fini, s, Start(t));
    var p := s.Top(t).queue[s.Top(t).i];
    assert s'.started == s.started + [p];
    assert s'.started[..|s.started|] == s.started;
    AppendNew(s.started, p);
  }

  lemma AppendNew<V>(s: seq<V>, p: V)
    requires Distinct(s) && p !in s
    ensures Distinct(s + [p])
    ensures forall q :: q in s + [p] <==> q in s || q == p
  {
  }

  lemma RunningIsClaimed<V>(s: State<V>, t: Tid)
    requires Nested(s, t) && s.HasTop(t) && s.Top(t).running
    ensures s.Top(t).i < |s.Top(t).queue|
    ensures s.Top(t).queue[s.Top(t).i] in s.visitor && s.visitor[s.Top(t).queue[s.Top(t).i]] == t
  {
  }

  lemma FinishThread<V>(fini: set<V>, s: State<V>, t: Tid)
    requires Invariant(fini, s) && Enabled(s, Finish(t))
    ensures Nested(Next(fini, s, Finish(t)), t) && Passed(Next(fini, s, Finish(t)), t)
  {
    hide Passed, Nested, StartedOnce, ExitSound, Reversed, Owned;
    var s' := Next(fini, s, Finish(t));
    var f := s.Top(t).(running := false, i := s.Top(t).i + 1);
    assert Nested(s, t) && Passed(s, t);
    NestedKept(s, s', t, f);
    assert Settled(s', s'.Calls(t), |s.Calls(t)| - 1, f.queue[f.i - 1]);
    PassedKept(s, s', t, f);
  }

  lemma FinishKeeps<V>(fini: set<V>, s: State<V>, t: Tid)
    requires Invariant(fini, s) && Enabled(s, Finish(t))
    ensures Invariant(fini, Next(fini, s, Finish(t)))
  {
    hide Passed, Nested, ExitSound, Reversed;
    FinishThread(fini, s, t);
    var s' := Next(fini, s, Finish(t));
    var f := s.Top(t).(running := false, i := s.Top(t).i + 1);
    var p := f.queue[f.i - 1];
    assert Nested(s, t);
    RunningIsClaimed(s, t);
    OthersKept(s, s', t);
    assert StartedOnce(s');
    forall q | q in s'.visitor
      ensures exists k :: 0 <= k < |s'.Calls(s'.visitor[q])| && Runs(s'.Calls(s'.visitor[q])[k], q)
    {
      OwnerKept(s, s', t, f, q);
    }
    FinishExit(fini, s, t, p);
  }

  /** Once shutting down, only threads other than the exiting one finish constructors, and those
      are not among the entries the exit loop has passed. */
  lemma FinishExit<V>(fini: set<V>, s: State<V>, t: Tid, p: V)
    requires ExitSound(s) && StartedOnce(s) && Enabled(s, Finish(t))
    requires p == s.Top(t).queue[s.Top(t).i] && p in s.visitor && s.visitor[p] == t
    ensures ExitSound(Next(fini, s, Finish(t)))
  {
    hide ExitSoundFor;
    var s' := Next(fini, s, Finish(t));
    forall u | u in s'.exits ensures ExitSoundFor(s', u) {
      assert u in s.exits && ExitSoundFor(s, u);
      ExitFinished(s, s', t, u, p);
    }
  }

  lemma ExitFinished<V>(s: State<V>, s': State<V>, t: Tid, u: Tid, p: V)
    requires u in s.exits && ExitSoundFor(s, u) && t != u && p in s.visitor && s.visitor[p] == t && p !in s.constructed
    requires s'.exits == s.exits && s'.finiList == s.finiList
    requires s'.visitor == s.visitor - {p} && s'.constructed == s.constructed + {p}
    ensures ExitSoundFor(s', u)
  {
    hide Kept;
    KeptSame(s.finiList[..|s.finiList| - |s.exits[u].rest|], s.constructed, s.constructed + {p});
  }

  lemma {:induction false} KeptSame<V>(s: seq<V>, a: set<V>, b: set<V>)
    requires forall v :: v in s ==> (v in a <==> v in b)
    ensures Kept(s, a) == Kept(s, b)
  {
    if s == [] {
    } else {
      assert s[|s| - 1] in s;
      KeptSame(s[..|s| - 1], a, b);
    }
  }

  lemma SameCalls<V>(s: State<V>, s': State<V>)
    requires (forall u :: Nested(s, u) && Passed(s, u)) && Owned(s)
    requires s'.calls == s.calls && s'.visitor == s.visitor && s'.constructed == s.constructed
    ensures (forall u :: Nested(s', u) && Passed(s', u)) && Owned(s')
  {
    hide Nested, Passed;
    forall u ensures Nested(s', u) && Passed(s', u) {
      assert Nested(s, u) && Passed(s, u);
      ThreadKept(s, s', u);
    }
    assert forall u :: s'.Calls(u) == s.Calls(u);
  }

  lemma ExitKeeps<V>(fini: set<V>, s: State<V>, e: Event<V>)
    requires Invariant(fini, s) && Enabled(s, e) && (e.ExitBegin? || e.ExitSkip? || e.ExitRun?)
    ensures Invariant(fini, Next(fini, s, e))
  {
    hide Nested, Passed, Owned, Reversed, ExitSoundFor;
    var s' := Next(fini, s, e);
    SameCalls(s, s');
    forall u | u in s'.exits ensures ExitSoundFor(s', u) {
      if u != e.t {
        ExitUntouched(s, s', u);
      } else if e.ExitBegin? {
        ExitStarts(s, s', u);
      } else {
        ExitAdvances(fini, s, e);
      }
    }
  }

  lemma ExitUntouched<V>(s: State<V>, s': State<V>, u: Tid)
    requires u in s.exits && u in s'.exits && s'.exits[u] == s.exits[u] && ExitSoundFor(s, u)
    requires s'.finiList == s.finiList && s'.constructed == s.constructed && s'.visitor == s.visitor
    ensures ExitSoundFor(s', u)
  {
  }

  lemma ExitStarts<V>(s: State<V>, s': State<V>, u: Tid)
    requires u in s'.exits && s'.exits[u] == Exit(s.finiList, []) && s'.finiList == s.finiList
    ensures ExitSoundFor(s', u)
  {
    assert s.finiList[..0] == [];
  }

  lemma {:induction false} ReversedMembers<V>(s: seq<V>, keep: set<V>)
    ensures forall v :: v in Reversed(s, keep) <==> v in s && v in keep
  {
    if s == [] {
    } else {
      ReversedMembers(s[..|s| - 1], keep);
      assert s == s[..|s| - 1] + [s[|s| - 1]];
    }
  }

  /** The exit loop moves one entry on; an entry it skips is the exiting thread's own. */
  lemma ExitAdvances<V>(fini: set<V>, s: State<V>, e: Event<V>)
    requires StartedOnce(s) && s.finiList == Reversed(s.started, fini)
    requires Enabled(s, e) && (e.ExitSkip? || e.ExitRun?) && ExitSoundFor(s, e.t)
    ensures ExitSoundFor(Next(fini, s, e), e.t)
  {
    hide Kept, Reversed;
    var x := s.exits[e.t];
    var p, n := x.rest[0], |s.finiList| - |x.rest|;
    assert s.finiList[n] == p;
    assert p in s.visitor || p in s.constructed by {
      ReversedMembers(s.started, fini);
      assert p in s.finiList;
    }
    hide StartedOnce;
    assert s.finiList[..n + 1] == s.finiList[..n] + [p];
    KeptNext(s.finiList[..n], p, s.constructed);
    RestNext(s.finiList, x.rest);
    assert Next(fini, s, e).exits[e.t].rest == x.rest[1..];
  }

  lemma RestNext<V>(s: seq<V>, rest: seq<V>)
    requires rest != [] && |rest| <= |s| && rest == s[|s| - |rest|..]
    ensures rest[1..] == s[|s| - |rest[1..]|..]
  {
  }

  lemma KeptNext<V>(s: seq<V>, v: V, keep: set<V>)
    ensures Kept(s + [v], keep) == Kept(s, keep) + (if v in keep then [v] else [])
  {
    assert (s + [v])[..|s|] == s;
  }

  /** Every event keeps the invariant. */
  lemma EventKeeps<V>(fini: set<V>, s: State<V>, e: Event<V>)
    requires Invariant(fini, s) && Enabled(s, e)
    ensures Invariant(fini, Next(fini, s, e))
  {
    hide Invariant, Enabled, Next;
    match e
    case Call(t, queue) => CallKeeps(fini, s, t, queue);
    case Skip(t) => SkipKeeps(fini, s, t);
    case Start(t) => StartKeeps(fini, s, t);
    case Finish(t) => FinishKeeps(fini, s, t);
    case Return(t) => ReturnKeeps(fini, s, t);
    case ExitBegin(_) => ExitKeeps(fini, s, e);
    case ExitSkip(_) => ExitKeeps(fini, s, e);
    case ExitRun(_) => ExitKeeps(fini, s, e);
  }

  // ---------------------------------------------------------------- whole runs

  /** The state after a run from `s`, if each of its events was enabled in turn. */
  ghost predicate Run<V>(fini: set<V>, s: State<V>, events: seq<Event<V>>, s': State<V>)
    decreases events
  {
    if events == [] then s == s'
    else Enabled(s, events[0]) && Run(fini, Next(fini, s, events[0]), events[1..], s')
  }

  lemma {:induction false} RunKeeps<V>(fini: set<V>, s: State<V>, events: seq<Event<V>>, s': State<V>)
    requires Invariant(fini, s) && Run(fini, s, events, s')
    ensures Invariant(fini, s')
    decreases events
  {
    hide Invariant, Enabled, Next;
    if events == [] {
    } else {
      EventKeeps(fini, s, events[0]);
      RunKeeps(fini, Next(fini, s, events[0]), events[1..], s');
    }
  }

  ghost predicate Reachable<V(!new)>(fini: set<V>, s: State<V>) {
    exists events :: Run(fini, Initial(), events, s)
  }

  lemma InitialReachable<V(!new)>(fini: set<V>)
    ensures Reachable(fini, Initial<V>())
  {
    assert Run(fini, Initial<V>(), [], Initial<V>());
  }

  lemma {:induction false} RunExtends<V>(fini: set<V>, s: State<V>, events: seq<Event<V>>, s': State<V>, e: Event<V>)
    requires Run(fini, s, events, s') && Enabled(s', e)
    ensures Run(fini, s, events + [e], Next(fini, s', e))
    decreases events
  {
    hide Enabled, Next;
    if events == [] {
      assert [] + [e] == [e] && [e][1..] == [];
      assert Run(fini, Next(fini, s', e), [], Next(fini, s', e));
    } else {
      RunExtends(fini, Next(fini, s, events[0]), events[1..], s', e);
      assert (events + [e])[1..] == events[1..] + [e];
    }
  }

  lemma ReachesNext<V(!new)>(fini: set<V>, s: State<V>, e: Event<V>, s': State<V>)
    requires Reachable(fini, s) && Enabled(s, e) && s' == Next(fini, s, e)
    ensures Reachable(fini, s')
  {
    var events :| Run(fini, Initial(), events, s);
    RunExtends(fini, Initial(), events, s, e);
  }

  lemma ReachableKeeps<V(!new)>(fini: set<V>, s: State<V>)
    requires Reachable(fini, s)
    ensures Invariant(fini, s)
  {
    var events :| Run(fini, Initial(), events, s);
    InitialInvariant(fini);
    RunKeeps(fini, Initial(), events, s);
  }

  /** In every reachable state: no constructors ran twice, the finalizer list is the start order
      reversed, and each exit has finalized, once each, only what was fully constructed. */
  lemma Safety<V(!new)>(fini: set<V>, s: State<V>)
    requires Reachable(fini, s)
    ensures Distinct(s.started)
    ensures s.finiList == Reversed(s.started, fini) && Distinct(s.finiList)
    ensures forall t :: t in s.exits ==> Distinct(s.exits[t].finalized)
    ensures forall t, p :: t in s.exits && p in s.exits[t].finalized ==> p in s.constructed && p !in s.visitor
  {
    assert StartedOnce(s) && s.finiList == Reversed(s.started, fini) && ExitSound(s) by { ReachableKeeps(fini, s); }
    ReversedDistinct(s.started, fini);
    hide Reachable, Reversed, Kept;
    forall t | t in s.exits
      ensures Distinct(s.exits[t].finalized)
      ensures forall p :: p in s.exits[t].finalized ==> p in s.constructed && p !in s.visitor
    {
      assert ExitSoundFor(s, t);
      ExitSafe(s, t);
    }
  }

  lemma ExitSafe<V>(s: State<V>, t: Tid)
    requires t in s.exits && ExitSoundFor(s, t) && StartedOnce(s) && Distinct(s.finiList)
    ensures Distinct(s.exits[t].finalized)
    ensures forall p :: p in s.exits[t].finalized ==> p in s.constructed && p !in s.visitor
  {
    hide Kept;
    var done := s.finiList[..|s.finiList| - |s.exits[t].rest|];
    KeptMembers(done, s.constructed);
    KeptDistinct(done, s.constructed);
  }

  lemma {:induction false} KeptDistinct<V>(s: seq<V>, keep: set<V>)
    requires Distinct(s)
    ensures Distinct(Kept(s, keep))
  {
    if s == [] {
    } else {
      KeptDistinct(s[..|s| - 1], keep);
      KeptMembers(s[..|s| - 1], keep);
    }
  }

  lemma {:induction false} ReversedDistinct<V>(s: seq<V>, keep: set<V>)
    requires Distinct(s)
    ensures Distinct(Reversed(s, keep))
  {
    if s == [] {
    } else {
      ReversedDistinct(s[..|s| - 1], keep);
      ReversedMembers(s[..|s| - 1], keep);
    }
  }

  lemma {:induction false} KeptMembers<V>(s: seq<V>, keep: set<V>)
    ensures forall v :: v in Kept(s, keep) <==> v in s && v in keep
  {
    if s == [] {
    } else {
      KeptMembers(s[..|s| - 1], keep);
      assert s == s[..|s| - 1] + [s[|s| - 1]];
    }
  }

  /** When constructors start: never during shutdown, never again, and only once every earlier
      entry of the queue is constructed or is being constructed by the same thread. */
  lemma StartSafety<V(!new)>(fini: set<V>, s: State<V>, t: Tid)
    requires Reachable(fini, s) && Enabled(s, Start(t))
    ensures !s.ShuttingDown()
    ensures var f := s.Top(t);
      && f.queue[f.i] !in s.started
      && forall j :: 0 <= j < f.i ==>
           f.queue[j] in s.constructed || (f.queue[j] in s.visitor && s.visitor[f.queue[j]] == t)
    // with no call further out, all of them are constructed
    ensures |s.Calls(t)| == 1 ==> forall j :: 0 <= j < s.Top(t).i ==> s.Top(t).queue[j] in s.constructed
  {
    ReachableKeeps(fini, s);
    assert Nested(s, t) && Passed(s, t);
    var f, n := s.Top(t), |s.Calls(t)| - 1;
    forall j | 0 <= j < f.i
      ensures f.queue[j] in s.constructed || (n > 0 && f.queue[j] in s.visitor && s.visitor[f.queue[j]] == t)
    {
      assert Settled(s, s.Calls(t), n, f.queue[j]);
    }
  }

  /** A queue in constructor order: when an object's constructors start, each direct dependency
      that does not depend back on it is constructed or being constructed by the same thread. */
  lemma DependenciesFirst<V(!new)>(fini: set<V>, s: State<V>, t: Tid, g: Graph<V>, root: V, k: nat)
    requires Reachable(fini, s) && Enabled(s, Start(t))
    requires CtorOrder.SortedCtors(g, root, s.Top(t).queue)
    requires var p := s.Top(t).queue[s.Top(t).i]; p in g && k < |g[p]| && !Reaches(g, g[p][k], p)
    ensures var d := g[s.Top(t).queue[s.Top(t).i]][k];
      d in s.constructed || (d in s.visitor && s.visitor[d] == t)
  {
    hide Reachable, Reaches;
    StartSafety(fini, s, t);
    var f := s.Top(t);
    assert CtorOrder.AfterDeps(g, f.queue, f.i);
    var d := g[f.queue[f.i]][k];
    assert d in f.queue[..f.i];
  }

  /** A completed exit: every object on the finalizer list was finalized, last started first,
      except those whose constructors the exiting thread itself was still inside. */
  lemma ExitComplete<V(!new)>(fini: set<V>, s: State<V>, t: Tid)
    requires Reachable(fini, s) && t in s.exits && s.exits[t].rest == []
    ensures s.exits[t].finalized == Kept(s.finiList, s.constructed)
    ensures forall p :: p in s.finiList && p !in s.exits[t].finalized ==> p in s.visitor && s.visitor[p] == t
  {
    assert ExitSoundFor(s, t) by { ReachableKeeps(fini, s); }
    hide Reachable;
    assert s.finiList[..|s.finiList|] == s.finiList;
    KeptMembers(s.finiList, s.constructed);
  }
}
