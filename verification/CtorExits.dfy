/** More than one thread in `exit`.

    Nothing keeps a second thread from calling `exit` while a first one is in its loop.  Each walks the
    finalizer list on its own, so they can finalize the same objects.
 */
module CtorExits {
  import opened CtorProtocol
  import opened Graph

  /** What an exit has finalized: the constructed part of the list it is past. */
  lemma FinalizedBy<V(!new)>(fini: set<V>, s: State<V>, t: Tid, p: V)
    requires Reachable(fini, s) && t in s.exits
    ensures p in s.exits[t].finalized <==> p in s.finiList && p in s.constructed && p !in s.exits[t].rest
  {
    Safety(fini, s);
    assert ExitSoundFor(s, t) by { ReachableKeeps(fini, s); }
    hide Reachable, Kept, Reversed;
    var n := |s.finiList| - |s.exits[t].rest|;
    KeptMembers(s.finiList[..n], s.constructed);
    PastOrAhead(s.finiList, n, p);
  }

  lemma PastOrAhead<V>(s: seq<V>, n: nat, p: V)
    requires n <= |s| && Distinct(s)
    ensures p in s[..n] <==> p in s && p !in s[n..]
  {
    assert s == s[..n] + s[n..];
  }

  /** Two exits finalize the same objects: those that both are past. */
  lemma TwoExits<V(!new)>(fini: set<V>, s: State<V>, t: Tid, u: Tid)
    requires Reachable(fini, s) && t in s.exits && u in s.exits
    ensures forall p :: p in s.exits[t].finalized && p in s.exits[u].finalized <==>
      p in s.finiList && p in s.constructed && p !in s.exits[t].rest && p !in s.exits[u].rest
    // when both are done, each has finalized everything
    ensures t != u && s.exits[t].rest == [] == s.exits[u].rest ==>
      s.exits[t].finalized == s.exits[u].finalized == s.finiList
  {
    forall p
      ensures p in s.exits[t].finalized && p in s.exits[u].finalized <==>
        p in s.finiList && p in s.constructed && p !in s.exits[t].rest && p !in s.exits[u].rest
    {
      FinalizedBy(fini, s, t, p);
      FinalizedBy(fini, s, u, p);
    }
    if t != u && s.exits[t].rest == [] == s.exits[u].rest {
      ExitComplete(fini, s, t);
      ExitComplete(fini, s, u);
      KeptMembers(s.finiList, s.constructed);
      KeptAll(s.finiList, s.constructed);
    }
  }

  lemma {:induction false} KeptAll<V>(s: seq<V>, keep: set<V>)
    requires forall v :: v in s ==> v in keep
    ensures Kept(s, keep) == s
  {
    if s == [] {
    } else {
      KeptAll(s[..|s| - 1], keep);
    }
  }

  ghost predicate Ran<V>(s: State<V>, t: Tid, i: int) {
    t in s.exits && 0 <= i < |s.exits[t].finalized|
  }

  /** No object's finalizers have run twice, in one exit or in two. */
  ghost predicate FinalizedOnce<V(!new)>(s: State<V>) {
    forall t, u, i, j :: Ran(s, t, i) && Ran(s, u, j) && (t, i) != (u, j) ==>
      s.exits[t].finalized[i] != s.exits[u].finalized[j]
  }

  lemma NotInBoth<V(!new)>(s: State<V>, t: Tid, u: Tid, p: V)
    requires FinalizedOnce(s) && t in s.exits && u in s.exits && t != u
    ensures p !in s.exits[t].finalized || p !in s.exits[u].finalized
  {
    forall i, j | 0 <= i < |s.exits[t].finalized| && 0 <= j < |s.exits[u].finalized|
      ensures s.exits[t].finalized[i] != s.exits[u].finalized[j]
    {
      assert Ran(s, t, i) && Ran(s, u, j);
    }
  }

  /** That is so exactly as long as no two exits are past the same constructed object; in particular
      with one exit at most. */
  lemma FinalizedOnceIff<V(!new)>(fini: set<V>, s: State<V>)
    requires Reachable(fini, s)
    ensures FinalizedOnce(s) <==>
      forall t, u, p :: t in s.exits && u in s.exits && t != u && p in s.finiList && p in s.constructed ==>
        p in s.exits[t].rest || p in s.exits[u].rest
    ensures (forall t, u :: t in s.exits && u in s.exits ==> t == u) ==> FinalizedOnce(s)
  {
    Safety(fini, s);
    hide Reachable, Reversed;
    if FinalizedOnce(s) {
      forall t, u, p | t in s.exits && u in s.exits && t != u && p in s.finiList && p in s.constructed
        ensures p in s.exits[t].rest || p in s.exits[u].rest
      {
        NotInBoth(s, t, u, p);
        TwoExits(fini, s, t, u);
      }
    }
    if forall t, u, p :: t in s.exits && u in s.exits && t != u && p in s.finiList && p in s.constructed ==>
        p in s.exits[t].rest || p in s.exits[u].rest {
      forall t, u, i, j | Ran(s, t, i) && Ran(s, u, j) && (t, i) != (u, j)
        ensures s.exits[t].finalized[i] != s.exits[u].finalized[j]
      {
        TwoExits(fini, s, t, u);
        assert s.exits[t].finalized[i] in s.exits[t].finalized;
      }
    }
  }

  /** A run in which thread 0 starts to construct object 0, and thread 1 then constructs object 1. */
  ghost function Stage(n: nat): State<nat> {
    var zero := [Frame([0], 0, true)];
    if n == 0 then Initial()
    else if n == 1 then Initial().(calls := map[0 := [Frame([0], 0, false)]])
    else if n == 2 then State(map[0 := 0], {}, [0], map[], map[0 := zero], [0])
    else if n == 3 then State(map[0 := 0], {}, [0], map[], map[0 := zero, 1 := [Frame([1], 0, false)]], [0])
    else if n == 4 then
      State(map[0 := 0, 1 := 1], {}, [1, 0], map[], map[0 := zero, 1 := [Frame([1], 0, true)]], [0, 1])
    else State(map[0 := 0], {1}, [1, 0], map[], map[0 := zero, 1 := [Frame([1], 1, false)]], [0, 1])
  }

  lemma FirstStage()
    ensures Reachable({0, 1}, Stage(1))
  {
    hide Reachable;
    InitialReachable<nat>({0, 1});
    assert Stage(0).Calls(0) + [Frame([0], 0, false)] == [Frame([0], 0, false)];
    ReachesNext({0, 1}, Stage(0), Call(0, [0]), Stage(1));
  }

  lemma SecondStage()
    requires Reachable({0, 1}, Stage(1))
    ensures Reachable({0, 1}, Stage(2))
  {
    hide Reachable;
    assert Stage(1).Calls(0)[..0] + [Frame([0], 0, true)] == [Frame([0], 0, true)];
    ReachesNext({0, 1}, Stage(1), Start(0), Stage(2));
  }

  lemma ThirdStage()
    requires Reachable({0, 1}, Stage(2))
    ensures Reachable({0, 1}, Stage(3))
  {
    hide Reachable;
    assert Stage(2).Calls(1) + [Frame([1], 0, false)] == [Frame([1], 0, false)];
    ReachesNext({0, 1}, Stage(2), Call(1, [1]), Stage(3));
  }

  lemma FourthStage()
    requires Reachable({0, 1}, Stage(3))
    ensures Reachable({0, 1}, Stage(4))
  {
    hide Reachable;
    assert Stage(3).Calls(1)[..0] + [Frame([1], 0, true)] == [Frame([1], 0, true)];
    ReachesNext({0, 1}, Stage(3), Start(1), Stage(4));
  }

  lemma LastStage()
    requires Reachable({0, 1}, Stage(4))
    ensures Reachable({0, 1}, Stage(5))
  {
    hide Reachable;
    assert Stage(4).Calls(1)[..0] + [Frame([1], 1, false)] == [Frame([1], 1, false)];
    assert Stage(4).visitor - {1} == map[0 := 0];
    ReachesNext({0, 1}, Stage(4), Finish(1), Stage(5));
  }

  lemma ExitTwice() returns (s: State<nat>)
    requires Reachable({0, 1}, Stage(5))
    ensures Reachable({0, 1}, s) && 1 in s.exits && 2 in s.exits
    ensures s.exits[1].finalized == [1] == s.exits[2].finalized
  {
    hide Reachable;
    var fini, s0 := {0, 1}, Stage(5);
    var s1 := s0.(exits := map[1 := Exit([1, 0], [])]);
    ReachesNext(fini, s0, ExitBegin(1), s1);
    var s2 := s0.(exits := map[1 := Exit([0], [1])]);
    assert [1, 0][1..] == [0] && [] + [1] == [1];
    ReachesNext(fini, s1, ExitRun(1), s2);
    // thread 1 now waits for thread 0, which gives up the lock
    assert s2.HeldByOther(1, s2.exits[1].rest[0]);
    var s3 := s0.(exits := map[1 := Exit([0], [1]), 2 := Exit([1, 0], [])]);
    ReachesNext(fini, s2, ExitBegin(2), s3);
    s := s0.(exits := map[1 := Exit([0], [1]), 2 := Exit([0], [1])]);
    ReachesNext(fini, s3, ExitRun(2), s);
  }

  /** An object is finalized twice only by two threads that both exit.  That can happen: while the first
      waits for a constructor, the second walks the list from its start. */
  lemma FinalizedTwice() returns (s: State<nat>)
    ensures Reachable({0, 1}, s) && 1 in s.exits && 2 in s.exits
    ensures s.exits[1].finalized == [1] == s.exits[2].finalized
  {
    hide *;
    FirstStage();
    SecondStage();
    ThirdStage();
    FourthStage();
    LastStage();
    s := ExitTwice();
  }
}
