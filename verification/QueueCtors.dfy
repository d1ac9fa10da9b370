/** The constructor queue: a depth-first sort whose output queue and work stack grow from
    opposite ends of one buffer. */
module QueueCtors {
  import opened Graph
  import opened Dsos
  import opened CtorOrder
  import BfsDeps

  /** The buffer holds the output from the front and the stack from slot `cnt - 1` down. */
  ghost predicate Buffer(queue: array<Dso?>, cnt: nat, stack: seq<Dso>, order: seq<Dso>)
    reads queue
  {
    && |stack| + |order| <= cnt <= queue.Length
    && (forall k :: 0 <= k < |stack| ==> queue[cnt - 1 - k] == stack[k])
    && (forall k :: 0 <= k < |order| ==> queue[k] == order[k])
  }

  /** The objects' scratch fields agree with the state of the sort. */
  ghost predicate Fields(reach: set<Dso>, s: Sort<Dso>)
    reads reach`mark, reach`nextDep
  {
    && |s.taken| == |s.path|
    && (forall k :: 0 <= k < |s.path| ==> s.path[k] in reach && s.path[k].nextDep == s.taken[k])
    && (forall d :: d in reach ==> (d.mark <==> s.Seen(d)))
  }

  ghost function ReachableFrom(g: Graph<Dso>, root: Dso): set<Dso> {
    set d | d in g && Reaches(g, root, d)
  }

  /** Everything held by the sort is reachable, so both ends together leave a slot free. */
  lemma Room(g: Graph<Dso>, root: Dso, s: Sort<Dso>)
    requires Invariant(g, root, s)
    ensures |s.path| + |s.order| <= |ReachableFrom(g, root)|
  {
    hide Reaches, AfterDeps;
    forall v | v in s.path + s.order ensures v in ReachableFrom(g, root) {
      assert v in s.path || v in s.order;
    }
    DistinctJoin(s.path, s.order);
    DistinctLength(s.path + s.order, ReachableFrom(g, root));
  }

  lemma DistinctJoin<V>(a: seq<V>, b: seq<V>)
    requires Distinct(a) && Distinct(b) && forall v :: v in a ==> v !in b
    ensures Distinct(a + b)
  {
    var s := a + b;
    forall i, j | 0 <= i < j < |s| ensures s[i] != s[j] {
      if i < |a| <= j { assert a[i] in a && b[j - |a|] in b; }
    }
  }

  /** The loop state: vertex `p` in hand, the vertices below it on the stack. */
  ghost predicate Visiting(queue: array<Dso?>, cnt: nat, spos: nat, p: Dso,
                           g: Graph<Dso>, root: Dso, reach: set<Dso>, s: Sort<Dso>)
    reads queue, g.Keys, reach
  {
    && Loaded(g) && reach == ReachableFrom(g, root) && |reach| < cnt
    && Invariant(g, root, s) && s.path != [] && p == Top(s) && Fields(reach, s)
    && Buffer(queue, cnt, s.path[..|s.path| - 1], s.order) && spos == cnt - (|s.path| - 1)
  }

  /** The dependency at hand was seen before: step past it. */
  method Pass(queue: array<Dso?>, cnt: nat, spos: nat, p: Dso,
              ghost g: Graph<Dso>, ghost root: Dso, ghost reach: set<Dso>, ghost s: Sort<Dso>)
    requires Visiting(queue, cnt, spos, p, g, root, reach, s)
    requires p.nextDep < p.ndepsDirect && p.deps[p.nextDep].mark
    modifies p`nextDep
    ensures Visiting(queue, cnt, spos, p, g, root, reach, Advance(s))
    ensures p.nextDep == old(p.nextDep) + 1
  {
    hide Invariant, Loaded, ReachableFrom, Buffer;
    PassFacts(queue, cnt, spos, p, g, root, reach, s);
    p.nextDep := p.nextDep + 1;
  }

  lemma PassFacts(queue: array<Dso?>, cnt: nat, spos: nat, p: Dso,
                  g: Graph<Dso>, root: Dso, reach: set<Dso>, s: Sort<Dso>)
    requires Visiting(queue, cnt, spos, p, g, root, reach, s)
    requires p.nextDep < p.ndepsDirect && p.deps[p.nextDep].mark
    ensures Invariant(g, root, Advance(s)) && p !in s.path[..|s.path| - 1]
  {
    SeenIsMarked(g, root, reach, s);
    AdvanceKeeps(g, root, s);
  }

  lemma TopFacts(g: Graph<Dso>, root: Dso, reach: set<Dso>, s: Sort<Dso>)
    requires Loaded(g)
    requires Invariant(g, root, s) && s.path != [] && Fields(reach, s)
    ensures Top(s) in g && TopTaken(s) == Top(s).nextDep <= |g[Top(s)]| == Top(s).ndepsDirect
  {
  }

  lemma SeenIsMarked(g: Graph<Dso>, root: Dso, reach: set<Dso>, s: Sort<Dso>)
    requires Loaded(g) && reach == ReachableFrom(g, root)
    requires Invariant(g, root, s) && s.path != [] && Fields(reach, s)
    requires TopTaken(s) < |g[Top(s)]|
    ensures Top(s) in reach && g[Top(s)][TopTaken(s)] in reach
    ensures g[Top(s)][TopTaken(s)].mark <==> s.Seen(g[Top(s)][TopTaken(s)])
  {
    hide AfterDeps, Sorted;
    var p := Top(s);
    ReachesEdge(g, p, TopTaken(s));
    ReachesTransitive(g, root, p, g[p][TopTaken(s)]);
  }

  /** The dependency at hand is new: stack `p` and take the dependency up instead. */
  method Enter(queue: array<Dso?>, cnt: nat, spos0: nat, p0: Dso,
               ghost g: Graph<Dso>, ghost root: Dso, ghost reach: set<Dso>, ghost s: Sort<Dso>)
    returns (spos: nat, p: Dso)
    requires Visiting(queue, cnt, spos0, p0, g, root, reach, s)
    requires p0.nextDep < p0.ndepsDirect && !p0.deps[p0.nextDep].mark
    modifies queue, reach`mark, reach`nextDep
    ensures Visiting(queue, cnt, spos, p, g, root, reach, Push(g, s))
  {
    hide Invariant, Buffer, Fields, Loaded, ReachableFrom;
    EnterFacts(queue, cnt, spos0, p0, g, root, reach, s);
    spos := PushSlot(queue, cnt, spos0, p0, s.path[..|s.path| - 1], s.order);
    p := p0.deps[p0.nextDep];
    Visit(p, reach, s);
  }

  lemma EnterFacts(queue: array<Dso?>, cnt: nat, spos: nat, p: Dso,
                   g: Graph<Dso>, root: Dso, reach: set<Dso>, s: Sort<Dso>)
    requires Visiting(queue, cnt, spos, p, g, root, reach, s)
    requires p.nextDep < p.ndepsDirect && !p.deps[p.nextDep].mark
    ensures p.nextDep < |p.deps| && p in g && p.nextDep == TopTaken(s) < |g[p]|
    ensures p.deps[p.nextDep] == g[p][p.nextDep] && p.deps[p.nextDep] in reach && !s.Seen(p.deps[p.nextDep])
    ensures Invariant(g, root, Push(g, s)) && |s.path| + |s.order| <= cnt
    ensures s.path[..|s.path| - 1] + [p] == s.path == Push(g, s).path[..|s.path|]
  {
    TopFacts(g, root, reach, s);
    SeenIsMarked(g, root, reach, s);
    Room(g, root, s);
    PushKeeps(g, root, s);
  }

  method PushSlot(queue: array<Dso?>, cnt: nat, spos0: nat, p: Dso, ghost stack: seq<Dso>, ghost order: seq<Dso>)
    returns (spos: nat)
    requires Buffer(queue, cnt, stack, order) && |stack| + |order| < cnt && spos0 == cnt - |stack|
    modifies queue
    ensures Buffer(queue, cnt, stack + [p], order) && spos == spos0 - 1
  {
    spos := spos0 - 1;
    queue[spos] := p;
  }

  method Visit(p: Dso, ghost reach: set<Dso>, ghost s: Sort<Dso>)
    requires Fields(reach, s) && p in reach && !s.Seen(p)
    modifies p`nextDep, p`mark
    ensures Fields(reach, s.(path := s.path + [p], taken := s.taken + [0]))
  {
    p.nextDep := 0;
    p.mark := true;
  }

  /** Follows unseen dependencies down from the top vertex until one has none left. */
  method Descend(queue: array<Dso?>, cnt: nat, spos0: nat, p0: Dso,
                 ghost g: Graph<Dso>, ghost root: Dso, ghost reach: set<Dso>, ghost s0: Sort<Dso>)
    returns (spos: nat, p: Dso, ghost s: Sort<Dso>)
    requires Visiting(queue, cnt, spos0, p0, g, root, reach, s0)
    modifies queue, reach`mark, reach`nextDep
    ensures Visiting(queue, cnt, spos, p, g, root, reach, s)
    ensures TopTaken(s) == |g[p]| && s.order == s0.order
  {
    hide Invariant, Buffer, ReachableFrom;
    spos, p, s := spos0, p0, s0;
    TopFacts(g, root, reach, s);
    while p.nextDep < p.ndepsDirect
      invariant Visiting(queue, cnt, spos, p, g, root, reach, s)
      invariant s.order == s0.order
      invariant p in g && TopTaken(s) == p.nextDep <= |g[p]| == p.ndepsDirect
      decreases |reach| - |s.path|, p.ndepsDirect - p.nextDep
    {
      Room(g, root, s);
      if p.deps[p.nextDep].mark {
        Pass(queue, cnt, spos, p, g, root, reach, s);
        s := Advance(s);
      } else {
        spos, p := Enter(queue, cnt, spos, p, g, root, reach, s);
        s := Push(g, s);
      }
      TopFacts(g, root, reach, s);
    }
  }

  /** Clears the marks of a dependency list, counting it. */
  method ClearDeps(deps: seq<Dso>, ghost all: seq<Dso>) returns (cnt: nat)
    requires forall d :: d in deps ==> d in all
    modifies all`mark
    ensures cnt == |deps| && forall d :: d in deps ==> !d.mark
  {
    cnt := 0;
    while cnt < |deps|
      invariant cnt <= |deps|
      invariant forall i :: 0 <= i < cnt ==> !deps[i].mark
    {
      assert deps[cnt] in deps;
      deps[cnt].mark := false;
      cnt := cnt + 1;
    }
  }

  /** A list that holds every reachable object bounds their number. */
  lemma CountSuffices(g: Graph<Dso>, root: Dso, counted: seq<Dso>)
    requires forall d :: d in ReachableFrom(g, root) ==> d in counted
    ensures |ReachableFrom(g, root)| <= |counted|
  {
    SetLength(counted);
    SubsetLength(ReachableFrom(g, root), set d | d in counted);
  }

  lemma {:induction false} SetLength<V>(s: seq<V>)
    ensures |set v | v in s| <= |s|
  {
    if s == [] {
    } else {
      SetLength(s[1..]);
      assert (set v | v in s) == (set v | v in s[1..]) + {s[0]};
    }
  }

  lemma {:induction false} SubsetLength<V>(a: set<V>, b: set<V>)
    requires a <= b
    ensures |a| <= |b|
  {
    if a == {} {
    } else {
      var v :| v in a;
      SubsetLength(a - {v}, b - {v});
    }
  }

  /** The state between vertices: everything being visited is on the stack. */
  ghost predicate Stacked(queue: array<Dso?>, cnt: nat, spos: nat, qpos: nat,
                          g: Graph<Dso>, root: Dso, reach: set<Dso>, s: Sort<Dso>)
    reads queue, g.Keys, reach
  {
    && Loaded(g) && reach == ReachableFrom(g, root) && |reach| < cnt
    && Invariant(g, root, s) && Fields(reach, s)
    && Buffer(queue, cnt, s.path, s.order) && spos == cnt - |s.path| && qpos == |s.order|
  }

  /** Outputs the vertex in hand. */
  method Output(queue: array<Dso?>, cnt: nat, spos: nat, qpos: nat, p: Dso,
                ghost g: Graph<Dso>, ghost root: Dso, ghost reach: set<Dso>, ghost s: Sort<Dso>)
    requires Visiting(queue, cnt, spos, p, g, root, reach, s)
    requires qpos == |s.order| && TopTaken(s) == |g[p]|
    modifies queue
    ensures Stacked(queue, cnt, spos, qpos + 1, g, root, reach, Emit(s))
  {
    hide Invariant, Loaded, ReachableFrom;
    Room(g, root, s);
    EmitKeeps(g, root, s);
    EmitSeen(s);
    queue[qpos] := p;
    assert Buffer(queue, cnt, Emit(s).path, Emit(s).order);
  }

  /** Puts the argument alone on the stack. */
  method StartSort(queue: array<Dso?>, cnt: nat, dso: Dso, ghost g: Graph<Dso>, ghost reach: set<Dso>)
    returns (spos: nat, ghost s: Sort<Dso>)
    requires Loaded(g) && dso in g && reach == ReachableFrom(g, dso) && |reach| < cnt <= queue.Length
    requires forall d :: d in reach && d != dso ==> !d.mark
    modifies queue, reach`mark, reach`nextDep
    ensures Stacked(queue, cnt, spos, 0, g, dso, reach, s)
  {
    hide Invariant, Loaded, Reaches;
    Start(g, dso);
    ReachesSelf(g, dso);
    spos := cnt - 1;
    queue[spos] := dso;
    dso.nextDep := 0;
    dso.mark := true;
    s := Sort([dso], [0], []);
  }

  /** Takes the top of the stack in hand. */
  method Pop(queue: array<Dso?>, cnt: nat, spos0: nat, qpos: nat,
             ghost g: Graph<Dso>, ghost root: Dso, ghost reach: set<Dso>, ghost s: Sort<Dso>)
    returns (spos: nat, p: Dso)
    requires Stacked(queue, cnt, spos0, qpos, g, root, reach, s) && spos0 < cnt
    ensures Visiting(queue, cnt, spos, p, g, root, reach, s)
  {
    hide Invariant, Loaded, Fields;
    assert queue[cnt - 1 - (|s.path| - 1)] == Top(s);
    p := queue[spos0];
    spos := spos0 + 1;
  }

  method SortCtors(queue: array<Dso?>, cnt: nat, dso: Dso, ghost g: Graph<Dso>, ghost reach: set<Dso>)
    returns (qpos: nat, ghost order: seq<Dso>)
    requires Loaded(g) && dso in g && reach == ReachableFrom(g, dso) && |reach| < cnt <= queue.Length
    requires forall d :: d in reach && d != dso ==> !d.mark
    modifies queue, reach`mark, reach`nextDep
    ensures SortedCtors(g, dso, order) && order == PostOrder(g, dso)
    ensures qpos == |order| < cnt && Buffer(queue, cnt, [], order)
  {
    qpos := 0;
    var spos: nat;
    ghost var s;
    spos, s := StartSort(queue, cnt, dso, g, reach);
    hide Invariant, Loaded, Fields, ReachableFrom, SortedCtors, PostOrder;
    while spos < cnt
      invariant Stacked(queue, cnt, spos, qpos, g, dso, reach, s)
      decreases |reach| - |s.order|
    {
      Room(g, dso, s);
      var p: Dso;
      spos, p := Pop(queue, cnt, spos, qpos, g, dso, reach, s);
      spos, p, s := Descend(queue, cnt, spos, p, g, dso, reach, s);
      Output(queue, cnt, spos, qpos, p, g, dso, reach, s);
      qpos := qpos + 1;
      s := Emit(s);
    }
    Room(g, dso, s);
    Finish(g, dso, s);
    order := s.order;
  }

  /** Clears the marks the sort will read and bounds the queue it will fill. */
  method CountAndClear(dso: Dso, head: Dso, ghost all: seq<Dso>, ghost g: Graph<Dso>) returns (cnt: nat)
    requires Chain(head, all) && g.Keys == (set d | d in all)
    requires dso.bfsBuilt ==> forall d :: d in ReachableFrom(g, dso) ==> d == dso || d in dso.deps
    requires dso.bfsBuilt ==> forall d :: d in dso.deps ==> d in all
    modifies all`mark
    ensures |ReachableFrom(g, dso)| <= cnt
    ensures forall d :: d in ReachableFrom(g, dso) && d != dso ==> !d.mark
  {
    if dso.bfsBuilt {
      cnt := ClearDeps(dso.deps, all);
      CountSuffices(g, dso, dso.deps + [dso]);
      cnt := cnt + 1;
    } else {
      cnt := ClearChain(head, all);
      CountSuffices(g, dso, all);
    }
  }

  method Unmark(queue: array<Dso?>, qpos: nat, ghost order: seq<Dso>, ghost all: seq<Dso>)
    requires forall d :: d in order ==> d in all
    requires qpos == |order| <= queue.Length && forall k :: 0 <= k < qpos ==> queue[k] == order[k]
    modifies all`mark
    ensures forall d :: d in order ==> !d.mark
  {
    var i := 0;
    while i < qpos
      invariant 0 <= i <= qpos
      invariant forall k :: 0 <= k < i ==> !order[k].mark
    {
      assert queue[i] == order[i] && order[i] in order;
      queue[i].mark := false;
      i := i + 1;
    }
  }

  const BUILTIN_QUEUE: nat := 4

  /** The constructor queue of `dso`: everything it needs, dependencies first, `dso` last. */
  method QueueCtors(dso: Dso, head: Dso, ghost all: seq<Dso>, ghost g: Graph<Dso>)
    returns (queue: array<Dso?>, ghost order: seq<Dso>)
    requires Chain(head, all) && Loaded(g) && g.Keys == (set d | d in all) && dso in all
    // a dependency list that was extended lists all indirect dependencies
    requires dso.bfsBuilt ==> forall d :: d in ReachableFrom(g, dso) ==> d == dso || d in dso.deps
    requires dso.bfsBuilt ==> forall d :: d in dso.deps ==> d in all
    modifies all`mark, all`nextDep
    ensures fresh(queue) && |order| < queue.Length
    ensures (forall k :: 0 <= k < |order| ==> queue[k] == order[k]) && queue[|order|] == null
    ensures SortedCtors(g, dso, order) && order == PostOrder(g, dso)
    ensures forall d :: d in order ==> !d.mark
  {
    hide Loaded, Reaches, PostOrder;
    var cnt := CountAndClear(dso, head, all, g);
    cnt := cnt + 1;
    queue := new Dso?[if dso == head && cnt <= BUILTIN_QUEUE then BUILTIN_QUEUE else cnt](_ => null);
    var qpos;
    qpos, order := SortCtors(queue, cnt, dso, g, ReachableFrom(g, dso));
    queue[qpos] := null;
    Unmark(queue, qpos, order, all);
  }

  /** A closed dependency list is the bound the queue relies on. */
  lemma BreadthFirstBounds(g: Graph<Dso>, p: Dso, list: seq<Dso>, level: seq<nat>)
    requires BfsDeps.BreadthFirst(g, p, list, level)
    ensures forall d :: d in ReachableFrom(g, p) ==> d == p || d in list
    ensures forall d :: d in list ==> d in g
  {
    forall d | d in ReachableFrom(g, p) && d != p ensures d in list {
      var n: nat :| ReachesIn(g, p, d, n);
      assert n >= 1;
    }
  }

  /** `list` was extended when `g0` was all that was loaded; what was loaded since is not needed by it. */
  ghost predicate ListedEarlier(g0: Graph<Dso>, g: Graph<Dso>, p: Dso, list: seq<Dso>, level: seq<nat>) {
    && Closed(g0) && (forall v :: v in g0 ==> v in g && g[v] == g0[v])
    && BfsDeps.BreadthFirst(g0, p, list, level)
  }

  /** Loading more reaches nothing new from what was there. */
  lemma {:induction false} ReachesEarlier(g0: Graph<Dso>, g: Graph<Dso>, a: Dso, b: Dso, n: nat)
    requires Closed(g0) && (forall v :: v in g0 ==> v in g && g[v] == g0[v]) && a in g0
    requires ReachesIn(g, a, b, n)
    ensures ReachesIn(g0, a, b, n) && b in g0
  {
    if n == 0 {
    } else {
      var k :| 0 <= k < |g[a]| && ReachesIn(g, g[a][k], b, n - 1);
      ReachesEarlier(g0, g, g[a][k], b, n - 1);
      assert g0[a][k] == g[a][k];
    }
  }

  lemma EarlierBounds(g0: Graph<Dso>, g: Graph<Dso>, p: Dso, list: seq<Dso>, level: seq<nat>)
    requires ListedEarlier(g0, g, p, list, level)
    ensures forall d :: d in ReachableFrom(g, p) ==> d == p || d in list
    ensures forall d :: d in list ==> d in g
  {
    hide ReachesIn;
    forall d | d in ReachableFrom(g, p) && d != p ensures d in list {
      var n: nat :| ReachesIn(g, p, d, n);
      ReachesEarlier(g0, g, p, d, n);
      ReachesNone(g, p, d, n);
    }
  }

  lemma ReachesNone(g: Graph<Dso>, a: Dso, b: Dso, n: nat)
    requires ReachesIn(g, a, b, n) && a != b
    ensures n >= 1
  {
  }

  /** Any opening of an object: close its dependency list unless that was done, then queue its
      constructors. */
  method QueueOpened(p: Dso, head: Dso, ghost all: seq<Dso>, ghost g: Graph<Dso>,
                     ghost g0: Graph<Dso>, ghost level0: seq<nat>)
    returns (queue: array<Dso?>, ghost order: seq<Dso>)
    requires Chain(head, all) && Loaded(g) && g.Keys == (set d | d in all) && p in all
    requires forall d :: d in g ==> !d.mark
    requires if p.bfsBuilt then ListedEarlier(g0, g, p, p.deps, level0) else p.ndepsDirect == |p.deps|
    modifies p`deps, p`bfsBuilt, all`mark, all`nextDep
    ensures |order| < queue.Length && queue[|order|] == null
    ensures forall k :: 0 <= k < |order| ==> queue[k] == order[k]
    ensures SortedCtors(g, p, order) && order == PostOrder(g, p) && Loaded(g)
  {
    hide Reaches, SortedCtors, Loaded, ListedEarlier, BfsDeps.BreadthFirst, PostOrder;
    ghost var built, deps := p.bfsBuilt, p.deps;
    ghost var level, found := BfsDeps.ExtendBfsDeps(p, head, all, g);
    if built {
      EarlierBounds(g0, g, p, deps, level0);
    } else {
      BreadthFirstBounds(g, p, p.deps, level);
    }
    queue, order := QueueCtors(p, head, all, g);
  }
}
