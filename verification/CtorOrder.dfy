/** The depth-first order of constructors, on values: what each step of the sort keeps.

    `path` holds the vertices being visited, the argument first; `taken[i]` counts the
    dependencies of `path[i]` already dealt with; `order` holds the vertices already output.
 */
module CtorOrder {
  import opened Graph

  datatype Sort<V> = Sort(path: seq<V>, taken: seq<nat>, order: seq<V>) {
    ghost predicate Seen(v: V) {
      v in path || v in order
    }
  }

  /** What the finished order promises about one vertex: a dependency comes earlier, unless
      it depends back on the vertex itself. */
  ghost predicate AfterDeps<V>(g: Graph<V>, order: seq<V>, j: nat)
    requires j < |order|
  {
    order[j] in g && forall k :: 0 <= k < |g[order[j]]| ==>
      g[order[j]][k] in order[..j] || Reaches(g, g[order[j]][k], order[j])
  }

  ghost predicate Linked<V>(g: Graph<V>, s: Sort<V>) {
    && |s.taken| == |s.path|
    && (forall i :: 0 <= i < |s.path| ==> s.path[i] in g && s.taken[i] <= |g[s.path[i]]|)
    && (forall i :: 0 <= i < |s.path| - 1 ==>
          s.taken[i] < |g[s.path[i]]| && g[s.path[i]][s.taken[i]] == s.path[i + 1])
  }

  /** No vertex is held twice. */
  ghost predicate Separate<V>(s: Sort<V>) {
    && Distinct(s.path) && Distinct(s.order)
    && forall v :: v in s.path ==> v !in s.order
  }

  ghost predicate Rooted<V>(g: Graph<V>, root: V, s: Sort<V>) {
    && (forall v :: v in s.path ==> v in g && Reaches(g, root, v))
    && (forall v :: v in s.order ==> v in g && Reaches(g, root, v))
    && (if s.path != [] then s.path[0] == root else s.order != [] && s.order[|s.order| - 1] == root)
  }

  /** Dependencies already passed by a vertex on the path have been seen. */
  ghost predicate PassedSeen<V>(g: Graph<V>, s: Sort<V>)
    requires Linked(g, s)
  {
    forall i, k :: 0 <= i < |s.path| && 0 <= k < s.taken[i] ==> s.Seen(g[s.path[i]][k])
  }

  /** All dependencies of the output have been seen, and stand where they should. */
  ghost predicate Sorted<V>(g: Graph<V>, s: Sort<V>) {
    forall j :: 0 <= j < |s.order| ==>
      AfterDeps(g, s.order, j) && forall k :: 0 <= k < |g[s.order[j]]| ==> s.Seen(g[s.order[j]][k])
  }

  // ---------------------------------------------------------------- by recursion

  /** What a visit has seen and output. */
  datatype Visited<V> = Visited(seen: set<V>, order: seq<V>)

  /** Visits the dependencies of `v` from number `k` on that were not seen, one after the other, each with all
      it needs; then outputs `v`. */
  ghost function Visit<V>(g: Graph<V>, v: V, k: nat, t: Visited<V>): (r: Visited<V>)
    requires v in g && k <= |g[v]|
    ensures t.seen <= r.seen
    decreases g.Keys - t.seen, |g[v]| - k
  {
    if k == |g[v]| then t.(order := t.order + [v]) else
      var d := g[v][k];
      if d in t.seen || d !in g then Visit(g, v, k + 1, t) else
        var deeper := Visit(g, d, 0, Visited(t.seen + {d}, t.order));
        assert g.Keys - deeper.seen < g.Keys - t.seen by { assert d in g.Keys - t.seen; }
        Visit(g, v, k + 1, deeper)
  }

  /** The order in which recursive visits output everything `root` needs. */
  ghost function PostOrder<V>(g: Graph<V>, root: V): seq<V>
    requires root in g
  {
    Visit(g, root, 0, Visited({root}, [])).order
  }

  /** The visits the path stands for, from the top down, carried through. */
  ghost function Unwind<V>(g: Graph<V>, path: seq<V>, taken: seq<nat>, t: Visited<V>): seq<V>
    requires |path| == |taken| && forall i :: 0 <= i < |path| ==> path[i] in g && taken[i] <= |g[path[i]]|
    decreases |path|
  {
    if path == [] then t.order else
      var n := |path| - 1;
      Unwind(g, path[..n], taken[..n], Visit(g, path[n], taken[n], t))
  }

  ghost function Held<V>(s: Sort<V>): Visited<V> {
    Visited((set v | v in s.path) + (set v | v in s.order), s.order)
  }

  /** Carrying the search through gives the recursive order. */
  ghost predicate OnCourse<V>(g: Graph<V>, root: V, s: Sort<V>)
    requires Linked(g, s)
  {
    root in g && Unwind(g, s.path, s.taken, Held(s)) == PostOrder(g, root)
  }

  lemma StartOnCourse<V>(g: Graph<V>, root: V)
    requires root in g
    ensures OnCourse(g, root, Sort([root], [0], []))
  {
    var s := Sort([root], [0], []);
    assert Held(s) == Visited({root}, []);
    assert [root][..0] == [] && [0][..0] == [];
  }

  lemma AdvanceOnCourse<V>(g: Graph<V>, root: V, s: Sort<V>)
    requires Linked(g, s) && OnCourse(g, root, s) && s.path != [] && Linked(g, Advance(s))
    requires TopTaken(s) < |g[Top(s)]| && s.Seen(g[Top(s)][TopTaken(s)])
    ensures OnCourse(g, root, Advance(s))
  {
    var t, n := Advance(s), |s.path| - 1;
    assert Held(t) == Held(s) && t.taken[..n] == s.taken[..n];
    assert g[Top(s)][TopTaken(s)] in Held(s).seen;
    assert Visit(g, s.path[n], s.taken[n], Held(s)) == Visit(g, t.path[n], t.taken[n], Held(t));
  }

  lemma PushOnCourse<V>(g: Graph<V>, root: V, s: Sort<V>)
    requires Closed(g) && Linked(g, s) && OnCourse(g, root, s) && s.path != []
    requires TopTaken(s) < |g[Top(s)]| && !s.Seen(g[Top(s)][TopTaken(s)]) && Linked(g, Push(g, s))
    ensures OnCourse(g, root, Push(g, s))
  {
    var t, n := Push(g, s), |s.path| - 1;
    var v, k, d := s.path[n], s.taken[n], g[Top(s)][TopTaken(s)];
    assert Held(t) == Visited(Held(s).seen + {d}, s.order);
    assert t.path[..n + 1] == s.path && t.taken[..n + 1] == s.taken && d !in Held(s).seen;
    hide Visit, Unwind, Held;
    var deeper := Visit(g, d, 0, Held(t));
    VisitNew(g, v, k, Held(s));
    VisitSeen(g, v, k, deeper);
    UnwindTop(g, s.path, s.taken, Held(s));
    UnwindTop(g, s.path, s.taken, deeper);
    UnwindTop(g, t.path, t.taken, Held(t));
  }

  lemma VisitNew<V>(g: Graph<V>, v: V, k: nat, t: Visited<V>)
    requires v in g && k < |g[v]| && g[v][k] !in t.seen && g[v][k] in g
    ensures var deeper := Visit(g, g[v][k], 0, Visited(t.seen + {g[v][k]}, t.order));
      g[v][k] in deeper.seen && Visit(g, v, k, t) == Visit(g, v, k + 1, deeper)
  {
  }

  lemma VisitSeen<V>(g: Graph<V>, v: V, k: nat, t: Visited<V>)
    requires v in g && k < |g[v]| && g[v][k] in t.seen
    ensures Visit(g, v, k, t) == Visit(g, v, k + 1, t)
  {
  }

  lemma UnwindTop<V>(g: Graph<V>, path: seq<V>, taken: seq<nat>, t: Visited<V>)
    requires |path| == |taken| > 0 && forall i :: 0 <= i < |path| ==> path[i] in g && taken[i] <= |g[path[i]]|
    ensures var n := |path| - 1;
      Unwind(g, path, taken, t) == Unwind(g, path[..n], taken[..n], Visit(g, path[n], taken[n], t))
  {
    hide Visit;
  }

  lemma EmitOnCourse<V>(g: Graph<V>, root: V, s: Sort<V>)
    requires Linked(g, s) && OnCourse(g, root, s) && s.path != [] && TopTaken(s) == |g[Top(s)]| && Linked(g, Emit(s))
    ensures OnCourse(g, root, Emit(s))
  {
    EmitSeen(s);
    assert Held(Emit(s)) == Held(s).(order := s.order + [Top(s)]);
  }

  // ---------------------------------------------------------------- what every step keeps

  ghost predicate Invariant<V>(g: Graph<V>, root: V, s: Sort<V>) {
    Linked(g, s) && Separate(s) && Rooted(g, root, s) && PassedSeen(g, s) && Sorted(g, s) && OnCourse(g, root, s)
  }

  lemma Start<V>(g: Graph<V>, root: V)
    requires root in g
    ensures Invariant(g, root, Sort([root], [0], []))
  {
    ReachesSelf(g, root);
    StartOnCourse(g, root);
    hide OnCourse;
  }

  function Top<V>(s: Sort<V>): V
    requires s.path != []
  {
    s.path[|s.path| - 1]
  }

  function TopTaken<V>(s: Sort<V>): nat
    requires |s.taken| > 0
  {
    s.taken[|s.taken| - 1]
  }

  /** The top vertex passes a dependency that was seen before. */
  function Advance<V>(s: Sort<V>): Sort<V>
    requires |s.taken| > 0
  {
    s.(taken := s.taken[..|s.taken| - 1] + [TopTaken(s) + 1])
  }

  lemma AdvanceKeeps<V>(g: Graph<V>, root: V, s: Sort<V>)
    requires Invariant(g, root, s) && s.path != []
    requires TopTaken(s) < |g[Top(s)]| && s.Seen(g[Top(s)][TopTaken(s)])
    ensures Invariant(g, root, Advance(s))
  {
    hide Reaches, AfterDeps, OnCourse;
    assert PassedSeen(g, Advance(s));
    AdvanceOnCourse(g, root, s);
  }

  /** The top vertex's next dependency is new and goes on the path above it. */
  function Push<V>(g: Graph<V>, s: Sort<V>): Sort<V>
    requires s.path != [] && |s.taken| > 0 && Top(s) in g && TopTaken(s) < |g[Top(s)]|
  {
    s.(path := s.path + [g[Top(s)][TopTaken(s)]], taken := s.taken + [0])
  }

  lemma PushKeeps<V>(g: Graph<V>, root: V, s: Sort<V>)
    requires Closed(g) && Invariant(g, root, s) && s.path != []
    requires TopTaken(s) < |g[Top(s)]| && !s.Seen(g[Top(s)][TopTaken(s)])
    ensures Invariant(g, root, Push(g, s))
  {
    hide Reaches, AfterDeps, OnCourse;
    var t, d := Push(g, s), g[Top(s)][TopTaken(s)];
    ReachesEdge(g, Top(s), TopTaken(s));
    ReachesTransitive(g, root, Top(s), d);
    assert forall v :: v in t.path <==> v in s.path || v == d;
    assert Linked(g, t);
    assert Separate(t);
    assert Rooted(g, root, t);
    assert PassedSeen(g, t);
    PushOnCourse(g, root, s);
  }

  /** The top vertex has no dependencies left and is output. */
  function Emit<V>(s: Sort<V>): Sort<V>
    requires s.path != [] && |s.taken| > 0
  {
    Sort(s.path[..|s.path| - 1], s.taken[..|s.taken| - 1], s.order + [Top(s)])
  }

  /** A vertex on the path reaches every vertex above it. */
  lemma {:induction false} PathReaches<V>(g: Graph<V>, s: Sort<V>, i: nat, j: nat)
    requires Linked(g, s) && i <= j < |s.path|
    ensures Reaches(g, s.path[i], s.path[j])
    decreases j - i
  {
    if i == j {
      ReachesSelf(g, s.path[i]);
    } else {
      ReachesEdge(g, s.path[i], s.taken[i]);
      PathReaches(g, s, i + 1, j);
      ReachesTransitive(g, s.path[i], s.path[i + 1], s.path[j]);
    }
  }

  /** When the top vertex is done, each of its dependencies is out already or waits below it. */
  lemma EmittedAfterDeps<V>(g: Graph<V>, root: V, s: Sort<V>)
    requires Invariant(g, root, s) && s.path != [] && TopTaken(s) == |g[Top(s)]|
    ensures AfterDeps(g, s.order + [Top(s)], |s.order|)
  {
    var p, order := Top(s), s.order + [Top(s)];
    assert order[..|s.order|] == s.order;
    forall k | 0 <= k < |g[p]| ensures g[p][k] in s.order || Reaches(g, g[p][k], p) {
      assert s.Seen(g[p][k]);
      if g[p][k] !in s.order {
        var i :| 0 <= i < |s.path| && s.path[i] == g[p][k];
        PathReaches(g, s, i, |s.path| - 1);
      }
    }
  }

  lemma EmitSorted<V>(g: Graph<V>, root: V, s: Sort<V>)
    requires Invariant(g, root, s) && s.path != [] && TopTaken(s) == |g[Top(s)]|
    ensures Sorted(g, Emit(s))
  {
    hide Reaches;
    var t, p := Emit(s), Top(s);
    EmittedAfterDeps(g, root, s);
    forall j | 0 <= j < |t.order|
      ensures AfterDeps(g, t.order, j) && forall k :: 0 <= k < |g[t.order[j]]| ==> s.Seen(g[t.order[j]][k])
    {
      if j < |s.order| {
        assert AfterDeps(g, s.order, j) && t.order[..j] == s.order[..j];
      }
    }
    EmitSeen(s);
  }

  lemma EmitSeen<V>(s: Sort<V>)
    requires s.path != [] && |s.taken| > 0
    ensures forall v :: v in s.path ==> v in Emit(s).path || v in Emit(s).order
    ensures forall v :: v in s.order ==> v in Emit(s).order
    ensures forall v :: v in Emit(s).order ==> v in s.order || v == Top(s)
  {
    assert s.path == Emit(s).path + [Top(s)];
  }

  lemma EmitKeeps<V>(g: Graph<V>, root: V, s: Sort<V>)
    requires Invariant(g, root, s) && s.path != [] && TopTaken(s) == |g[Top(s)]|
    ensures Invariant(g, root, Emit(s))
  {
    EmitSorted(g, root, s);
    EmitLinked(g, s);
    EmitSeparate(s);
    EmitRooted(g, root, s);
    EmitPassedSeen(g, s);
    EmitOnCourse(g, root, s);
    hide Linked, Separate, Rooted, PassedSeen, Sorted, OnCourse;
  }

  lemma EmitLinked<V>(g: Graph<V>, s: Sort<V>)
    requires Linked(g, s) && s.path != []
    ensures Linked(g, Emit(s))
  {
    EmitPath(s);
    hide Emit;
    var t := Emit(s);
    forall i | 0 <= i < |t.path| ensures t.path[i] in g && t.taken[i] <= |g[t.path[i]]| {
      assert t.path[i] == s.path[i] && t.taken[i] == s.taken[i];
    }
    forall i | 0 <= i < |t.path| - 1
      ensures t.taken[i] < |g[t.path[i]]| && g[t.path[i]][t.taken[i]] == t.path[i + 1]
    {
      assert t.path[i] == s.path[i] && t.path[i + 1] == s.path[i + 1] && t.taken[i] == s.taken[i];
    }
  }

  lemma EmitPath<V>(s: Sort<V>)
    requires s.path != [] && |s.taken| == |s.path|
    ensures var t := Emit(s);
      && |t.path| == |t.taken| == |s.path| - 1 && t.order == s.order + [Top(s)]
      && (forall i :: 0 <= i < |t.path| ==> t.path[i] == s.path[i] && t.taken[i] == s.taken[i])
      && (forall v :: v in t.path ==> v in s.path) && (Distinct(s.path) ==> Top(s) !in t.path)
  {
  }

  lemma EmitSeparate<V>(s: Sort<V>)
    requires Separate(s) && s.path != [] && |s.taken| == |s.path|
    ensures Separate(Emit(s))
  {
    EmitPath(s);
    EmitSeen(s);
    hide Emit;
    var order := Emit(s).order;
    assert Top(s) in s.path;
    forall i, j | 0 <= i < j < |order| ensures order[i] != order[j] {
      if j == |s.order| { assert order[i] in s.order; }
    }
  }

  lemma EmitRooted<V>(g: Graph<V>, root: V, s: Sort<V>)
    requires Rooted(g, root, s) && s.path != [] && |s.taken| == |s.path|
    ensures Rooted(g, root, Emit(s))
  {
    EmitPath(s);
    EmitSeen(s);
    hide Emit, Reaches;
    assert Top(s) in s.path;
  }

  lemma EmitPassedSeen<V>(g: Graph<V>, s: Sort<V>)
    requires Linked(g, s) && PassedSeen(g, s) && s.path != [] && Linked(g, Emit(s))
    ensures PassedSeen(g, Emit(s))
  {
    EmitPath(s);
    EmitSeen(s);
    hide Emit, Linked;
    var t := Emit(s);
    forall i, k | 0 <= i < |t.path| && 0 <= k < t.taken[i] ensures t.Seen(g[t.path[i]][k]) {
      assert t.path[i] == s.path[i] && t.taken[i] == s.taken[i];
      assert s.Seen(g[s.path[i]][k]);
    }
  }

  /** The promise of the finished order. */
  ghost predicate SortedCtors<V>(g: Graph<V>, root: V, order: seq<V>) {
    && Distinct(order)
    && (forall v :: v in order ==> v in g && Reaches(g, root, v))
    && (forall v :: v in g && Reaches(g, root, v) ==> v in order)
    && order != [] && order[|order| - 1] == root
    && (forall j :: 0 <= j < |order| ==> AfterDeps(g, order, j))
  }

  lemma Finish<V>(g: Graph<V>, root: V, s: Sort<V>)
    requires Invariant(g, root, s) && s.path == []
    ensures SortedCtors(g, root, s.order) && root in g && s.order == PostOrder(g, root)
  {
    var inside := set v | v in s.order;
    forall v | v in g && Reaches(g, root, v) ensures v in s.order {
      var n: nat :| ReachesIn(g, root, v, n);
      ReachesStaysInside(g, inside, root, v, n);
    }
  }
}
