/** Dependency graphs: edges in list order, reachability counted in edges. */
module Graph {

  /** Each vertex with its direct dependencies, in order. */
  type Graph<V(==)> = map<V, seq<V>>

  ghost predicate Closed<V>(g: Graph<V>) {
    forall v, k :: v in g && 0 <= k < |g[v]| ==> g[v][k] in g
  }

  ghost predicate Distinct<V>(s: seq<V>) {
    forall i, j :: 0 <= i < j < |s| ==> s[i] != s[j]
  }

  /** `b` is reached from `a` along exactly `n` edges. */
  ghost predicate ReachesIn<V>(g: Graph<V>, a: V, b: V, n: nat) {
    if n == 0 then a == b
    else a in g && exists k :: 0 <= k < |g[a]| && ReachesIn(g, g[a][k], b, n - 1)
  }

  ghost predicate Reaches<V>(g: Graph<V>, a: V, b: V) {
    exists n: nat :: ReachesIn(g, a, b, n)
  }

  lemma {:induction false} ReachesInAppend<V>(g: Graph<V>, a: V, b: V, c: V, m: nat, n: nat)
    requires ReachesIn(g, a, b, m) && ReachesIn(g, b, c, n)
    ensures ReachesIn(g, a, c, m + n)
  {
    if m == 0 {
    } else {
      var k :| 0 <= k < |g[a]| && ReachesIn(g, g[a][k], b, m - 1);
      ReachesInAppend(g, g[a][k], b, c, m - 1, n);
    }
  }

  lemma ReachesTransitive<V>(g: Graph<V>, a: V, b: V, c: V)
    requires Reaches(g, a, b) && Reaches(g, b, c)
    ensures Reaches(g, a, c)
  {
    var m: nat :| ReachesIn(g, a, b, m);
    var n: nat :| ReachesIn(g, b, c, n);
    ReachesInAppend(g, a, b, c, m, n);
  }

  lemma ReachesSelf<V>(g: Graph<V>, a: V)
    ensures Reaches(g, a, a)
  {
    assert ReachesIn(g, a, a, 0);
  }

  lemma ReachesEdge<V>(g: Graph<V>, a: V, k: nat)
    requires a in g && k < |g[a]|
    ensures ReachesIn(g, a, g[a][k], 1)
    ensures Reaches(g, a, g[a][k])
  {
    assert ReachesIn(g, g[a][k], g[a][k], 0);
    assert ReachesIn(g, a, g[a][k], 1);
  }

  /** A set that no edge leaves holds everything reachable from inside it. */
  lemma {:induction false} ReachesStaysInside<V>(g: Graph<V>, inside: set<V>, a: V, b: V, n: nat)
    requires a in inside
    requires forall v, k :: v in inside && v in g && 0 <= k < |g[v]| ==> g[v][k] in inside
    requires ReachesIn(g, a, b, n)
    ensures b in inside
  {
    if n == 0 {
    } else {
      var k :| 0 <= k < |g[a]| && ReachesIn(g, g[a][k], b, n - 1);
      ReachesStaysInside(g, inside, g[a][k], b, n - 1);
    }
  }

  /** A path of `n >= 1` edges seen from its far end. */
  lemma {:induction false} ReachesLastEdge<V>(g: Graph<V>, a: V, b: V, n: nat) returns (v: V, k: nat)
    requires n >= 1 && ReachesIn(g, a, b, n)
    ensures ReachesIn(g, a, v, n - 1)
    ensures v in g && k < |g[v]| && g[v][k] == b
  {
    var j :| 0 <= j < |g[a]| && ReachesIn(g, g[a][j], b, n - 1);
    if n == 1 {
      v, k := a, j;
    } else {
      v, k := ReachesLastEdge(g, g[a][j], b, n - 1);
    }
  }

  /** A repetition-free list drawn from a set is no longer than the set. */
  lemma {:induction false} DistinctLength<V>(s: seq<V>, all: set<V>)
    requires Distinct(s) && forall v :: v in s ==> v in all
    ensures |s| <= |all|
  {
    if s == [] {
    } else {
      DistinctLength(s[1..], all - {s[0]});
    }
  }
}
