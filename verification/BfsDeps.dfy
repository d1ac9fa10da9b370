/** The breadth-first closure of a dependency list, over a list that grows while it is scanned. */
module BfsDeps {
  import opened Graph
  import opened Dsos

  /** Dependency `nth` of entry `entry`. */
  datatype Place = Place(entry: nat, nth: nat) {
    predicate Before(that: Place) {
      entry < that.entry || (entry == that.entry && nth < that.nth)
    }
  }

  /** The list so far and, for each entry, the number of edges it was found at; for each entry that is not
      a direct dependency, also the place it was found at. */
  datatype Search<V> = Search(list: seq<V>, level: seq<nat>, found: seq<Place>)

  /** `x` stands in the list, at no more than `n` edges. */
  ghost predicate FoundWithin<V>(s: Search<V>, x: V, n: nat) {
    exists k :: 0 <= k < |s.list| && k < |s.level| && s.list[k] == x && s.level[k] <= n
  }

  /** The list starts with the direct dependencies; what follows is new each time. */
  ghost predicate WellListed<V>(g: Graph<V>, p: V, s: Search<V>) {
    && p in g && |s.level| == |s.list| && |g[p]| <= |s.list| && s.list[..|g[p]|] == g[p]
    && (forall v :: v in s.list ==> v in g)
    && (forall j, k :: 0 <= j < k < |s.list| && |g[p]| <= k ==> s.list[j] != s.list[k])
  }

  ghost predicate Levelled<V>(g: Graph<V>, p: V, s: Search<V>)
    requires WellListed(g, p, s)
  {
    && (forall k :: 0 <= k < |g[p]| ==> s.level[k] == 1)
    && (forall k :: 0 <= k < |s.list| ==> s.level[k] >= 1 && ReachesIn(g, p, s.list[k], s.level[k]))
    && (forall j, k :: 0 <= j < k < |s.list| ==> s.level[j] <= s.level[k])
  }

  /** The first `i` entries have had all their dependencies listed. */
  ghost predicate Scanned<V>(g: Graph<V>, s: Search<V>, i: nat)
    requires i <= |s.list| == |s.level| && forall v :: v in s.list ==> v in g
  {
    forall j, k :: 0 <= j < i && 0 <= k < |g[s.list[j]]| ==>
      FoundWithin(s, g[s.list[j]][k], s.level[j] + 1)
  }

  /** `at` is a dependency of an entry of the list. */
  ghost predicate In<V>(g: Graph<V>, list: seq<V>, at: Place) {
    at.entry < |list| && list[at.entry] in g && at.nth < |g[list[at.entry]]|
  }

  ghost function Dep<V>(g: Graph<V>, list: seq<V>, at: Place): V
    requires In(g, list, at)
  {
    g[list[at.entry]][at.nth]
  }

  /** `at` is the first place that names `x`. */
  ghost predicate FirstNames<V>(g: Graph<V>, list: seq<V>, at: Place, x: V) {
    && In(g, list, at) && Dep(g, list, at) == x
    && forall b: Place :: In(g, list, b) && b.Before(at) ==> Dep(g, list, b) != x
  }

  /** Each entry after the `n` direct dependencies was found at the first place that names it, that place is
      in an earlier entry, and the places come in order. */
  ghost predicate InOrder<V>(g: Graph<V>, list: seq<V>, n: nat, found: seq<Place>) {
    && n + |found| == |list|
    && (forall k :: 0 <= k < |found| ==> found[k].entry < n + k && FirstNames(g, list, found[k], list[n + k]))
    && (forall k, l :: 0 <= k < l < |found| ==> found[k].Before(found[l]))
  }

  /** The places found so far are before `at`. */
  ghost predicate AllBefore(found: seq<Place>, at: Place) {
    forall k :: 0 <= k < |found| ==> found[k].Before(at)
  }

  /** Entry `i` is being scanned and its first `j` dependencies are listed. */
  ghost predicate Invariant<V>(g: Graph<V>, p: V, s: Search<V>, i: nat, j: nat) {
    && WellListed(g, p, s) && Levelled(g, p, s) && i <= |s.list| && Scanned(g, s, i)
    && InOrder(g, s.list, |g[p]|, s.found) && AllBefore(s.found, Place(i, j))
    && (i == |s.list| ==> j == 0)
    && (i < |s.list| ==>
          && j <= |g[s.list[i]]|
          && s.level[|s.list| - 1] <= s.level[i] + 1
          && forall k :: 0 <= k < j ==> FoundWithin(s, g[s.list[i]][k], s.level[i] + 1))
  }

  lemma Start<V>(g: Graph<V>, p: V)
    requires Closed(g) && p in g
    ensures Invariant(g, p, Search(g[p], seq(|g[p]|, _ => 1), []), 0, 0)
  {
    forall k | 0 <= k < |g[p]| ensures ReachesIn(g, p, g[p][k], 1) {
      ReachesEdge(g, p, k);
    }
  }

  function Append<V>(s: Search<V>, x: V, n: nat, at: Place): Search<V> {
    Search(s.list + [x], s.level + [n], s.found + [at])
  }

  lemma FoundStays<V>(s: Search<V>, x: V, n: nat, at: Place, y: V, m: nat)
    requires |s.list| == |s.level| && FoundWithin(s, y, m)
    ensures FoundWithin(Append(s, x, n, at), y, m)
  {
    var k :| 0 <= k < |s.list| && k < |s.level| && s.list[k] == y && s.level[k] <= m;
    assert Append(s, x, n, at).list[k] == y;
  }

  /** The dependency at hand is listed already, and not too far down. */
  lemma SkipKeeps<V>(g: Graph<V>, p: V, s: Search<V>, i: nat, j: nat)
    requires Invariant(g, p, s, i, j) && i < |s.list| && j < |g[s.list[i]]|
    requires g[s.list[i]][j] in s.list
    ensures Invariant(g, p, s, i, j + 1)
  {
    hide ReachesIn;
    var x := g[s.list[i]][j];
    var k :| 0 <= k < |s.list| && s.list[k] == x;
    assert FoundWithin(s, x, s.level[i] + 1);
  }

  lemma AppendLevelled<V>(g: Graph<V>, p: V, s: Search<V>, x: V, n: nat, at: Place)
    requires WellListed(g, p, s) && Levelled(g, p, s)
    requires x in g && x !in s.list && n >= 1 && ReachesIn(g, p, x, n)
    requires forall k :: 0 <= k < |s.list| ==> s.level[k] <= n
    ensures WellListed(g, p, Append(s, x, n, at)) && Levelled(g, p, Append(s, x, n, at))
  {
    hide ReachesIn;
  }

  lemma AppendScanned<V>(g: Graph<V>, s: Search<V>, i: nat, x: V, n: nat, at: Place)
    requires i <= |s.list| == |s.level| && (forall v :: v in s.list ==> v in g) && x in g
    requires Scanned(g, s, i)
    ensures Scanned(g, Append(s, x, n, at), i)
  {
    var t := Append(s, x, n, at);
    forall j, k | 0 <= j < i && 0 <= k < |g[t.list[j]]|
      ensures FoundWithin(t, g[t.list[j]][k], t.level[j] + 1)
    {
      FoundStays(s, x, n, at, g[s.list[j]][k], s.level[j] + 1);
    }
  }

  /** All that is named before the place at hand is listed. */
  lemma NamedIsListed<V>(g: Graph<V>, p: V, s: Search<V>, i: nat, j: nat, b: Place)
    requires Invariant(g, p, s, i, j) && i < |s.list| && In(g, s.list, b) && b.Before(Place(i, j))
    ensures Dep(g, s.list, b) in s.list
  {
    hide ReachesIn, InOrder, Levelled;
    if b.entry < i {
      assert FoundWithin(s, g[s.list[b.entry]][b.nth], s.level[b.entry] + 1);
    } else {
      assert FoundWithin(s, g[s.list[i]][b.nth], s.level[i] + 1);
    }
  }

  lemma AppendInOrder<V>(g: Graph<V>, p: V, s: Search<V>, i: nat, j: nat)
    requires Invariant(g, p, s, i, j) && i < |s.list| && j < |g[s.list[i]]|
    requires g[s.list[i]][j] !in s.list
    ensures var t := Append(s, g[s.list[i]][j], s.level[i] + 1, Place(i, j));
      InOrder(g, t.list, |g[p]|, t.found) && AllBefore(t.found, Place(i, j + 1))
  {
    hide Levelled, Scanned, ReachesIn;
    var x, at, n := g[s.list[i]][j], Place(i, j), |g[p]|;
    var list, found := s.list + [x], s.found + [at];
    forall b: Place | In(g, list, b) && b.Before(at) ensures Dep(g, list, b) != x {
      assert In(g, s.list, b) && Dep(g, s.list, b) == Dep(g, list, b);
      NamedIsListed(g, p, s, i, j, b);
    }
    forall k | 0 <= k < |found| ensures found[k].entry < n + k && FirstNames(g, list, found[k], list[n + k]) {
      if k < |s.found| {
        assert FirstNames(g, s.list, found[k], s.list[n + k]);
        FirstStays(g, s.list, x, found[k], s.list[n + k]);
      }
    }
  }

  lemma FirstStays<V>(g: Graph<V>, list: seq<V>, x: V, at: Place, y: V)
    requires FirstNames(g, list, at, y)
    ensures FirstNames(g, list + [x], at, y)
  {
    forall b: Place | In(g, list + [x], b) && b.Before(at) ensures Dep(g, list + [x], b) != y {
      assert In(g, list, b) && Dep(g, list, b) == Dep(g, list + [x], b);
    }
  }

  lemma AppendKeeps<V>(g: Graph<V>, p: V, s: Search<V>, i: nat, j: nat)
    requires Closed(g) && Invariant(g, p, s, i, j) && i < |s.list| && j < |g[s.list[i]]|
    requires g[s.list[i]][j] !in s.list
    ensures Invariant(g, p, Append(s, g[s.list[i]][j], s.level[i] + 1, Place(i, j)), i, j + 1)
  {
    hide ReachesIn, Scanned;
    var u := s.list[i];
    var x, n := g[u][j], s.level[i] + 1;
    var at := Place(i, j);
    var t := Append(s, x, n, at);
    ReachesEdge(g, u, j);
    ReachesInAppend(g, p, u, x, s.level[i], 1);
    AppendLevelled(g, p, s, x, n, at);
    AppendScanned(g, s, i, x, n, at);
    AppendInOrder(g, p, s, i, j);
    hide InOrder;
    forall k | 0 <= k < j + 1 ensures FoundWithin(t, g[u][k], n) {
      if k < j { FoundStays(s, x, n, at, g[u][k], n); }
      else { assert t.list[|s.list|] == x; }
    }
  }

  /** All dependencies of entry `i` are listed: the scan moves on. */
  lemma NextKeeps<V>(g: Graph<V>, p: V, s: Search<V>, i: nat)
    requires i < |s.list| && s.list[i] in g && Invariant(g, p, s, i, |g[s.list[i]]|)
    ensures Invariant(g, p, s, i + 1, 0)
  {
    hide ReachesIn;
  }

  /** Nothing is listed more than once beyond the direct dependencies, so the list is bounded. */
  lemma ListBound<V>(g: Graph<V>, p: V, s: Search<V>)
    requires WellListed(g, p, s)
    ensures |s.list| <= |g[p]| + |g|
  {
    var n := |g[p]|;
    forall v | v in s.list[n..] ensures v in g.Keys {
      assert v in s.list;
    }
    DistinctLength(s.list[n..], g.Keys);
    assert |g.Keys| == |g|;
  }

  lemma ListFacts<V>(g: Graph<V>, p: V, s: Search<V>, i: nat)
    requires Invariant(g, p, s, i, 0)
    ensures i <= |s.list| <= |g[p]| + |g|
  {
    ListBound(g, p, s);
  }

  // ---------------------------------------------------------------- the finished list

  /** `n` is the length of the shortest non-empty path from `p` to `v`. */
  ghost predicate Distance<V>(g: Graph<V>, p: V, v: V, n: nat) {
    n >= 1 && ReachesIn(g, p, v, n) && forall m :: 1 <= m < n ==> !ReachesIn(g, p, v, m)
  }

  /** The promise of the finished list. */
  ghost predicate BreadthFirst<V>(g: Graph<V>, p: V, list: seq<V>, level: seq<nat>) {
    && p in g && |level| == |list| && |g[p]| <= |list| && list[..|g[p]|] == g[p]
    && (forall v :: v in list ==> v in g)
    && (forall v, n :: v in g && n >= 1 && ReachesIn(g, p, v, n) ==> v in list)
    && (forall k :: 0 <= k < |list| ==> Distance(g, p, list[k], level[k]))
    && (forall j, k :: 0 <= j < k < |list| ==> level[j] <= level[k])
    && (forall j, k :: 0 <= j < k < |list| && |g[p]| <= k ==> list[j] != list[k])
  }

  lemma FoundDirect<V>(g: Graph<V>, p: V, s: Search<V>, k: nat)
    requires WellListed(g, p, s) && Levelled(g, p, s) && k < |g[p]|
    ensures FoundWithin(s, g[p][k], 1)
  {
    hide ReachesIn;
    assert s.list[k] == s.list[..|g[p]|][k];
  }

  /** Once the scan is over, every path leads to an entry found at most that far away. */
  lemma {:induction false} FoundByLength<V>(g: Graph<V>, p: V, s: Search<V>, v: V, n: nat)
    requires Invariant(g, p, s, |s.list|, 0)
    requires n >= 1 && ReachesIn(g, p, v, n)
    ensures FoundWithin(s, v, n)
  {
    hide Levelled;
    var u, k := ReachesLastEdge(g, p, v, n);
    if n == 1 {
      assert u == p;
      FoundDirect(g, p, s, k);
    } else {
      hide ReachesIn, Levelled;
      FoundByLength(g, p, s, u, n - 1);
      var j :| 0 <= j < |s.list| && s.list[j] == u && s.level[j] <= n - 1;
      assert FoundWithin(s, g[s.list[j]][k], s.level[j] + 1);
    }
  }

  /** The level an entry was found at is its distance: nothing shorter leads to it. */
  lemma LevelIsDistance<V>(g: Graph<V>, p: V, s: Search<V>, k: nat)
    requires Invariant(g, p, s, |s.list|, 0) && k < |s.list|
    ensures Distance(g, p, s.list[k], s.level[k])
  {
    hide ReachesIn;
    forall m | 1 <= m < s.level[k] ensures !ReachesIn(g, p, s.list[k], m) {
      if ReachesIn(g, p, s.list[k], m) {
        FoundByLength(g, p, s, s.list[k], m);
      }
    }
  }

  lemma Finish<V>(g: Graph<V>, p: V, s: Search<V>)
    requires Invariant(g, p, s, |s.list|, 0)
    ensures BreadthFirst(g, p, s.list, s.level) && InOrder(g, s.list, |g[p]|, s.found)
  {
    hide ReachesIn, Scanned, InOrder;
    forall v, n | v in g && n >= 1 && ReachesIn(g, p, v, n) ensures v in s.list {
      FoundByLength(g, p, s, v, n);
    }
    forall k | 0 <= k < |s.list| ensures Distance(g, p, s.list[k], s.level[k]) {
      LevelIsDistance(g, p, s, k);
    }
  }

  /** The dependencies of what is listed are listed. */
  lemma ListClosed<V>(g: Graph<V>, p: V, list: seq<V>, level: seq<nat>, at: Place)
    requires Closed(g) && BreadthFirst(g, p, list, level) && In(g, list, at)
    ensures Dep(g, list, at) in list
  {
    hide ReachesIn;
    var u := list[at.entry];
    assert Distance(g, p, u, level[at.entry]);
    ReachesEdge(g, u, at.nth);
    ReachesInAppend(g, p, u, Dep(g, list, at), level[at.entry], 1);
  }

  /** Nothing before the place of an entry names a later one. */
  lemma NotNamedBefore<V>(g: Graph<V>, list: seq<V>, n: nat, found: seq<Place>, k: nat, m: nat, b: Place)
    requires InOrder(g, list, n, found) && n <= k <= m < |list| && In(g, list, b) && b.Before(found[k - n])
    ensures Dep(g, list, b) != list[m]
  {
    assert FirstNames(g, list, found[m - n], list[n + (m - n)]);
    if k < m { assert found[k - n].Before(found[m - n]); }
  }

  /** What is named before the place of entry `k` is listed before entry `k`. */
  lemma NamedBefore<V>(g: Graph<V>, p: V, n: nat, list: seq<V>, level: seq<nat>, found: seq<Place>, k: nat, b: Place)
    requires Closed(g) && BreadthFirst(g, p, list, level) && InOrder(g, list, n, found)
    requires n <= k < |list| == n + |found| && In(g, list, b) && b.Before(found[k - n])
    ensures Dep(g, list, b) in list[..k]
  {
    hide *;
    ListClosed(g, p, list, level, b);
    forall m | k <= m < |list| ensures Dep(g, list, b) != list[m] {
      NotNamedBefore(g, list, n, found, k, m, b);
    }
    assert list == list[..k] + list[k..];
  }

  lemma FoundFacts<V>(g: Graph<V>, list: seq<V>, n: nat, found: seq<Place>, k: nat)
    requires InOrder(g, list, n, found) && n <= k < |list|
    ensures var at := found[k - n]; In(g, list, at) && at.entry < k && Dep(g, list, at) == list[k]
  {
    assert FirstNames(g, list, found[k - n], list[n + (k - n)]);
  }

  /** Two lists that agree so far agree on what a place there names. */
  lemma SamePlace<V>(g: Graph<V>, a: seq<V>, b: seq<V>, k: nat, at: Place)
    requires k <= |a| && k <= |b| && a[..k] == b[..k] && In(g, a, at) && at.entry < k
    ensures In(g, b, at) && Dep(g, b, at) == Dep(g, a, at)
  {
    assert a[..k][at.entry] == a[at.entry] && b[..k][at.entry] == b[at.entry];
  }

  /** Agreeing so far, two such lists agree on the next entry. */
  lemma SameNext<V>(g: Graph<V>, p: V, n: nat, a: seq<V>, la: seq<nat>, fa: seq<Place>,
                    b: seq<V>, lb: seq<nat>, fb: seq<Place>, k: nat)
    requires Closed(g) && p in g && n == |g[p]| && BreadthFirst(g, p, a, la) && InOrder(g, a, n, fa)
    requires BreadthFirst(g, p, b, lb) && InOrder(g, b, n, fb)
    requires n <= k < |a| == n + |fa| && k < |b| == n + |fb| && a[..k] == b[..k]
    ensures !fa[k - n].Before(fb[k - n])
  {
    hide *;
    FoundFacts(g, a, n, fa, k);
    var x := fa[k - n];
    SamePlace(g, a, b, k, x);
    if x.Before(fb[k - n]) {
      NotAgain(g, p, a, la, k);
      NamedBefore(g, p, n, b, lb, fb, k, x);
    }
  }

  lemma NotAgain<V>(g: Graph<V>, p: V, list: seq<V>, level: seq<nat>, k: nat)
    requires BreadthFirst(g, p, list, level) && |g[p]| <= k < |list|
    ensures list[k] !in list[..k]
  {
    hide ReachesIn, Distance;
  }

  lemma NeitherBefore(x: Place, y: Place)
    requires !x.Before(y) && !y.Before(x)
    ensures x == y
  {
  }

  /** The order determines the list. */
  lemma {:induction false} SameTo<V>(g: Graph<V>, p: V, n: nat, a: seq<V>, la: seq<nat>, fa: seq<Place>,
                                     b: seq<V>, lb: seq<nat>, fb: seq<Place>, k: nat)
    requires Closed(g) && p in g && n == |g[p]| && BreadthFirst(g, p, a, la) && InOrder(g, a, n, fa)
    requires BreadthFirst(g, p, b, lb) && InOrder(g, b, n, fb)
    requires n <= k <= |a| == n + |fa| && k <= |b| == n + |fb| && a[..n] == b[..n]
    ensures a[..k] == b[..k]
    decreases k
  {
    hide *;
    if k == n {
    } else {
      var l := k - 1;
      SameTo(g, p, n, a, la, fa, b, lb, fb, l);
      SameNext(g, p, n, a, la, fa, b, lb, fb, l);
      SameNext(g, p, n, b, lb, fb, a, la, fa, l);
      NeitherBefore(fa[l - n], fb[l - n]);
      FoundFacts(g, a, n, fa, l);
      FoundFacts(g, b, n, fb, l);
      SamePlace(g, a, b, l, fa[l - n]);
      assert a[..k] == a[..l] + [a[l]] && b[..k] == b[..l] + [b[l]];
    }
  }

  lemma NoLonger<V>(g: Graph<V>, p: V, a: seq<V>, la: seq<nat>, b: seq<V>, lb: seq<nat>)
    requires BreadthFirst(g, p, a, la) && BreadthFirst(g, p, b, lb) && |a| <= |b| && a == b[..|a|]
    ensures |a| == |b|
  {
    if |a| < |b| {
      ListedInBoth(g, p, a, la, b, lb, |a|);
      NotAgain(g, p, b, lb, |a|);
    }
  }

  lemma ListedInBoth<V>(g: Graph<V>, p: V, a: seq<V>, la: seq<nat>, b: seq<V>, lb: seq<nat>, k: nat)
    requires BreadthFirst(g, p, a, la) && BreadthFirst(g, p, b, lb) && k < |b|
    ensures b[k] in a
  {
    hide ReachesIn;
    assert Distance(g, p, b[k], lb[k]);
  }

  lemma OneList<V>(g: Graph<V>, p: V, a: seq<V>, la: seq<nat>, fa: seq<Place>, b: seq<V>, lb: seq<nat>, fb: seq<Place>)
    requires Closed(g) && BreadthFirst(g, p, a, la) && InOrder(g, a, |g[p]|, fa)
    requires BreadthFirst(g, p, b, lb) && InOrder(g, b, |g[p]|, fb)
    ensures a == b
  {
    StartsDirect(g, p, a, la, fa);
    StartsDirect(g, p, b, lb, fb);
    hide *;
    var k := if |a| <= |b| then |a| else |b|;
    SameTo(g, p, |g[p]|, a, la, fa, b, lb, fb, k);
    assert a[..|a|] == a && b[..|b|] == b;
    if |a| <= |b| {
      NoLonger(g, p, a, la, b, lb);
    } else {
      NoLonger(g, p, b, lb, a, la);
    }
  }

  lemma StartsDirect<V>(g: Graph<V>, p: V, list: seq<V>, level: seq<nat>, found: seq<Place>)
    requires BreadthFirst(g, p, list, level) && InOrder(g, list, |g[p]|, found)
    ensures p in g && |g[p]| <= |list| == |g[p]| + |found| && list[..|g[p]|] == g[p]
  {
  }

  // ---------------------------------------------------------------- on the loaded objects

  /** The object's own list and everyone's marks agree with the search. */
  ghost predicate Tracks(g: Graph<Dso>, p: Dso, s: Search<Dso>)
    reads g.Keys`deps, g.Keys`ndepsDirect, g.Keys`mark
  {
    && Loaded(g) && p in g && p.deps == s.list
    && forall d :: d in g ==> (d.mark <==> d in s.list)
  }

  /** Marks the direct dependencies so they will not be listed again. */
  method MarkDirect(p: Dso, ghost g: Graph<Dso>)
    requires Loaded(g) && p in g && p.deps == g[p] && forall d :: d in g ==> !d.mark
    modifies g.Keys`mark
    ensures Tracks(g, p, Search(g[p], seq(|g[p]|, _ => 1), []))
  {
    var i := 0;
    while i < |p.deps|
      invariant 0 <= i <= |p.deps|
      invariant forall d :: d in g ==> (d.mark <==> d in p.deps[..i])
    {
      assert p.deps[i] in g && p.deps[..i + 1] == p.deps[..i] + [p.deps[i]];
      p.deps[i].mark := true;
      i := i + 1;
    }
    assert p.deps[..i] == p.deps;
  }

  /** How many entries of `deps` are not in `list`. */
  function Missing<V(==)>(list: seq<V>, deps: seq<V>): nat {
    if deps == [] then 0
    else (if deps[0] in list then 0 else 1) + Missing(list, deps[1..])
  }

  lemma {:induction false} MissingShrinks<V>(list: seq<V>, x: V, deps: seq<V>)
    ensures Missing(list + [x], deps) <= Missing(list, deps)
  {
    if deps == [] {
    } else {
      MissingShrinks(list, x, deps[1..]);
    }
  }

  /** Counts the dependencies of `dep` that are not yet marked, to size the enlarged list. */
  method CountNew(dep: Dso, ghost p: Dso, ghost g: Graph<Dso>, ghost s: Search<Dso>) returns (cnt: nat)
    requires Tracks(g, p, s) && dep in g
    ensures cnt == Missing(s.list, g[dep])
  {
    var j := 0;
    cnt := 0;
    while j < dep.ndepsDirect
      invariant 0 <= j <= dep.ndepsDirect
      invariant cnt + Missing(s.list, g[dep][j..]) == Missing(s.list, g[dep])
    {
      assert dep.deps[j] == g[dep][j] && g[dep][j..][1..] == g[dep][j + 1..];
      if !dep.deps[j].mark {
        cnt := cnt + 1;
      }
      j := j + 1;
    }
  }

  /** Lists one new object. */
  method ListNew(p: Dso, x: Dso, ghost n: nat, ghost at: Place, ghost g: Graph<Dso>, ghost s: Search<Dso>)
    requires Tracks(g, p, s) && x in g && |g[p]| <= |s.list| && p.ndepsDirect == |g[p]|
    modifies p`deps, x`mark
    ensures Tracks(g, p, Append(s, x, n, at))
  {
    x.mark := true;
    p.deps := p.deps + [x];
    assert p.deps[..p.ndepsDirect] == g[p];
  }

  /** Deals with dependency `j` of entry `i`, listing it if it is new. */
  method ScanDep(p: Dso, dep: Dso, ghost i: nat, j: nat, ghost g: Graph<Dso>, ghost s0: Search<Dso>)
    returns (ghost s: Search<Dso>)
    requires Tracks(g, p, s0) && Invariant(g, p, s0, i, j)
    requires i < |s0.list| && dep == s0.list[i] && dep in g && j < |g[dep]|
    modifies p`deps, g.Keys`mark
    ensures Tracks(g, p, s) && Invariant(g, p, s, i, j + 1) && i < |s.list| && dep == s.list[i]
    ensures |s.list| + Missing(s.list, g[dep][j + 1..]) <= |s0.list| + Missing(s0.list, g[dep][j..])
  {
    EntryFacts(p, i, j, g, s0);
    ScanStep(s0.list, g[dep], j);
    hide Invariant, Missing;
    var x := dep.deps[j];
    assert x == g[dep][j];
    if x.mark {
      SkipKeeps(g, p, s0, i, j);
      s := s0;
    } else {
      AppendKeeps(g, p, s0, i, j);
      ListNew(p, x, s0.level[i] + 1, Place(i, j), g, s0);
      s := Append(s0, x, s0.level[i] + 1, Place(i, j));
    }
  }

  /** Scans entry `i`: its unlisted dependencies are appended, within the room made for them. */
  method ScanEntry(p: Dso, i: nat, ghost g: Graph<Dso>, ghost s0: Search<Dso>)
    returns (ghost s: Search<Dso>)
    requires Tracks(g, p, s0) && Invariant(g, p, s0, i, 0) && i < |p.deps|
    modifies p`deps, g.Keys`mark
    ensures Tracks(g, p, s) && Invariant(g, p, s, i + 1, 0)
  {
    hide Invariant, Missing, Loaded;
    s := s0;
    var dep := p.deps[i];
    EntryFacts(p, i, 0, g, s);
    var cnt := CountNew(dep, p, g, s);
    var room := |p.deps| + cnt + 1;
    var j := 0;
    assert g[dep][j..] == g[dep];
    while j < dep.ndepsDirect
      invariant Tracks(g, p, s) && i < |s.list| && s.list[i] == dep && dep in g
      invariant 0 <= j <= |g[dep]| == dep.ndepsDirect && Invariant(g, p, s, i, j)
      // the list and its terminator fit the reallocated array
      invariant |p.deps| + Missing(s.list, g[dep][j..]) + 1 <= room
    {
      s := ScanDep(p, dep, i, j, g, s);
      j := j + 1;
    }
    NextKeeps(g, p, s, i);
  }

  lemma EntryFacts(p: Dso, i: nat, j: nat, g: Graph<Dso>, s: Search<Dso>)
    requires Tracks(g, p, s) && Invariant(g, p, s, i, j) && i < |s.list|
    ensures s.list[i] in g && |s.level| == |s.list| && |g[s.list[i]]| == s.list[i].ndepsDirect
    ensures |g[p]| == p.ndepsDirect <= |s.list|
  {
  }

  lemma ScanStep<V>(list: seq<V>, deps: seq<V>, j: nat)
    requires j < |deps|
    ensures Missing(list, deps[j + 1..]) <= Missing(list, deps[j..])
    ensures deps[j] !in list ==> Missing(list + [deps[j]], deps[j + 1..]) < Missing(list, deps[j..])
  {
    assert deps[j..][1..] == deps[j + 1..];
    MissingShrinks(list, deps[j], deps[j + 1..]);
  }

  /** Extends `p`'s list to all its indirect dependencies, unless that was done before. */
  method ExtendBfsDeps(p: Dso, head: Dso, ghost all: seq<Dso>, ghost g: Graph<Dso>)
    returns (ghost level: seq<nat>, ghost found: seq<Place>)
    requires Chain(head, all) && Loaded(g) && g.Keys == (set d | d in all) && p in g
    requires !p.bfsBuilt ==> p.ndepsDirect == |p.deps| && forall d :: d in g ==> !d.mark
    modifies p`deps, p`bfsBuilt, g.Keys`mark
    ensures Loaded(g) && p.bfsBuilt
    ensures old(p.bfsBuilt) ==> p.deps == old(p.deps) && unchanged(g.Keys`mark)
    ensures !old(p.bfsBuilt) ==> BreadthFirst(g, p, p.deps, level) && InOrder(g, p.deps, |g[p]|, found)
    ensures !old(p.bfsBuilt) ==> forall d :: d in g ==> !d.mark
  {
    hide BreadthFirst, InOrder, Loaded;
    level, found := [], [];
    if p.bfsBuilt {
      return;
    }
    assert p.deps == g[p] by { DirectOnly(p, g); }
    MarkDirect(p, g);
    level, found := ScanAll(p, g);
    p.bfsBuilt := true;
    var cnt := ClearChain(head, all);
  }

  lemma DirectOnly(p: Dso, g: Graph<Dso>)
    requires Loaded(g) && p in g && p.ndepsDirect == |p.deps|
    ensures p.deps == g[p]
  {
  }

  lemma StartTracking(g: Graph<Dso>, p: Dso)
    requires Loaded(g) && p in g
    ensures Invariant(g, p, Search(g[p], seq(|g[p]|, _ => 1), []), 0, 0)
  {
    Start(g, p);
  }

  /** Scans the list from its start until it stops growing. */
  method ScanAll(p: Dso, ghost g: Graph<Dso>) returns (ghost level: seq<nat>, ghost found: seq<Place>)
    requires p in g && Tracks(g, p, Search(g[p], seq(|g[p]|, _ => 1), []))
    modifies p`deps, g.Keys`mark
    ensures Loaded(g) && BreadthFirst(g, p, p.deps, level) && InOrder(g, p.deps, |g[p]|, found)
  {
    hide Levelled, Scanned, BreadthFirst, Loaded, Invariant, InOrder;
    StartTracking(g, p);
    ghost var s := Search(g[p], seq(|g[p]|, _ => 1), []);
    var i := 0;
    while i < |p.deps|
      invariant 0 <= i <= |p.deps| && Tracks(g, p, s) && Invariant(g, p, s, i, 0)
      decreases |g[p]| + |g| - i
    {
      ListFacts(g, p, s, i);
      s := ScanEntry(p, i, g, s);
      ListFacts(g, p, s, i + 1);
      i := i + 1;
    }
    Finish(g, p, s);
    level, found := s.level, s.found;
  }
}
