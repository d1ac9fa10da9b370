/** Opening an object lazily: room for deferred relocations is prepared for it and for its
    dependencies, each of which joins the list of such objects, and then its tables are processed.

    Joining is not guarded.  An object that joins twice closes the list into a cycle; `OpenLazily`
    says for which dependency graphs that happens.
 */
module LazyOpen {
  import opened Common
  import opened Dsos
  import opened Graph
  import opened LazyRelocs
  import BfsDeps
  import LazyRedo

  // ------------------------------------------------------------------- joining the list

  /** An object that is on the list already comes round to itself. */
  lemma RejoinList(p: Dso, head: Dso?, list: seq<Dso>, k: nat)
    requires k < |list| && list[k] == p && head == list[0] == p.lazyNext && Distinct(list)
    requires forall i :: 0 <= i < k ==> list[i].lazyNext == list[i + 1]
    ensures Lasso(p, [p] + list[..k])
  {
    var walk := [p] + list[..k];
    forall i | 0 <= i < |walk| - 1 ensures walk[i].lazyNext == walk[i + 1] {
      if i > 0 { assert walk[i] == list[i - 1]; }
    }
    if k > 0 { assert walk[k] == list[k - 1]; }
    assert walk[|walk| - 1].lazyNext == walk[0];
  }

  /** One that joins later leads into the cycle. */
  lemma JoinLasso(p: Dso, head: Dso?, walk: seq<Dso>)
    requires Lasso(head, walk) && p !in walk && p.lazyNext == head
    ensures Lasso(p, [p] + walk)
  {
    var all := [p] + walk;
    forall i | 0 <= i < |all| - 1 ensures all[i].lazyNext == all[i + 1] {
      if i > 0 { assert all[i] == walk[i - 1]; }
    }
    var k :| 0 <= k < |walk| && walk[|walk| - 1].lazyNext == walk[k];
    assert all[|all| - 1].lazyNext == all[k + 1];
  }

  /** The room made for an object, in entries, from the byte sizes of its tables. */
  function Room(p: Dso): nat
    reads p`pltSize, p`relSize, p`relaSize
  {
    p.relSize / 2 + p.relaSize / 3 + p.pltSize / 2 + 1
  }

  /** The state of the list: `list`, or a lasso along `walk`. */
  ghost predicate Joined(head: Dso?, broken: bool, list: seq<Dso>)
    reads list`lazyNext
  {
    if broken then Lasso(head, list) else LazyList(head, list)
  }

  /** Make room for an object's deferred relocations, unless it asks for its symbols now, and put it in
      front of the list at `head`. */
  method PrepareLazy(p: Dso, head: Dso?) returns (head': Dso?)
    modifies p`lazy, p`lazyNext
    ensures p.bindNow ==> head' == head && p.lazyNext == old(p.lazyNext) && p.lazy == old(p.lazy)
    ensures !p.bindNow ==>
      head' == p && p.lazyNext == head && p.lazy != null && fresh(p.lazy) && p.lazy.Length == 3 * Room(p)
  {
    if p.bindNow {
      return head;
    }
    p.lazy := new nat[3 * Room(p)](_ => 0);
    p.lazyNext := head;
    head' := p;
  }

  /** What that does to the list: it stays one exactly when the object was not on it. */
  method PrepareNext(p: Dso, head: Dso?, ghost broken: bool, ghost list: seq<Dso>)
    returns (head': Dso?, ghost list': seq<Dso>)
    requires Joined(head, broken, list)
    modifies p`lazy, p`lazyNext
    ensures p.bindNow ==> list' == list && Joined(head', broken, list)
    ensures !p.bindNow ==>
      Joined(head', broken || p in list, list') && list' == [p] + if p in list then list[..FirstIndex(list, p)] else list
  {
    head' := PrepareLazy(p, head);
    list' := list;
    if !p.bindNow {
      if p in list {
        ghost var k := FirstIndex(list, p);
        RejoinList(p, head, list, k);
        list' := [p] + list[..k];
      } else {
        if broken { JoinLasso(p, head, list); } else { InFront(p, head, list); }
        list' := [p] + list;
      }
    }
  }

  ghost function FirstIndex(s: seq<Dso>, p: Dso): (k: nat)
    requires p in s
    ensures k < |s| && s[k] == p && p !in s[..k]
  {
    if s[0] == p then 0 else 1 + FirstIndex(s[1..], p)
  }

  // ------------------------------------------------------------------- an object and its dependencies

  predicate Wanted(d: Dso)
    reads d`relocated, d`bindNow
  {
    !d.relocated && !d.bindNow
  }

  /** The objects of `ds` that are given room, in that order. */
  ghost function Prepared(ds: seq<Dso>): seq<Dso>
    reads ds`relocated, ds`bindNow
  {
    if ds == [] then [] else
      var d := ds[|ds| - 1];
      Prepared(ds[..|ds| - 1]) + if Wanted(d) then [d] else []
  }

  /** The last to join comes first. */
  function Stacked(ds: seq<Dso>): seq<Dso> {
    if ds == [] then [] else [ds[|ds| - 1]] + Stacked(ds[..|ds| - 1])
  }

  lemma {:induction false} StackedMembers(ds: seq<Dso>, d: Dso)
    ensures d in Stacked(ds) <==> d in ds
  {
    if ds == [] {
    } else {
      StackedMembers(ds[..|ds| - 1], d);
      assert ds == ds[..|ds| - 1] + [ds[|ds| - 1]];
    }
  }

  lemma StackedNext(ds: seq<Dso>, d: Dso)
    ensures Stacked(ds + [d]) == [d] + Stacked(ds)
  {
    assert (ds + [d])[..|ds|] == ds;
  }

  lemma PreparedNext(ds: seq<Dso>, i: nat)
    requires i < |ds|
    ensures Prepared(ds[..i + 1]) == Prepared(ds[..i]) + if Wanted(ds[i]) then [ds[i]] else []
  {
    assert ds[..i + 1][..i] == ds[..i];
  }

  lemma {:induction false} PreparedFrom(ds: seq<Dso>, d: Dso)
    ensures d in Prepared(ds) <==> d in ds && Wanted(d)
  {
    if ds == [] {
    } else {
      PreparedFrom(ds[..|ds| - 1], d);
      assert ds == ds[..|ds| - 1] + [ds[|ds| - 1]];
    }
  }

  /** How far the loop has come: all of `done` have joined what was `list0`.  Once one has joined again,
      none of `list0` is reached any more. */
  ghost predicate JoinedAll(head: Dso?, done: seq<Dso>, broken: bool, list0: seq<Dso>, list: seq<Dso>)
    reads list`lazyNext
  {
    && Joined(head, broken || !Distinct(done), list)
    && if Distinct(done) then list == Stacked(done) + list0 else Apart(list0, list)
  }

  ghost predicate Apart(a: seq<Dso>, b: seq<Dso>) {
    forall d :: d in b ==> d !in a
  }

  lemma JoinedDistinct(head: Dso?, broken: bool, list: seq<Dso>)
    requires Joined(head, broken, list)
    ensures Distinct(list)
  {
  }

  /** What is in front of a member of `front` leaves the rest behind. */
  lemma CutOff(front: seq<Dso>, list0: seq<Dso>, d: Dso)
    requires Distinct(front + list0) && d in front && d !in list0
    ensures Apart(list0, [d] + (front + list0)[..FirstIndex(front + list0, d)])
  {
    var list := front + list0;
    var k, i := FirstIndex(list, d), FirstIndex(front, d);
    assert list[i] == front[i] == d;
    forall x | 0 <= x < k ensures list[x] !in list0 {
      forall j | 0 <= j < |list0| ensures list[x] != list0[j] {
        assert list[|front| + j] == list0[j];
      }
    }
  }

  method PrepareWanted(d: Dso, head: Dso?, ghost done: seq<Dso>, ghost broken: bool, ghost list0: seq<Dso>, ghost list: seq<Dso>)
    returns (head': Dso?, ghost list': seq<Dso>)
    requires JoinedAll(head, done, broken, list0, list) && d !in list0
    modifies d`lazy, d`lazyNext
    ensures JoinedAll(head', if d.bindNow then done else done + [d], broken, list0, list')
  {
    hide Distinct, Stacked, Joined, Room;
    StackedMembers(done, d);
    StackedNext(done, d);
    DistinctAppend(done, d);
    JoinedDistinct(head, broken || !Distinct(done), list);
    if Distinct(done) && d in done { CutOff(Stacked(done), list0, d); }
    head', list' := PrepareNext(d, head, broken || !Distinct(done), list);
    assert [d] + Stacked(done) + list0 == [d] + (Stacked(done) + list0);
  }

  /** The first steps of a lazy opening, after the object's dependencies were listed.  The list may have
      been broken by an earlier one. */
  method PrepareOpened(p: Dso, head: Dso?, ghost broken: bool, ghost list0: seq<Dso>) returns (head': Dso?, ghost list: seq<Dso>)
    requires !p.relocated && Joined(head, broken, list0) && forall d :: d in list0 ==> d.relocated
    modifies p`lazy, p`lazyNext, p.deps`lazy, p.deps`lazyNext
    ensures var qs := Prepared([p] + p.deps);
      if Distinct(qs) then Joined(head', broken, list) && list == Stacked(qs) + list0
      else Lasso(head', list) && Apart(list0, list)
  {
    hide JoinedAll, Prepared, Distinct, Joined, Lasso, Apart;
    ghost var all := [p] + p.deps;
    ghost var done := Prepared(all[..0]);
    list := list0;
    NoneJoined(head, broken, list0, all);
    PreparedNext(all, 0);
    assert done + [] == done;
    head', list := PrepareWanted(p, head, done, broken, list0, list);
    done := Prepared(all[..1]);
    for i := 0 to |p.deps|
      invariant done == Prepared(all[..i + 1]) && JoinedAll(head', done, broken, list0, list)
    {
      PreparedNext(all, i + 1);
      assert all[i + 1] == p.deps[i] && done + [] == done;
      if !p.deps[i].relocated {
        head', list := PrepareWanted(p.deps[i], head', done, broken, list0, list);
      }
      done := Prepared(all[..i + 2]);
    }
    assert all[..|p.deps| + 1] == all;
    AllJoined(head', done, broken, list0, list);
  }

  lemma NoneJoined(head: Dso?, broken: bool, list0: seq<Dso>, all: seq<Dso>)
    requires Joined(head, broken, list0)
    ensures JoinedAll(head, Prepared(all[..0]), broken, list0, list0)
  {
    assert all[..0] == [] && Stacked([]) + list0 == list0;
  }

  lemma AllJoined(head: Dso?, done: seq<Dso>, broken: bool, list0: seq<Dso>, list: seq<Dso>)
    requires JoinedAll(head, done, broken, list0, list)
    ensures if Distinct(done) then Joined(head, broken, list) && list == Stacked(done) + list0
            else Lasso(head, list) && Apart(list0, list)
  {
  }

  // ------------------------------------------------------------------- which graphs break the list

  ghost predicate NoRepeats(ds: seq<Dso>)
    reads ds`relocated, ds`bindNow
  {
    forall i, j :: 0 <= i < j < |ds| && Wanted(ds[i]) ==> ds[i] != ds[j]
  }

  lemma {:induction false} PreparedDistinct(ds: seq<Dso>)
    ensures Distinct(Prepared(ds)) <==> NoRepeats(ds)
  {
    if ds == [] {
    } else {
      var n := |ds| - 1;
      var front, d := ds[..n], ds[n];
      PreparedDistinct(front);
      PreparedFrom(front, d);
      var before := Prepared(front);
      assert Distinct(before + [d]) <==> Distinct(before) && d !in before by { DistinctAppend(before, d); }
      assert before + [] == before;
      NoRepeatsAppend(front, d);
      assert ds == front + [d];
    }
  }

  lemma DistinctAppend<V>(s: seq<V>, d: V)
    ensures Distinct(s + [d]) <==> Distinct(s) && d !in s
  {
    assert forall i :: 0 <= i < |s| ==> (s + [d])[i] == s[i];
    assert (s + [d])[|s|] == d;
  }

  lemma NoRepeatsAppend(ds: seq<Dso>, d: Dso)
    ensures NoRepeats(ds + [d]) <==> NoRepeats(ds) && (Wanted(d) ==> d !in ds)
  {
    var all := ds + [d];
    assert forall i :: 0 <= i < |ds| ==> all[i] == ds[i];
    assert all[|ds|] == d;
  }

  /** `p` is not among its own dependencies, and no dependency to be prepared is named twice by it. */
  ghost predicate PreparedOnce(g: Graph<Dso>, p: Dso)
    requires p in g
    reads p`bindNow, g[p]`relocated, g[p]`bindNow
  {
    (p.bindNow || forall n :: n >= 1 ==> !ReachesIn(g, p, p, n)) && NoRepeats(g[p])
  }

  /** In a list extended breadth first, only what the object itself names can be repeated. */
  lemma OnlyDirectRepeat(g: Graph<Dso>, p: Dso, deps: seq<Dso>, level: seq<nat>)
    requires BfsDeps.BreadthFirst(g, p, deps, level) && !p.relocated
    ensures NoRepeats([p] + deps) <==> PreparedOnce(g, p)
  {
    SelfListed(g, p, deps, level);
    NoRepeatsCons(p, deps);
    NoRepeatsDirect(deps, |g[p]|);
    hide ReachesIn, NoRepeats;
  }

  lemma NoRepeatsCons(p: Dso, ds: seq<Dso>)
    ensures NoRepeats([p] + ds) <==> NoRepeats(ds) && (Wanted(p) ==> p !in ds)
  {
    var all := [p] + ds;
    forall i | 0 <= i < |ds| ensures all[i + 1] == ds[i] {
    }
    if NoRepeats(all) {
      forall i, j | 0 <= i < j < |ds| && Wanted(ds[i]) ensures ds[i] != ds[j] {
        assert all[i + 1] == ds[i] && all[j + 1] == ds[j];
      }
      assert all[0] == p;
    }
  }

  lemma NoRepeatsDirect(ds: seq<Dso>, n: nat)
    requires n <= |ds| && forall j, k :: 0 <= j < k < |ds| && n <= k ==> ds[j] != ds[k]
    ensures NoRepeats(ds) <==> NoRepeats(ds[..n])
  {
    assert forall i :: 0 <= i < n ==> ds[..n][i] == ds[i];
  }

  lemma SelfListed(g: Graph<Dso>, p: Dso, deps: seq<Dso>, level: seq<nat>)
    requires BfsDeps.BreadthFirst(g, p, deps, level)
    ensures p in deps <==> exists n :: n >= 1 && ReachesIn(g, p, p, n)
  {
    hide ReachesIn;
    if p in deps {
      var k :| 0 <= k < |deps| && deps[k] == p;
      assert BfsDeps.Distance(g, p, deps[k], level[k]);
      assert level[k] >= 1 && ReachesIn(g, p, p, level[k]);
    }
  }

  lemma DepsLoaded(g: Graph<Dso>, p: Dso, deps: seq<Dso>, level: seq<nat>)
    requires BfsDeps.BreadthFirst(g, p, deps, level)
    ensures forall i :: 0 <= i < |deps| ==> deps[i] in g
  {
  }

  /** A lazy opening: list the dependencies, then prepare the object and them.  All on the list before stay
      on it, and it stays a list if it was one, exactly if no object is prepared twice; otherwise they are
      all lost from it. */
  method OpenLazily(p: Dso, lazyHead: Dso?, head: Dso, ghost all: seq<Dso>, ghost g: Graph<Dso>,
                    ghost broken: bool, ghost list0: seq<Dso>)
    returns (lazyHead': Dso?, ghost list: seq<Dso>)
    requires Chain(head, all) && Loaded(g) && g.Keys == (set d | d in all) && p in g
    requires !p.bfsBuilt && p.ndepsDirect == |p.deps| && forall d :: d in g ==> !d.mark
    requires !p.relocated && Joined(lazyHead, broken, list0) && forall d :: d in list0 ==> d.relocated
    modifies p`deps, p`bfsBuilt, g.Keys`mark, g.Keys`lazy, g.Keys`lazyNext
    ensures PreparedOnce(g, p) ==> Joined(lazyHead', broken, list) && list == Stacked(Prepared([p] + p.deps)) + list0
    ensures !PreparedOnce(g, p) ==> Lasso(lazyHead', list) && Apart(list0, list)
  {
    hide *;
    ghost var level, found := BfsDeps.ExtendBfsDeps(p, head, all, g);
    DepsLoaded(g, p, p.deps, level);
    OnlyDirectRepeat(g, p, p.deps, level);
    PreparedDistinct([p] + p.deps);
    lazyHead', list := PrepareOpened(p, lazyHead, broken, list0);
  }

  /** Retrying after such an opening: the objects lost, and what they have deferred, are left alone. */
  method RetryOpened(lazyHead: Dso?, symbols: Dso -> Symbols, slots: map<nat, nat>, ghost list: seq<Dso>,
                     ghost arrays: seq<array<nat>>, ghost es: seq<seq<Entry>>, ghost lost: seq<Dso>)
    returns (head: Dso?, patched: map<nat, nat>)
    requires Lasso(lazyHead, list) && Apart(lost, list)
    requires LazyRedo.Objects(list, |list|, arrays, es) && LazyRedo.Holding(list, arrays, es, 0)
    requires forall d :: d in lost && d.lazy != null ==> d.lazy !in arrays
    modifies list`lazyCnt, list`lazy, list`lazyNext, arrays
    ensures forall d :: d in lost ==> d.lazy == old(d.lazy) && d.lazyCnt == old(d.lazyCnt) && d.lazyNext == old(d.lazyNext)
    ensures forall d :: d in lost && d.lazy != null ==> d.lazy[..] == old(d.lazy[..])
    ensures patched == LazyRedo.PatchedAll(slots, list, es, symbols)
  {
    hide Lasso, LazyRedo.Leads, LazyRedo.Holding, LazyRedo.PatchedAll, LazyRedo.Done, LazyRedo.Relinked, LazyRedo.Keep;
    hide LazyRedo.Turned, LazyList;
    ghost var k := LazyRedo.EitherLeads(lazyHead, list);
    ghost var m;
    assert LazyRedo.Objects(list, k, arrays, es);
    head, patched, m := LazyRedo.RedoLazyRelocs(lazyHead, symbols, slots, list, k, arrays, es);
  }

  // ------------------------------------------------------------------- two graphs that do

  /** Two objects just loaded, one naming the others it needs. */
  method LoadTwo() returns (a: Dso, b: Dso)
    ensures fresh(a) && fresh(b) && a != b
    ensures a.next == b && b.next == null && !a.bfsBuilt && !a.mark && !b.mark
    ensures Wanted(a) && Wanted(b)
  {
    a := new Dso();
    b := new Dso();
    a.next, b.prev := b, a;
    a.bindNow, b.bindNow, a.bfsBuilt, a.mark, b.mark := false, false, false, false, false;
  }

  method OpenTwo(a: Dso, b: Dso, ghost g: Graph<Dso>) returns (lazyHead: Dso?)
    requires a != b && a.next == b && b.next == null && !a.bfsBuilt && !a.mark && !b.mark && Wanted(a)
    requires Loaded(g) && g.Keys == {a, b} && a.ndepsDirect == |a.deps|
    modifies a, b
    ensures !old(PreparedOnce(g, a)) ==> forall s :: !LazyList(lazyHead, s)
  {
    assert Chain(a, [a, b]) && LazyList(null, []);
    hide LazyList, Loaded, Chain, PreparedOnce, Prepared;
    ghost var list;
    lazyHead, list := OpenLazily(a, null, a, [a, b], g, false, []);
    if !old(PreparedOnce(g, a)) {
      forall s ensures !LazyList(lazyHead, s) { LassoIsNoList(lazyHead, list, s); }
    }
  }

  /** Two objects that need each other. */
  method CycleBreaksList() returns (lazyHead: Dso?)
    ensures forall s :: !LazyList(lazyHead, s)
  {
    var a, b := LoadTwo();
    a.deps, b.deps, a.ndepsDirect, b.ndepsDirect := [b], [a], 1, 1;
    ghost var g: Graph<Dso> := map[a := [b], b := [a]];
    SelfReached(g, a, b);
    assert Loaded(g) && !PreparedOnce(g, a);
    hide LazyList, Loaded, PreparedOnce;
    lazyHead := OpenTwo(a, b, g);
  }

  lemma SelfReached(g: Graph<Dso>, a: Dso, b: Dso)
    requires a in g && b in g && g[a] == [b] && g[b] == [a]
    ensures ReachesIn(g, a, a, 2)
  {
    ReachesEdge(g, a, 0);
    ReachesEdge(g, b, 0);
    ReachesInAppend(g, a, b, a, 1, 1);
  }

  /** An object that names another twice. */
  method RepeatBreaksList() returns (lazyHead: Dso?)
    ensures forall s :: !LazyList(lazyHead, s)
  {
    var a, b := LoadTwo();
    a.deps, b.deps, a.ndepsDirect, b.ndepsDirect := [b, b], [], 2, 0;
    ghost var g: Graph<Dso> := map[a := [b, b], b := []];
    assert g[a][0] == g[a][1] && Wanted(g[a][0]);
    assert Loaded(g) && !PreparedOnce(g, a);
    hide LazyList, Loaded, PreparedOnce;
    lazyHead := OpenTwo(a, b, g);
  }

  // ------------------------------------------------------------------- its tables

  lemma {:induction false} LeftoverAppend(a: seq<Entry>, b: seq<Entry>, symbols: Symbols)
    ensures Leftover(a + b, symbols) == Leftover(a, symbols) + Leftover(b, symbols)
    decreases b
  {
    if b == [] {
      assert a + b == a;
    } else {
      var n := |b| - 1;
      LeftoverAppend(a, b[..n], symbols);
      assert (a + b)[..|a| + n] == a + b[..n];
    }
  }

  lemma {:induction false} PatchedAppend(slots: map<nat, nat>, base: nat, a: seq<Entry>, b: seq<Entry>, symbols: Symbols)
    ensures Patched(slots, base, a + b, symbols) == Patched(Patched(slots, base, a, symbols), base, b, symbols)
    decreases b
  {
    if b == [] {
      assert a + b == a;
    } else {
      var n := |b| - 1;
      PatchedAppend(slots, base, a, b[..n], symbols);
      assert (a + b)[..|a| + n] == a + b[..n];
    }
  }

  lemma AllPossibleAppend(a: seq<Entry>, b: seq<Entry>, symbols: Symbols, lazy: bool)
    ensures AllPossible(a + b, symbols, lazy) <==> AllPossible(a, symbols, lazy) && AllPossible(b, symbols, lazy)
  {
    var s := a + b;
    assert forall i :: 0 <= i < |a| ==> s[i] == a[i];
    forall i | 0 <= i < |b| ensures s[|a| + i] == b[i] {
    }
    if AllPossible(s, symbols, lazy) {
      forall i | 0 <= i < |b| ensures Possible(b[i], symbols, lazy) {
        assert s[|a| + i] == b[i];
      }
    }
  }

  /** A relocation table: its words, how many entries they hold, and whether those are pairs. */
  datatype RelTable = RelTable(words: array<nat>, n: nat, pairs: bool) {
    ghost predicate Valid()
      reads words
    {
      Size(pairs, n) <= words.Length
    }

    ghost function Entries(): seq<Entry>
      requires Valid()
      reads words
    {
      Table(words[..], n, pairs)
    }

    function Bytes(): nat {
      8 * Size(pairs, n)
    }
  }

  /** The room made for an object holds every entry of its three tables. */
  lemma RoomSuffices(p: Dso, plt: RelTable, rel: RelTable, rela: RelTable)
    requires plt.Bytes() == p.pltSize && rel.Bytes() == p.relSize && rela.Bytes() == p.relaSize
    requires rel.pairs && !rela.pairs
    ensures plt.n + rel.n + rela.n < Room(p)
  {
    assert p.pltSize / 2 >= plt.n && p.relSize / 2 >= rel.n && p.relaSize / 3 >= rela.n;
  }

  /** How far an object's tables have been processed: `es` so far. */
  ghost predicate Relocated(p: Dso, es: seq<Entry>, symbols: Symbols, slots: map<nat, nat>, patched: map<nat, nat>)
    reads p`lazy, p`lazyCnt, p`base, p.lazy
  {
    && patched == Patched(slots, p.base, es, symbols)
    && (p.lazy != null ==> LazyRelocs.Fits(p) && Deferred(p) == Leftover(es, symbols))
  }

  method NextTable(p: Dso, t: RelTable, symbols: Symbols, slots: map<nat, nat>, patched: map<nat, nat>, runtime: bool,
                   ghost es: seq<Entry>, ghost room: nat)
    returns (ok: bool, patched': map<nat, nat>)
    requires Relocated(p, es, symbols, slots, patched) && t.Valid() && t.words != p.lazy
    requires p.lazy != null ==> p.lazy.Length == 3 * room && |es| + t.n <= room
    modifies p`lazyCnt, p.lazy
    ensures ok <==> AllPossible(t.Entries(), symbols, p.lazy != null)
    ensures ok || !runtime ==> Relocated(p, es + t.Entries(), symbols, slots, patched')
  {
    ghost var next, already := t.Entries(), Leftover(es, symbols);
    LeftoverLength(es, symbols);
    LeftoverAppend(es, next, symbols);
    PatchedAppend(slots, p.base, es, next, symbols);
    assert p.lazy != null ==> p.lazyCnt == |Deferred(p)|;
    hide Leftover, Patched, AllPossible, Plain, Missing, Table;
    ok, patched' := DoRelocs(p, t.words, t.n, t.pairs, symbols, patched, runtime, next, already);
  }

  lemma TableFacts(t: RelTable)
    requires t.Valid()
    ensures |t.Entries()| == t.n
  {
  }

  lemma NothingRelocated(p: Dso, symbols: Symbols, slots: map<nat, nat>)
    requires p.lazy != null ==> p.lazyCnt == 0
    ensures Relocated(p, [], symbols, slots, slots)
  {
  }

  /** Relocates an object with room just made for it, or none. */
  method RelocateObject(p: Dso, plt: RelTable, rel: RelTable, rela: RelTable, symbols: Symbols, slots: map<nat, nat>,
                        runtime: bool)
    returns (ok: bool, patched: map<nat, nat>)
    requires plt.Bytes() == p.pltSize && rel.Bytes() == p.relSize && rela.Bytes() == p.relaSize
    requires rel.pairs && !rela.pairs && plt.Valid() && rel.Valid() && rela.Valid()
    requires p.lazy != null ==>
      p.lazyCnt == 0 && p.lazy.Length == 3 * Room(p) && p.lazy !in [plt.words, rel.words, rela.words]
    modifies p`lazyCnt, p`relocated, p.lazy
    ensures var es := plt.Entries() + rel.Entries() + rela.Entries();
      && (ok <==> AllPossible(es, symbols, p.lazy != null))
      && (ok || !runtime ==> p.relocated && Relocated(p, es, symbols, slots, patched))
  {
    hide *;
    RoomSuffices(p, plt, rel, rela);
    TableFacts(plt);
    TableFacts(rel);
    ghost var a, b, c := plt.Entries(), rel.Entries(), rela.Entries();
    AllPossibleAppend(a, b, symbols, p.lazy != null);
    AllPossibleAppend(a + b, c, symbols, p.lazy != null);
    NothingRelocated(p, symbols, slots);
    assert [] + a == a;
    var done;
    ok, patched := NextTable(p, plt, symbols, slots, slots, runtime, [], Room(p));
    if !ok && runtime { return; }
    done, patched := NextTable(p, rel, symbols, slots, patched, runtime, a, Room(p));
    ok := ok && done;
    if !ok && runtime { return; }
    done, patched := NextTable(p, rela, symbols, slots, patched, runtime, a + b, Room(p));
    ok := ok && done;
    if !ok && runtime { return; }
    p.relocated := true;
  }
}
