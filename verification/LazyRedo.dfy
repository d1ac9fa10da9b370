/** Retrying the deferred relocations of all objects once libraries have been added.

    The loop follows the list of objects and links it anew as it goes.  The list may lead back into
    itself; then the loop comes round to objects it has linked already and follows the new links.
 */
module LazyRedo {
  import opened Common
  import opened Dsos
  import opened Graph
  import opened LazyRelocs

  // ------------------------------------------------------------------- what must come out

  /** `arrays` are the objects' own arrays, and `es` what they hold. */
  ghost predicate Holding(list: seq<Dso>, arrays: seq<array<nat>>, es: seq<seq<Entry>>, from: nat)
    reads list`lazy, list`lazyCnt, arrays
  {
    && |list| == |arrays| == |es|
    && forall i :: from <= i < |list| ==> HoldingOne(list[i], arrays[i], es[i])
  }

  ghost predicate HoldingOne(p: Dso, lazy: array<nat>, es: seq<Entry>)
    reads p`lazy, p`lazyCnt, lazy
  {
    p.lazy == lazy && 3 * p.lazyCnt <= lazy.Length && Entries(lazy[..], p.lazyCnt) == es
  }

  ghost predicate Postponable(es: seq<Entry>) {
    forall i :: 0 <= i < |es| ==> Deferrable(es[i].info)
  }

  /** Which objects have something left. */
  ghost function Keep(list: seq<Dso>, es: seq<seq<Entry>>, symbols: Dso -> Symbols): seq<bool>
    requires |list| == |es|
  {
    seq(|list|, i requires 0 <= i < |list| => Leftover(es[i], symbols(list[i])) != [])
  }

  /** The list afterwards: the objects kept, last processed first. */
  ghost function Relinked(list: seq<Dso>, keep: seq<bool>): (kept: seq<Dso>)
    requires |list| == |keep|
    ensures forall d :: d in kept ==> d in list
  {
    if list == [] then [] else
      var n := |list| - 1;
      (if keep[n] then [list[n]] else []) + Relinked(list[..n], keep[..n])
  }

  ghost function PatchedAll(slots: map<nat, nat>, list: seq<Dso>, es: seq<seq<Entry>>, symbols: Dso -> Symbols):
      map<nat, nat>
    requires |list| == |es|
    reads list`base
  {
    if list == [] then slots else
      var n := |list| - 1;
      Patched(PatchedAll(slots, list[..n], es[..n], symbols), list[n].base, es[n], symbols(list[n]))
  }

  lemma {:induction false} RelinkedDistinct(list: seq<Dso>, keep: seq<bool>)
    requires |list| == |keep| && Distinct(list)
    ensures Distinct(Relinked(list, keep))
  {
    if list == [] {
    } else {
      var n := |list| - 1;
      var rest := Relinked(list[..n], keep[..n]);
      RelinkedDistinct(list[..n], keep[..n]);
      assert list[n] !in list[..n];
    }
  }

  /** Exactly the objects kept are on the new list. */
  lemma {:induction false} RelinkedMembers(list: seq<Dso>, keep: seq<bool>, i: nat)
    requires |list| == |keep| && Distinct(list) && i < |list|
    ensures list[i] in Relinked(list, keep) <==> keep[i]
  {
    var n := |list| - 1;
    if i < n {
      RelinkedMembers(list[..n], keep[..n], i);
      assert list[i] != list[n];
    } else {
      assert list[n] !in list[..n];
    }
  }

  /** Go over one object's own array. */
  method RedoOne(p: Dso, lazy: array<nat>, symbols: Symbols, slots: map<nat, nat>, ghost es: seq<Entry>)
    returns (patched: map<nat, nat>)
    requires HoldingOne(p, lazy, es) && Postponable(es)
    modifies p`lazyCnt, lazy
    ensures HoldingOne(p, lazy, Leftover(es, symbols))
    ensures patched == Patched(slots, p.base, es, symbols)
  {
    var n := p.lazyCnt;
    p.lazyCnt := 0;
    ghost var none := Deferred(p);
    assert Table(lazy[..], n, false) == es;
    assert AllPossible(es, symbols, true) && none == [];
    hide Entries, Table, Leftover, Patched, AllPossible, Plain, Missing;
    var ok;
    ok, patched := DoRelocs(p, lazy, n, false, symbols, slots, true, es, none);
    assert Leftover(es, symbols) == none + Leftover(es, symbols);
  }

  /** What becomes of an object with `left` still deferred. */
  ghost predicate DoneOne(p: Dso, lazy: array<nat>, left: seq<Entry>)
    reads p`lazy, p`lazyCnt, p`lazyNext, lazy
  {
    if left != [] then HoldingOne(p, lazy, left)
    else p.lazy == null && p.lazyCnt == 0 && p.lazyNext == null
  }

  ghost predicate Done(list: seq<Dso>, arrays: seq<array<nat>>, es: seq<seq<Entry>>, symbols: Dso -> Symbols, upto: nat)
    requires |list| == |arrays| == |es| && upto <= |list|
    reads list`lazy, list`lazyCnt, list`lazyNext, arrays
  {
    forall k :: 0 <= k < upto ==> DoneOne(list[k], arrays[k], Leftover(es[k], symbols(list[k])))
  }

  /** Place `i` of a list that after its end goes on at place `k`, if there is one. */
  ghost function Place(list: seq<Dso>, k: nat, i: nat): Dso? {
    if i < |list| then list[i] else At(list, k)
  }

  lemma RelinkedNext(list: seq<Dso>, keep: seq<bool>, i: nat)
    requires |list| == |keep| && i < |list|
    ensures Relinked(list[..i + 1], keep[..i + 1]) ==
      (if keep[i] then [list[i]] else []) + Relinked(list[..i], keep[..i])
  {
    assert list[..i + 1][..i] == list[..i] && keep[..i + 1][..i] == keep[..i];
  }

  lemma HoldingSame(p: Dso, lazy: array<nat>, es: seq<Entry>)
    requires HoldingOne(p, lazy, es)
    ensures p.lazy == lazy
  {
  }

  lemma LeftCount(p: Dso, lazy: array<nat>, left: seq<Entry>)
    requires HoldingOne(p, lazy, left)
    ensures p.lazyCnt == |left|
  {
  }

  /** One object: go over its array, if it still has one, then put it in front of the list or drop it. */
  method RedoObject(p: Dso, head: Dso?, symbols: Symbols, slots: map<nat, nat>, ghost lazy: array<nat>, ghost es: seq<Entry>)
    returns (next: Dso?, head': Dso?, patched: map<nat, nat>)
    requires HoldingOne(p, lazy, es) || (es == [] && p.lazy == null && p.lazyCnt == 0)
    requires Postponable(es)
    modifies p`lazyCnt, p`lazy, p`lazyNext, lazy
    ensures next == old(p.lazyNext) && DoneOne(p, lazy, Leftover(es, symbols))
    ensures if Leftover(es, symbols) != [] then head' == p && p.lazyNext == head else head' == head
    ensures patched == Patched(slots, p.base, es, symbols)
  {
    hide HoldingOne, Postponable;
    next, patched := p.lazyNext, slots;
    if HoldingOne(p, lazy, es) { HoldingSame(p, lazy, es); }
    assert es == [] ==> Leftover(es, symbols) == [] && slots == Patched(slots, p.base, es, symbols);
    hide Leftover, Patched;
    if p.lazy != null {
      patched := RedoOne(p, p.lazy, symbols, slots, es);
      LeftCount(p, lazy, Leftover(es, symbols));
    }
    if p.lazyCnt != 0 {
      p.lazyNext := head;
      head' := p;
    } else {
      p.lazy := null;
      p.lazyNext := null;
      head' := head;
    }
  }

  lemma KeepAt(list: seq<Dso>, es: seq<seq<Entry>>, symbols: Dso -> Symbols, i: nat)
    requires |list| == |es| && i < |list|
    ensures |Keep(list, es, symbols)| == |list|
    ensures Keep(list, es, symbols)[i] == (Leftover(es[i], symbols(list[i])) != [])
  {
  }

  ghost predicate Objects(list: seq<Dso>, k: nat, arrays: seq<array<nat>>, es: seq<seq<Entry>>) {
    && |list| == |arrays| == |es| && k <= |list| && Distinct(list) && Distinct(arrays)
    && forall i :: 0 <= i < |es| ==> Postponable(es[i])
  }

  lemma {:induction false} AgainNothing(es: seq<Entry>, symbols: Symbols, slots: map<nat, nat>, base: nat)
    ensures Leftover(Leftover(es, symbols), symbols) == Leftover(es, symbols)
    ensures Patched(slots, base, Leftover(es, symbols), symbols) == slots
    ensures Postponable(es) ==> Postponable(Leftover(es, symbols))
  {
    if es == [] {
    } else {
      var before, e := Leftover(es[..|es| - 1], symbols), es[|es| - 1];
      AgainNothing(es[..|es| - 1], symbols, slots, base);
      if Postponed(e, symbols) {
        assert (before + [e])[..|before|] == before;
      } else {
        assert before + [] == before;
      }
    }
  }

  /** What a turn of the loop does to the arrays: on the way out the object's own is gone over, on the way
      back nothing happens. */
  method RedoArray(p: Dso, head: Dso?, symbols: Dso -> Symbols, slots: map<nat, nat>, ghost list: seq<Dso>, ghost k: nat,
                   ghost arrays: seq<array<nat>>, ghost es: seq<seq<Entry>>, ghost i: nat, ghost at: nat)
    returns (next: Dso?, head': Dso?, patched: map<nat, nat>)
    requires Objects(list, k, arrays, es) && at < |list| && p == list[at] && (i == at || i == |list|)
    requires Holding(list, arrays, es, i) && Done(list, arrays, es, symbols, i)
    modifies p`lazyCnt, p`lazy, p`lazyNext, arrays[at]
    ensures if i < |list| then Holding(list, arrays, es, i + 1) && Done(list, arrays, es, symbols, i + 1)
            else Holding(list, arrays, es, i) && Done(list, arrays, es, symbols, i)
    ensures patched == if i < |list| then Patched(slots, p.base, es[at], symbols(p)) else slots
    ensures next == old(p.lazyNext)
    ensures if Leftover(es[at], symbols(p)) != [] then head' == p && p.lazyNext == head
            else head' == head && p.lazyNext == null
  {
    hide Leftover, Patched, Entries, Postponable, HoldingOne;
    ghost var mine := es[at];
    if i == |list| {
      mine := Leftover(es[at], symbols(p));
      AgainNothing(es[at], symbols(p), slots, p.base);
      assert DoneOne(p, arrays[at], mine);
    }
    next, head', patched := RedoObject(p, head, symbols(p), slots, arrays[at], mine);
  }

  // ------------------------------------------------------------------- the links

  /** Where each object's link leads. */
  type Links = map<Dso, Dso?>

  ghost function LinksOf(list: seq<Dso>): Links
    reads list`lazyNext
  {
    map d | d in list :: d.lazyNext
  }

  /** `s` is the list that starts at `head`. */
  ghost predicate Linked(links: Links, head: Dso?, s: seq<Dso>) {
    && head == At(s, 0) && Distinct(s)
    && forall i :: 0 <= i < |s| ==> s[i] in links && links[s[i]] == At(s, i + 1)
  }

  /** Following the links from `head` leads through `list`, and then back to its place `k`; with no such
      place it ends. */
  ghost predicate Leads(head: Dso?, list: seq<Dso>, k: nat)
    reads list`lazyNext
  {
    k <= |list| && head == Place(list, k, 0) && Distinct(list) && Rest(LinksOf(list), list, k, 0)
  }

  /** The part of it not reached yet. */
  ghost predicate Rest(links: Links, list: seq<Dso>, k: nat, from: nat) {
    forall i :: from <= i < |list| ==> list[i] in links && links[list[i]] == Place(list, k, i + 1)
  }

  /** On the way out, at place `i`: the objects `kept` so far are linked, the last in front. */
  ghost predicate Onward(links: Links, p: Dso?, head: Dso?, list: seq<Dso>, k: nat, i: nat, kept: seq<Dso>) {
    i <= |list| && p == Place(list, k, i) && Rest(links, list, k, i) && Linked(links, head, kept)
  }

  /** On the way back along the kept objects, from place `m` to place `j`: those passed are linked once
      more, each in front of what there was. */
  ghost predicate Back(links: Links, p: Dso?, head: Dso?, kept: seq<Dso>, m: nat, j: nat) {
    && m <= j <= |kept| && p == At(kept, j) && Distinct(kept)
    && (forall x :: 0 <= x < |kept| ==> kept[x] in links)
    && (forall x :: 0 <= x < m || j <= x < |kept| ==> links[kept[x]] == At(kept, x + 1))
    && (forall x :: m <= x < j ==> links[kept[x]] == kept[if x == m then 0 else x - 1])
    && head == if j == m then At(kept, 0) else kept[j - 1]
  }

  /** Come round to `back`: if that object was dropped, the way ends there. */
  ghost predicate Returning(links: Links, p: Dso?, head: Dso?, kept: seq<Dso>, back: Dso, m: nat, j: nat) {
    if back in kept then m < |kept| && kept[m] == back && Back(links, p, head, kept, m, j)
    else Linked(links, head, kept) && back in links && links[back] == null && (p == null || (p == back && j == 0))
  }

  /** What a turn does to the links: the object goes in front, or is dropped. */
  ghost function Turn(links: Links, p: Dso, head: Dso?, stays: bool): Links {
    links[p := if stays then head else null]
  }

  lemma OnwardNext(links: Links, p: Dso, head: Dso?, list: seq<Dso>, k: nat, i: nat, keep: seq<bool>)
    requires |list| == |keep| && Distinct(list) && i < |list|
    requires Onward(links, p, head, list, k, i, Relinked(list[..i], keep[..i]))
    ensures p == list[i] && p in links
    ensures Onward(Turn(links, p, head, keep[i]), links[p], if keep[i] then p else head, list, k, i + 1,
                   Relinked(list[..i + 1], keep[..i + 1]))
  {
    hide Relinked;
    var kept := Relinked(list[..i], keep[..i]);
    RelinkedNext(list, keep, i);
    assert list[i] !in list[..i];
    LinkedNext(links, p, head, kept, keep[i]);
    hide Linked;
    assert [] + kept == kept;
  }

  lemma LinkedNext(links: Links, p: Dso, head: Dso?, kept: seq<Dso>, stays: bool)
    requires Linked(links, head, kept) && p !in kept
    ensures Linked(Turn(links, p, head, stays), if stays then p else head, if stays then [p] + kept else kept)
  {
    if stays {
      var s := [p] + kept;
      assert forall x :: 1 <= x < |s| ==> s[x] == kept[x - 1];
    }
  }

  lemma ReturningNext(links: Links, p: Dso, head: Dso?, kept: seq<Dso>, back: Dso, m: nat, j: nat)
    requires Returning(links, p, head, kept, back, m, j)
    ensures p in links && (p == back || p in kept)
    ensures Returning(Turn(links, p, head, p in kept), links[p], if p in kept then p else head, kept, back, m, j + 1)
  {
    if back in kept { BackNext(links, p, head, kept, m, j); } else { LinkedNext(links, p, head, kept, false); }
    hide Back, Linked;
  }

  lemma BackNext(links: Links, p: Dso, head: Dso?, kept: seq<Dso>, m: nat, j: nat)
    requires m < |kept| && Back(links, p, head, kept, m, j)
    ensures p in kept && p in links && Back(Turn(links, p, head, true), links[p], p, kept, m, j + 1)
  {
  }

  lemma PatchedAllNext(slots: map<nat, nat>, list: seq<Dso>, es: seq<seq<Entry>>, symbols: Dso -> Symbols, i: nat)
    requires |list| == |es| && i < |list|
    ensures PatchedAll(slots, list[..i + 1], es[..i + 1], symbols) ==
      Patched(PatchedAll(slots, list[..i], es[..i], symbols), list[i].base, es[i], symbols(list[i]))
  {
    assert list[..i + 1][..i] == list[..i] && es[..i + 1][..i] == es[..i];
  }

  /** The whole list is done: if it leads back, from there on the kept objects are met again. */
  lemma TurnBack(links: Links, p: Dso, head: Dso?, list: seq<Dso>, k: nat, keep: seq<bool>) returns (m: nat)
    requires |list| == |keep| && Distinct(list) && Onward(links, p, head, list, k, |list|, Relinked(list, keep))
    requires forall i :: 0 <= i < |list| && !keep[i] ==> list[i] in links && links[list[i]] == null
    ensures k < |list| && p == list[k] && Returning(links, p, head, Relinked(list, keep), p, m, m)
  {
    hide Relinked;
    var kept := Relinked(list, keep);
    RelinkedMembers(list, keep, k);
    m := 0;
    if p in kept { m :| 0 <= m < |kept| && kept[m] == p; }
  }

  lemma DoneLinks(list: seq<Dso>, arrays: seq<array<nat>>, es: seq<seq<Entry>>, symbols: Dso -> Symbols)
    requires |list| == |arrays| == |es| && Done(list, arrays, es, symbols, |list|)
    ensures forall i :: 0 <= i < |list| && !Keep(list, es, symbols)[i] ==> list[i].lazyNext == null
  {
    hide Leftover, HoldingOne;
    forall i | 0 <= i < |list| && !Keep(list, es, symbols)[i] ensures list[i].lazyNext == null {
      assert DoneOne(list[i], arrays[i], Leftover(es[i], symbols(list[i])));
    }
  }

  /** One turn of the loop, on the way out or back. */
  method RedoNext(p: Dso, head: Dso?, symbols: Dso -> Symbols, slots: map<nat, nat>, ghost list: seq<Dso>, ghost k: nat,
                  ghost arrays: seq<array<nat>>, ghost es: seq<seq<Entry>>, ghost keep: seq<bool>, ghost i: nat, ghost at: nat)
    returns (next: Dso?, head': Dso?, patched: map<nat, nat>)
    requires Objects(list, k, arrays, es) && at < |list| == |keep| && p == list[at] && (i == at || i == |list|)
    requires Holding(list, arrays, es, i) && Done(list, arrays, es, symbols, i) && keep == Keep(list, es, symbols)
    modifies list`lazyCnt, list`lazy, list`lazyNext, arrays
    ensures if i < |list| then Holding(list, arrays, es, i + 1) && Done(list, arrays, es, symbols, i + 1)
            else Holding(list, arrays, es, i) && Done(list, arrays, es, symbols, i)
    ensures patched == if i < |list| then Patched(slots, p.base, es[at], symbols(p)) else slots
    ensures p in old(LinksOf(list)) && next == old(LinksOf(list))[p]
    ensures LinksOf(list) == Turn(old(LinksOf(list)), p, head, keep[at])
    ensures head' == if keep[at] then p else head
  {
    hide Leftover, Patched, Holding, Done, Keep;
    KeepAt(list, es, symbols, at);
    next, head', patched := RedoArray(p, head, symbols, slots, list, k, arrays, es, i, at);
  }

  /** The kept objects after they were met again, from the last back to place `m` and then from the first. */
  ghost function Turned(kept: seq<Dso>, m: nat): (walk: seq<Dso>)
    requires m <= |kept|
    ensures |walk| == |kept|
  {
    seq(|kept| - m, x requires 0 <= x < |kept| - m => kept[|kept| - 1 - x]) + kept[..m]
  }

  lemma BackEnds(head: Dso?, list: seq<Dso>, kept: seq<Dso>, m: nat)
    requires m < |kept| && Back(LinksOf(list), null, head, kept, m, |kept|)
    ensures Lasso(head, Turned(kept, m))
  {
    hide Turned, LinksOf;
    var walk, n := Turned(kept, m), |kept| - m;
    TurnedAt(kept, m, 0);
    forall x | 0 <= x < |walk| - 1 ensures walk[x].lazyNext == walk[x + 1] {
      TurnedAt(kept, m, x);
      TurnedAt(kept, m, x + 1);
      LinkOf(list, walk[x]);
    }
    TurnedAt(kept, m, |walk| - 1);
    TurnedAt(kept, m, n - 1);
    LinkOf(list, walk[|walk| - 1]);
    TurnedDistinct(kept, m);
    assert walk[|walk| - 1].lazyNext == walk[n - 1];
  }

  lemma LinkOf(list: seq<Dso>, d: Dso)
    ensures d in LinksOf(list) ==> LinksOf(list)[d] == d.lazyNext
  {
  }

  lemma TurnedAt(kept: seq<Dso>, m: nat, x: nat)
    requires m <= |kept| && x < |kept|
    ensures Turned(kept, m)[x] == kept[if x < |kept| - m then |kept| - 1 - x else x - (|kept| - m)]
  {
  }

  lemma TurnedDistinct(kept: seq<Dso>, m: nat)
    requires m <= |kept| && Distinct(kept)
    ensures Distinct(Turned(kept, m))
  {
    hide Turned;
    var walk := Turned(kept, m);
    forall x, y | 0 <= x < y < |walk| ensures walk[x] != walk[y] {
      TurnedAt(kept, m, x);
      TurnedAt(kept, m, y);
    }
  }

  lemma OnwardEnds(head: Dso?, list: seq<Dso>, kept: seq<Dso>)
    requires Linked(LinksOf(list), head, kept)
    ensures LazyList(head, kept)
  {
  }

  /** Where the loop is: on the way out if `out`, else on the way back. */
  ghost predicate Underway(links: Links, p: Dso?, head: Dso?, list: seq<Dso>, k: nat, keep: seq<bool>,
                           out: bool, i: nat, m: nat, j: nat)
    requires |list| == |keep|
  {
    && i <= |list|
    && if out then Onward(links, p, head, list, k, i, Relinked(list[..i], keep[..i]))
       else i == |list| && k < |list| && Returning(links, p, head, Relinked(list, keep), list[k], m, j)
  }

  lemma UnderwayStart(head: Dso?, list: seq<Dso>, k: nat, keep: seq<bool>, slots: map<nat, nat>, es: seq<seq<Entry>>,
                      symbols: Dso -> Symbols)
    requires |list| == |keep| == |es| && Leads(head, list, k)
    ensures Underway(LinksOf(list), head, null, list, k, keep, true, 0, 0, 0)
    ensures PatchedAll(slots, list[..0], es[..0], symbols) == slots
  {
  }

  lemma ObjectsFacts(list: seq<Dso>, k: nat, arrays: seq<array<nat>>, es: seq<seq<Entry>>, symbols: Dso -> Symbols)
    requires Objects(list, k, arrays, es)
    ensures |list| == |arrays| == |es| == |Keep(list, es, symbols)| && Distinct(list) && k <= |list|
    ensures Done(list, arrays, es, symbols, 0)
  {
  }

  /** How much of the way is ahead. */
  ghost function Ahead(list: seq<Dso>, keep: seq<bool>, out: bool, i: nat, j: nat): int
    requires |list| == |keep|
  {
    |Relinked(list, keep)| + if out then |list| + 2 - i else 1 - j
  }

  /** Coming to the end of the list with a link to follow is turning back. */
  lemma UnderwayTurns(p: Dso, head: Dso?, list: seq<Dso>, k: nat, arrays: seq<array<nat>>, es: seq<seq<Entry>>,
                      symbols: Dso -> Symbols, keep: seq<bool>, m0: nat, j: nat) returns (m: nat)
    requires |list| == |arrays| == |es| == |keep| && Distinct(list) && keep == Keep(list, es, symbols)
    requires Done(list, arrays, es, symbols, |list|)
    requires Underway(LinksOf(list), p, head, list, k, keep, true, |list|, m0, j)
    ensures Underway(LinksOf(list), p, head, list, k, keep, false, |list|, m, m)
    ensures Ahead(list, keep, false, |list|, m) < Ahead(list, keep, true, |list|, j)
  {
    hide Relinked, Done, Keep, Leftover;
    DoneLinks(list, arrays, es, symbols);
    assert list[..|list|] == list && keep[..|list|] == keep;
    m := TurnBack(LinksOf(list), p, head, list, k, keep);
  }

  /** The object at hand, and where a turn leads. */
  lemma UnderwayNext(links: Links, p: Dso, head: Dso?, list: seq<Dso>, k: nat, keep: seq<bool>,
                     out: bool, i: nat, m: nat, j: nat) returns (at: nat)
    requires |list| == |keep| && Distinct(list) && Underway(links, p, head, list, k, keep, out, i, m, j)
    requires out ==> i < |list|
    ensures at < |list| && p == list[at] && p in links && (if out then at == i else i == |list|)
    ensures Underway(Turn(links, p, head, keep[at]), links[p], if keep[at] then p else head, list, k, keep,
                     out, if out then i + 1 else i, m, if out then j else j + 1)
    ensures 0 <= Ahead(list, keep, out, if out then i + 1 else i, if out then j else j + 1) < Ahead(list, keep, out, i, j)
  {
    if out {
      at := i;
      OnwardNext(links, p, head, list, k, i, keep);
    } else {
      hide Relinked;
      ReturningNext(links, p, head, Relinked(list, keep), list[k], m, j);
      at :| 0 <= at < |list| && list[at] == p;
      RelinkedMembers(list, keep, at);
    }
  }

  lemma UnderwayEnds(head: Dso?, list: seq<Dso>, k: nat, keep: seq<bool>, out: bool, i: nat, m: nat, j: nat)
    requires |list| == |keep| && k <= |list| && Distinct(list)
    requires Underway(LinksOf(list), null, head, list, k, keep, out, i, m, j)
    ensures i == |list|
    ensures k == |list| || !keep[k] ==> LazyList(head, Relinked(list, keep))
    ensures k < |list| && keep[k] ==>
      m < |Relinked(list, keep)| && Relinked(list, keep)[m] == list[k] && Lasso(head, Turned(Relinked(list, keep), m))
  {
    var kept := Relinked(list, keep);
    hide Relinked;
    if out {
      assert list[..|list|] == list && keep[..|list|] == keep;
      OnwardEnds(head, list, kept);
    } else {
      RelinkedMembers(list, keep, k);
      if keep[k] { BackEnds(head, list, kept, m); } else { OnwardEnds(head, list, kept); }
    }
  }

  /** Retry every deferred relocation after libraries were added.  A list that leads back into itself stays
      so exactly if the object it leads back to still has something left. */
  method RedoLazyRelocs(lazyHead: Dso?, symbols: Dso -> Symbols, slots: map<nat, nat>, ghost list: seq<Dso>, ghost k: nat,
                        ghost arrays: seq<array<nat>>, ghost es: seq<seq<Entry>>)
    returns (head: Dso?, patched: map<nat, nat>, ghost m: nat)
    requires Leads(lazyHead, list, k) && Objects(list, k, arrays, es) && Holding(list, arrays, es, 0)
    modifies list`lazyCnt, list`lazy, list`lazyNext, arrays
    ensures Done(list, arrays, es, symbols, |list|) && patched == PatchedAll(slots, list, es, symbols)
    ensures var keep := Keep(list, es, symbols);
      var kept := Relinked(list, keep);
      if k == |list| || !keep[k] then LazyList(head, kept)
      else m < |kept| && kept[m] == list[k] && Lasso(head, Turned(kept, m))
  {
    hide *;
    ObjectsFacts(list, k, arrays, es, symbols);
    ghost var keep := Keep(list, es, symbols);
    var p := lazyHead;
    head, patched := null, slots;
    m := 0;
    ghost var out, i, j := true, 0, 0;
    UnderwayStart(lazyHead, list, k, keep, slots, es, symbols);
    while p != null
      invariant Underway(LinksOf(list), p, head, list, k, keep, out, i, m, j)
      invariant i <= |list| && Holding(list, arrays, es, i) && Done(list, arrays, es, symbols, i)
      invariant patched == PatchedAll(slots, list[..i], es[..i], symbols)
      decreases Ahead(list, keep, out, i, j)
    {
      if out && i == |list| {
        m := UnderwayTurns(p, head, list, k, arrays, es, symbols, keep, m, j);
        out, j := false, m;
      }
      ghost var at := UnderwayNext(LinksOf(list), p, head, list, k, keep, out, i, m, j);
      if out { PatchedAllNext(slots, list, es, symbols, i); }
      p, head, patched := RedoNext(p, head, symbols, patched, list, k, arrays, es, keep, i, at);
      if out { i := i + 1; } else { j := j + 1; }
    }
    UnderwayEnds(head, list, k, keep, out, i, m, j);
    assert list[..i] == list && es[..i] == es;
  }

  /** Whatever joining and retrying make of the list, it can be retried again. */
  lemma EitherLeads(head: Dso?, list: seq<Dso>) returns (k: nat)
    requires LazyList(head, list) || Lasso(head, list)
    ensures Leads(head, list, k) && (k == |list| <==> LazyList(head, list))
  {
    k := |list|;
    if Lasso(head, list) {
      LassoIsNoList(head, list, list);
      k :| 0 <= k < |list| && list[|list| - 1].lazyNext == list[k];
    }
  }
}
