/** Loading at run time, and undoing it when it fails half-way.

    Objects join several lists at once: the chain of everything loaded, the chain of global
    symbols, the list of TLS modules and the list of deferred relocations.  A `dlopen` that fails
    after any number of such steps puts every list back from a few saved pointers.
 */
module Dlopen {
  import opened Common
  import opened Dsos
  import opened Graph
  import LazyOpen
  import opened LazyRelocs
  import TlsLayout

  // ------------------------------------------------------------------- the lists

  /** Everything loaded, linked both ways. */
  ghost predicate Linked(head: Dso, tail: Dso, chain: seq<Dso>)
    reads chain`next, chain`prev
  {
    && Chain(head, chain) && chain[|chain| - 1] == tail
    && (forall i :: 0 < i < |chain| ==> chain[i].prev == chain[i - 1])
  }

  /** The linker's own object is on the chain exactly when it has a predecessor. */
  ghost predicate Chained(head: Dso, tail: Dso, ldso: Dso, chain: seq<Dso>)
    reads chain`next, chain`prev, ldso`prev
  {
    Linked(head, tail, chain) && ldso != head && (ldso !in chain ==> ldso.prev == null)
  }

  /** The global symbol chain; whatever is not on it points nowhere. */
  ghost predicate SymChain(head: Dso, tail: Dso, syms: seq<Dso>, known: set<Dso>)
    reads syms`symsNext, known`symsNext
  {
    && syms != [] && syms[0] == head && syms[|syms| - 1] == tail && Distinct(syms)
    && (forall i :: 0 <= i < |syms| ==> syms[i] in known && syms[i].symsNext == At(syms, i + 1))
    && (forall d :: d in known && d !in syms ==> d.symsNext == null)
  }

  ghost predicate TlsList(head: Dso?, tail: Dso?, mods: seq<Dso>)
    reads mods`tlsNext
  {
    && head == At(mods, 0) && Distinct(mods)
    && tail == (if mods == [] then null else mods[|mods| - 1])
    && forall i :: 0 <= i < |mods| ==> mods[i].tlsNext == At(mods, i + 1)
  }

  /** The test the linker uses for membership is exact. */
  lemma OnSymChain(head: Dso, tail: Dso, syms: seq<Dso>, known: set<Dso>, p: Dso)
    requires SymChain(head, tail, syms, known) && p in known
    ensures p in syms <==> p.symsNext != null || p == tail
  {
  }

  lemma TailLast(head: Dso, tail: Dso, syms: seq<Dso>, known: set<Dso>)
    requires SymChain(head, tail, syms, known)
    ensures syms != [] && syms[|syms| - 1] == tail
  {
  }

  /** Add an object to the global symbols unless it is there. */
  method AddSyms(p: Dso, tail: Dso, ghost head: Dso, ghost syms: seq<Dso>, ghost known: set<Dso>)
    returns (tail': Dso, ghost syms': seq<Dso>)
    requires SymChain(head, tail, syms, known) && p in known
    modifies tail`symsNext
    ensures syms' == if p in syms then syms else syms + [p]
    ensures SymChain(head, tail', syms', known)
  {
    hide SymChain;
    OnSymChain(head, tail, syms, known, p);
    tail', syms' := tail, syms;
    if p.symsNext == null && tail != p {
      AppendSyms(p, tail, head, syms, known);
      tail', syms' := p, syms + [p];
    }
  }

  method AppendSyms(p: Dso, tail: Dso, ghost head: Dso, ghost syms: seq<Dso>, ghost known: set<Dso>)
    requires SymChain(head, tail, syms, known) && p in known && p !in syms
    modifies tail`symsNext
    ensures SymChain(head, p, syms + [p], known)
  {
    assert p.symsNext == null;
    tail.symsNext := p;
    Appended(head, tail, p, syms, known);
  }

  lemma Appended(head: Dso, tail: Dso, p: Dso, syms: seq<Dso>, known: set<Dso>)
    requires syms != [] && syms[0] == head && syms[|syms| - 1] == tail && Distinct(syms)
    requires p in known && p !in syms && p.symsNext == null && tail.symsNext == p
    requires forall i :: 0 <= i < |syms| ==> syms[i] in known
    requires forall i :: 0 <= i < |syms| - 1 ==> syms[i].symsNext == At(syms, i + 1)
    requires forall d :: d in known && d !in syms ==> d.symsNext == null
    ensures SymChain(head, p, syms + [p], known)
  {
    var all := syms + [p];
    forall i | 0 <= i < |all| ensures all[i] in known && all[i].symsNext == At(all, i + 1) {
      if i < |syms| { assert all[i] == syms[i]; }
    }
  }

  /** Clear the links of a list of symbol-chain entries. */
  method Unlink(first: Dso, ghost rest: seq<Dso>)
    requires rest != [] && rest[0] == first && Distinct(rest)
    requires forall i :: 0 <= i < |rest| ==> rest[i].symsNext == At(rest, i + 1)
    modifies rest`symsNext
    ensures forall i :: 0 <= i < |rest| ==> rest[i].symsNext == null
  {
    ghost var i := 0;
    var p: Dso? := first;
    while p != null
      invariant i <= |rest| && p == At(rest, i)
      invariant forall j :: 0 <= j < i ==> rest[j].symsNext == null
      invariant forall j :: i <= j < |rest| ==> rest[j].symsNext == At(rest, j + 1)
      decreases |rest| - i
    {
      var next := p.symsNext;
      p.symsNext := null;
      p, i := next, i + 1;
    }
  }

  /** Cut the global symbols off after `oldTail`. */
  method RevertSyms(oldTail: Dso, ghost head: Dso, ghost tail: Dso, ghost syms: seq<Dso>, ghost known: set<Dso>,
                    ghost k: nat)
    requires SymChain(head, tail, syms, known) && k < |syms| && syms[k] == oldTail
    modifies syms[k..]`symsNext
    ensures SymChain(head, oldTail, syms[..k + 1], known)
  {
    ghost var rest := syms[k..];
    forall i | 0 <= i < |rest| ensures rest[i].symsNext == At(rest, i + 1) {
      assert rest[i] == syms[k + i];
    }
    Unlink(oldTail, rest);
    Cut(head, oldTail, syms, known, k);
  }

  lemma Cut(head: Dso, oldTail: Dso, syms: seq<Dso>, known: set<Dso>, k: nat)
    requires k < |syms| && syms[0] == head && syms[k] == oldTail && Distinct(syms)
    requires forall i :: 0 <= i < |syms| ==> syms[i] in known
    requires forall i :: 0 <= i < k ==> syms[i].symsNext == At(syms, i + 1)
    requires forall i :: 0 <= i < |syms[k..]| ==> syms[k..][i].symsNext == null
    requires forall d :: d in known && d !in syms ==> d.symsNext == null
    ensures SymChain(head, oldTail, syms[..k + 1], known)
  {
    forall d | d in known && d !in syms[..k + 1] ensures d.symsNext == null {
      if d in syms {
        var i :| 0 <= i < |syms| && syms[i] == d;
        assert i > k && syms[k..][i - k] == d;
      }
    }
    assert syms[k..][0] == oldTail;
  }

  /** Put `p` at the end of the chain. */
  method AppendChain(p: Dso, tail: Dso, ghost head: Dso, ghost ldso: Dso, ghost chain: seq<Dso>)
    requires Chained(head, tail, ldso, chain) && p !in chain && p.next == null
    modifies tail`next, p`prev
    ensures Chained(head, p, ldso, chain + [p])
  {
    tail.next := p;
    p.prev := tail;
  }

  /** Put `p` at the end of the list of TLS modules. */
  method AppendTls(p: Dso, tlsHead: Dso?, tlsTail: Dso?, ghost mods: seq<Dso>) returns (tlsHead': Dso)
    requires TlsList(tlsHead, tlsTail, mods) && p !in mods && p.tlsNext == null
    modifies mods`tlsNext
    ensures TlsList(tlsHead', p, mods + [p])
  {
    if tlsTail != null {
      tlsTail.tlsNext := p;
      tlsHead' := tlsHead;
    } else {
      tlsHead' := p;
    }
  }

  /** The objects a symbol chain may hold. */
  ghost function All(chain: seq<Dso>, ldso: Dso): set<Dso> {
    (set d | d in chain) + {ldso}
  }

  ghost predicate Within(part: seq<Dso>, all: seq<Dso>) {
    forall i :: 0 <= i < |part| ==> part[i] in all
  }

  lemma ChainFacts(head: Dso, tail: Dso, ldso: Dso, chain: seq<Dso>)
    requires Chained(head, tail, ldso, chain)
    ensures tail in chain && head in chain && (ldso in chain <==> ldso.prev != null)
  {
    if ldso in chain {
      var i :| 0 <= i < |chain| && chain[i] == ldso;
      assert chain[i].prev == chain[i - 1];
    }
  }

  lemma KnowMore(head: Dso, tail: Dso, syms: seq<Dso>, known: set<Dso>, more: set<Dso>)
    requires SymChain(head, tail, syms, known) && known <= more
    requires forall d :: d in more - known ==> d.symsNext == null
    ensures SymChain(head, tail, syms, more)
  {
  }

  lemma KnowLess(head: Dso, tail: Dso, syms: seq<Dso>, known: set<Dso>, less: set<Dso>)
    requires SymChain(head, tail, syms, known) && less <= known
    requires forall i :: 0 <= i < |syms| ==> syms[i] in less
    ensures SymChain(head, tail, syms, less)
  {
  }

  /** Cut the chain after `oldTail`, giving back what was behind it, in order. */
  method CutChain(oldTail: Dso, ghost head: Dso, ghost tail: Dso, ghost chain: seq<Dso>, ghost k: nat)
    returns (freed: seq<Dso>)
    requires Linked(head, tail, chain) && k < |chain| && chain[k] == oldTail
    modifies oldTail`next
    ensures Linked(head, oldTail, chain[..k + 1]) && freed == chain[k + 1..]
  {
    freed := [];
    var p := oldTail.next;
    ghost var i := k + 1;
    while p != null
      invariant k < i <= |chain| && p == At(chain, i) && freed == chain[k + 1..i]
      decreases |chain| - i
    {
      freed := freed + [p];
      p, i := p.next, i + 1;
    }
    oldTail.next := null;
  }

  method CutChainTo(oldTail: Dso, ghost head: Dso, ghost tail: Dso, ghost chain: seq<Dso>, ghost chain0: seq<Dso>)
    returns (freed: seq<Dso>)
    requires Linked(head, tail, chain) && chain0 != [] && chain0 <= chain && chain0[|chain0| - 1] == oldTail
    modifies oldTail`next
    ensures Linked(head, oldTail, chain0) && freed == chain[|chain0|..]
    ensures forall d :: d in freed ==> d !in chain0
  {
    assert Distinct(chain);
    hide Linked;
    freed := CutChain(oldTail, head, tail, chain, |chain0| - 1);
    assert chain[..|chain0|] == chain0;
  }

  method RevertSymsTo(oldTail: Dso, ghost head: Dso, ghost tail: Dso, ghost ldso: Dso, ghost syms: seq<Dso>,
                      ghost syms0: seq<Dso>, ghost chain: seq<Dso>, ghost chain0: seq<Dso>)
    requires SymChain(head, tail, syms, All(chain, ldso)) && syms0 != [] && syms0 <= syms
    requires syms0[|syms0| - 1] == oldTail && chain0 <= chain && Within(syms0, chain0)
    modifies syms`symsNext
    ensures SymChain(head, oldTail, syms0, All(chain0, ldso))
  {
    hide SymChain;
    RevertSyms(oldTail, head, tail, syms, All(chain, ldso), |syms0| - 1);
    assert syms[..|syms0|] == syms0;
    KnowLess(head, oldTail, syms0, All(chain, ldso), All(chain0, ldso));
  }

  /** Cut the list of TLS modules after `oldTail`, or empty it. */
  method CutTls(tlsHead: Dso?, oldTail: Dso?, ghost tlsTail: Dso?, ghost mods: seq<Dso>, ghost kept: seq<Dso>)
    returns (tlsHead': Dso?)
    requires TlsList(tlsHead, tlsTail, mods) && kept <= mods
    requires oldTail == if kept == [] then null else kept[|kept| - 1]
    modifies kept`tlsNext
    ensures TlsList(tlsHead', oldTail, kept)
  {
    tlsHead' := if oldTail == null then null else tlsHead;
    if oldTail != null { oldTail.tlsNext := null; }
  }

  // ------------------------------------------------------------------- the linker's state

  /** How much TLS has been handed out. */
  datatype Counters = Counters(cnt: nat, offset: int, align: nat) {
    /** After a place for one more image was found. */
    function Place(v: TlsLayout.Variant, im: TlsLayout.Image): Counters
      requires im.align > 0
    {
      var m := TlsLayout.Module(im, TlsLayout.LibraryOffset(v, offset, im));
      Counters(cnt + 1, TlsLayout.Far(v, m), TlsLayout.MaxP2(align, im.align))
    }

    /** The counters describe `ms`: their number, the space they take and an alignment for all of them. */
    ghost predicate Describes(v: TlsLayout.Variant, ms: seq<TlsLayout.Module>) {
      cnt == |ms| && offset >= 0 && TlsLayout.Alignment(align) && TlsLayout.Layout(v, ms, offset, align)
    }
  }

  /** Mapping one more library keeps the counters a description of what is placed, so what a failed
      `dlopen` puts back again describes the modules it leaves. */
  lemma PlaceDescribes(c: Counters, v: TlsLayout.Variant, ms: seq<TlsLayout.Module>, im: TlsLayout.Image)
    requires c.Describes(v, ms) && TlsLayout.Usable(im)
    ensures im.align > 0
    ensures c.Place(v, im).Describes(v, ms + [TlsLayout.Module(im, TlsLayout.LibraryOffset(v, c.offset, im))])
  {
    hide TlsLayout.Alignment, TlsLayout.MaxP2, TlsLayout.Layout, TlsLayout.Placed, TlsLayout.Far;
    TlsLayout.LibraryPlaced(v, c.offset, im);
    TlsLayout.PlaceKeeps(v, ms, c.offset, c.align, TlsLayout.Module(im, TlsLayout.LibraryOffset(v, c.offset, im)));
    TlsLayout.MaxP2IsMax(c.align, im.align);
  }

  class Linker {
    const head: Dso
    const ldso: Dso
    const variant: TlsLayout.Variant
    var tail: Dso
    var symsTail: Dso
    var lazyHead: Dso?
    var tlsHead: Dso?
    var tlsTail: Dso?
    var tls: Counters
    ghost var chain: seq<Dso>
    ghost var syms: seq<Dso>
    ghost var mods: seq<Dso>

    ghost predicate Valid()
      reads this, chain`next, chain`prev, chain`symsNext, syms`symsNext, mods`tlsNext
      reads ldso`next, ldso`prev, ldso`symsNext
    {
      && Chained(head, tail, ldso, chain) && (ldso !in chain ==> ldso.next == null)
      && SymChain(head, symsTail, syms, All(chain, ldso)) && Within(syms, chain)
      && TlsList(tlsHead, tlsTail, mods) && Within(mods, chain)
    }

    /** At program start the application is the only object. */
    constructor (head: Dso, ldso: Dso, variant: TlsLayout.Variant, minAlign: nat)
      requires head != ldso && head.next == null && head.symsNext == null
      requires ldso.next == ldso.prev == ldso.symsNext == null
      ensures Valid() && chain == [head] && syms == [head] && mods == [] && lazyHead == null
      ensures this.head == head && this.ldso == ldso
    {
      this.head, this.ldso, this.variant := head, ldso, variant;
      tail, symsTail, lazyHead, tlsHead, tlsTail := head, head, null, null, null;
      tls := Counters(0, 0, minAlign);
      chain, syms, mods := [head], [head], [];
    }

    /** Put an object at the end of the chain. */
    method Append(p: Dso)
      requires Valid() && p !in chain && p.next == null && p.symsNext == null
      modifies this`tail, this`chain, tail`next, p`prev
      ensures Valid() && chain == old(chain) + [p] && tail == p
    {
      hide Chained, SymChain, TlsList;
      ChainFacts(head, tail, ldso, chain);
      KnowMore(head, symsTail, syms, All(chain, ldso), All(chain, ldso) + {p});
      AppendChain(p, tail, head, ldso, chain);
      tail, chain := p, chain + [p];
      assert All(chain, ldso) == old(All(chain, ldso)) + {p};
    }

    /** A library that is not loaded yet, with or without TLS. */
    method Load(image: Option<TlsLayout.Image>) returns (p: Dso)
      requires Valid() && (image.Some? ==> image.value.align > 0)
      modifies this`tail, this`chain, this`tls, this`tlsHead, this`tlsTail, this`mods, tail`next, mods`tlsNext
      ensures Valid() && fresh(p) && !p.relocated && chain == old(chain) + [p]
      ensures mods == old(mods) + if image.Some? then [p] else []
      ensures tls == if image.Some? then old(tls).Place(variant, image.value) else old(tls)
    {
      hide Chained, SymChain, TlsList;
      p := new Dso();
      Append(p);
      if image.Some? { AddTls(p, tls.Place(variant, image.value)); }
    }

    method AddTls(p: Dso, placed: Counters)
      requires Valid() && p in chain && p !in mods && p.tlsNext == null
      modifies this`tls, this`tlsHead, this`tlsTail, this`mods, mods`tlsNext
      ensures Valid() && mods == old(mods) + [p] && tls == placed
    {
      hide Chained, SymChain, TlsList;
      ghost var known := All(chain, ldso);
      tlsHead := AppendTls(p, tlsHead, tlsTail, mods);
      tls, tlsTail, mods := placed, p, mods + [p];
      assert All(chain, ldso) == known;
    }

    /** A name that means the linker itself. */
    method LoadLibc()
      requires Valid()
      modifies this`tail, this`chain, tail`next, ldso`prev
      ensures Valid() && chain == old(chain) + if old(ldso in chain) then [] else [ldso]
      ensures ldso in chain
    {
      hide Chained, TlsList;
      ChainFacts(head, tail, ldso, chain);
      if ldso.prev == null {
        assert ldso !in syms;
        assert ldso.symsNext == null;
        hide SymChain;
        Append(ldso);
      }
    }

    /** The `k`-th object of the chain, if it is that long. */
    method Nth(k: nat) returns (p: Dso?)
      requires Valid()
      ensures p == At(chain, k)
    {
      hide SymChain, TlsList, All, Within;
      p := head;
      var i := 0;
      while i < k && p != null
        invariant i <= k && p == At(chain, i)
      {
        p, i := p.next, i + 1;
      }
    }

    /** Make an object's symbols global. */
    method MakeGlobal(p: Dso)
      requires Valid() && p in chain
      modifies this`symsTail, this`syms, symsTail`symsNext
      ensures Valid() && syms == old(syms) + if p in old(syms) then [] else [p]
    {
      hide Chained, SymChain, TlsList;
      symsTail, syms := AddSyms(p, symsTail, head, syms, All(chain, ldso));
    }

    /** A local opening: symbols made global for its relocations, then taken back. */
    method PublishBriefly(ats: seq<nat>)
      requires Valid()
      modifies this`symsTail, this`syms, chain`symsNext
      ensures Valid() && syms == old(syms) && symsTail == old(symsTail)
    {
      hide Chained, SymChain, TlsList, Chain;
      var oldTail := symsTail;
      ghost var syms0 := syms;
      TailLast(head, symsTail, syms, All(chain, ldso));
      for i := 0 to |ats|
        invariant Valid() && syms0 <= syms
      {
        TailLast(head, symsTail, syms, All(chain, ldso));
        var p := Nth(ats[i]);
        if p != null { MakeGlobal(p); }
      }
      RevertSymsTo(oldTail, head, symsTail, ldso, syms, syms0, chain, chain);
      symsTail, syms := oldTail, syms0;
    }

    ghost function Now(): Lists
      reads this`chain, this`syms, this`mods
    {
      Lists(chain, syms, mods)
    }

    /** Undo everything since `saved` was taken.  Returns the objects given up, in chain order. */
    method Rollback(saved: Saved, ghost before: Lists) returns (freed: seq<Dso>)
      requires Valid() && Earlier(saved, Now(), before)
      modifies this, chain`next, syms`symsNext, mods`tlsNext
      ensures freed == old(chain)[|before.chain|..] && forall d :: d in freed ==> d !in before.chain
      ensures Now() == before && Saved(tail, symsTail, lazyHead, tlsTail, tls) == saved
      ensures Linked(head, tail, chain) && SymChain(head, symsTail, syms, All(chain, ldso))
      ensures TlsList(tlsHead, tlsTail, mods)
      ensures Valid() <==> ldso in before.chain || ldso !in old(chain)
    {
      hide Linked, SymChain, TlsList, Within;
      ChainFacts(head, tail, ldso, chain);
      var tlsHead';
      tlsHead', freed := CutBack(saved, tlsHead, head, ldso, Saved(tail, symsTail, lazyHead, tlsTail, tls), Now(), before);
      Restore(saved, tlsHead', before);
    }

    method Restore(saved: Saved, tlsHead: Dso?, ghost before: Lists)
      modifies this`tail, this`symsTail, this`lazyHead, this`tlsHead, this`tlsTail, this`tls
      modifies this`chain, this`syms, this`mods
      ensures Now() == before && Saved(tail, symsTail, lazyHead, tlsTail, tls) == saved && this.tlsHead == tlsHead
    {
      this.tlsHead, tail, symsTail := tlsHead, saved.tail, saved.symsTail;
      tlsTail, tls, lazyHead := saved.tlsTail, saved.tls, saved.lazyHead;
      chain, syms, mods := before.chain, before.syms, before.mods;
    }

    ghost function Unrelocated(): set<Dso>
      reads this`chain, chain`relocated
    {
      set d | d in chain && !d.relocated
    }

    method Defer(at: nat)
      requires Valid()
      modifies this`lazyHead, Unrelocated()`lazy, Unrelocated()`lazyNext
      ensures Valid()
    {
      hide Chained, SymChain, TlsList, Within, Chain, LazyOpen.Room;
      var p := Nth(at);
      if p != null && !p.relocated { lazyHead := LazyOpen.PrepareLazy(p, lazyHead); }
    }

    method Publicize(at: nat)
      requires Valid()
      modifies this`symsTail, this`syms, symsTail`symsNext
      ensures Valid() && old(syms) <= syms
    {
      hide Chained, SymChain, TlsList, Within, Chain;
      var p := Nth(at);
      if p != null { MakeGlobal(p); }
    }

    /** One step of an opening. */
    method Perform(step: Step)
      requires Valid() && step.Sound()
      modifies this, chain`next, syms`symsNext, mods`tlsNext, ldso`prev, Unrelocated()`lazy, Unrelocated()`lazyNext
      ensures Valid() && old(chain) <= chain && old(syms) <= syms && old(mods) <= mods
      ensures forall d :: d in chain && d !in old(chain) ==> d == ldso || fresh(d)
      ensures ldso in chain <==> ldso in old(chain) || step.NeedSelf?
    {
      hide Chained, SymChain, TlsList, Within, Chain;
      ChainFacts(head, tail, ldso, chain);
      TailLast(head, symsTail, syms, All(chain, ldso));
      match step
      case MapLibrary(image) =>
        var p := Load(image);
      case NeedSelf =>
        LoadLibc();
      case DeferFor(at) =>
        Defer(at);
      case Publish(at) =>
        Publicize(at);
    }

    /** What an opening in progress keeps, whatever steps it takes. */
    ghost predicate Opening(saved: Saved, before: Lists, broken: bool, lazies: seq<Dso>)
      reads this, before.chain`relocated, lazies`lazyNext
      reads chain`next, chain`prev, chain`symsNext, syms`symsNext, mods`tlsNext
      reads ldso`next, ldso`prev, ldso`symsNext
    {
      && Valid() && Earlier(saved, Now(), before)
      && (forall d :: d in before.chain ==> d.relocated)
      && LazyOpen.Joined(saved.lazyHead, broken, lazies) && Within(lazies, before.chain)
    }

    method RunSteps(steps: seq<Step>, ghost saved: Saved, ghost before: Lists, ghost broken: bool, ghost lazies: seq<Dso>)
      requires Opening(saved, before, broken, lazies) && Now() == before && forall i :: 0 <= i < |steps| ==> steps[i].Sound()
      modifies this, chain`next, chain`symsNext, chain`tlsNext, ldso
      ensures Opening(saved, before, broken, lazies)
      ensures ldso in chain <==> ldso in before.chain || NeedSelf in steps
      ensures forall d :: d in chain ==> d in before.chain || d == ldso || fresh(d)
    {
      hide Chained, SymChain, TlsList, LazyOpen.Joined, Chain, Earlier;
      for i := 0 to |steps|
        invariant Opening(saved, before, broken, lazies)
        invariant ldso in chain <==> ldso in before.chain || NeedSelf in steps[..i]
        invariant forall d :: d in chain ==> d in before.chain || d == ldso || fresh(d)
      {
        ghost var now := Now();
        assert Within(chain, chain);
        assert NeedSelf in steps[..i + 1] <==> NeedSelf in steps[..i] || steps[i] == NeedSelf;
        Perform(steps[i]);
        EarlierStill(saved, now, Now(), before);
      }
      assert steps[..|steps|] == steps;
    }

    /** An opening that fails after any steps.  Everything is as before, except that a linker object
        first needed by the failed opening keeps a predecessor although it is on no chain. */
    method FailedDlopen(steps: seq<Step>, ghost broken: bool, ghost lazies: seq<Dso>) returns (freed: seq<Dso>)
      requires Valid() && LazyOpen.Joined(lazyHead, broken, lazies) && Within(lazies, chain)
      requires (forall d :: d in chain ==> d.relocated) && forall i :: 0 <= i < |steps| ==> steps[i].Sound()
      modifies this, chain`next, chain`symsNext, chain`tlsNext, ldso
      ensures Now() == old(Now())
      ensures Saved(tail, symsTail, lazyHead, tlsTail, tls) == old(Saved(tail, symsTail, lazyHead, tlsTail, tls))
      ensures Linked(head, tail, chain) && SymChain(head, symsTail, syms, All(chain, ldso))
      ensures TlsList(tlsHead, tlsTail, mods) && LazyOpen.Joined(lazyHead, broken, lazies)
      ensures forall d :: d in freed ==> d == ldso || fresh(d)
      ensures Valid() <==> old(ldso.prev) != null || NeedSelf !in steps
      // the object given up with the others was never allocated
      ensures ldso in freed <==> old(ldso.prev) == null && NeedSelf in steps
    {
      hide Linked, SymChain, TlsList, LazyOpen.Joined, Chain;
      ChainFacts(head, tail, ldso, chain);
      ghost var before := Now();
      var saved := Saved(tail, symsTail, lazyHead, tlsTail, tls);
      NowEarlier(saved);
      hide Chained;
      RunSteps(steps, saved, before, broken, lazies);
      assert Within(chain, chain);
      freed := Rollback(saved, before);
    }

    lemma NowEarlier(saved: Saved)
      requires Valid() && saved == Saved(tail, symsTail, lazyHead, tlsTail, tls)
      ensures Earlier(saved, Now(), Now())
    {
    }
  }

  /** The steps of an opening that touch the lists; objects are named by their place on the chain. */
  datatype Step =
    | MapLibrary(image: Option<TlsLayout.Image>)
    | NeedSelf
    | DeferFor(at: nat)
    | Publish(at: nat)
  {
    /** Alignments are not zero. */
    predicate Sound() {
      MapLibrary? && image.Some? ==> image.value.align > 0
    }
  }

  /** The pieces of linker state `dlopen` saves before it starts. */
  datatype Saved = Saved(tail: Dso, symsTail: Dso, lazyHead: Dso?, tlsTail: Dso?, tls: Counters)

  /** Cut every list back to what it was when `saved` was taken. */
  method CutBack(saved: Saved, tlsHead: Dso?, ghost head: Dso, ghost ldso: Dso, ghost now: Saved, ghost a: Lists,
                 ghost b: Lists)
    returns (tlsHead': Dso?, freed: seq<Dso>)
    requires Linked(head, now.tail, a.chain) && SymChain(head, now.symsTail, a.syms, All(a.chain, ldso))
    requires TlsList(tlsHead, now.tlsTail, a.mods) && Earlier(saved, a, b)
    modifies a.chain`next, a.syms`symsNext, a.mods`tlsNext
    ensures freed == a.chain[|b.chain|..] && forall d :: d in freed ==> d !in b.chain
    ensures Linked(head, saved.tail, b.chain) && SymChain(head, saved.symsTail, b.syms, All(b.chain, ldso))
    ensures TlsList(tlsHead', saved.tlsTail, b.mods)
  {
    hide Linked, SymChain, TlsList, Within;
    RevertSymsTo(saved.symsTail, head, now.symsTail, ldso, a.syms, b.syms, a.chain, b.chain);
    freed := CutChainTo(saved.tail, head, now.tail, a.chain, b.chain);
    tlsHead' := CutTls(tlsHead, saved.tlsTail, now.tlsTail, a.mods, b.mods);
  }

  /** The objects on each list. */
  datatype Lists = Lists(chain: seq<Dso>, syms: seq<Dso>, mods: seq<Dso>)

  /** `b` is where the lists `a` stood when `saved` was taken. */
  ghost predicate Earlier(saved: Saved, a: Lists, b: Lists) {
    && b.chain != [] && b.chain <= a.chain && b.chain[|b.chain| - 1] == saved.tail
    && b.syms != [] && b.syms <= a.syms && b.syms[|b.syms| - 1] == saved.symsTail && Within(b.syms, b.chain)
    && b.mods <= a.mods && saved.tlsTail == (if b.mods == [] then null else b.mods[|b.mods| - 1])
    && Within(b.mods, b.chain)
  }

  lemma EarlierStill(saved: Saved, a: Lists, a': Lists, b: Lists)
    requires Earlier(saved, a, b) && a.chain <= a'.chain && a.syms <= a'.syms && a.mods <= a'.mods
    ensures Earlier(saved, a', b)
  {
  }

  /** The exception is real: the first opening to need the linker's object, if it fails, spoils it. */
  method SelfKeepsPredecessor() returns (linker: Linker)
    ensures !linker.Valid()
  {
    var app := new Dso();
    var self := new Dso();
    app.relocated := true;
    linker := new Linker(app, self, TlsLayout.BelowTp, 16);
    assert Within([], linker.chain) && LazyOpen.Joined(linker.lazyHead, false, []);
    var freed := linker.FailedDlopen([NeedSelf], false, []);
  }
}
