/** A loaded object, with the fields the linker's algorithms update in place. */
module Dsos {
  import opened Graph

  class Dso {
    /** The chain of all loaded objects. */
    var next: Dso?
    var prev: Dso?
    /** Dependencies: the first `ndepsDirect` are the object's own, the rest were appended. */
    var deps: seq<Dso>
    var ndepsDirect: nat
    var bfsBuilt: bool
    /** Scratch fields of the graph algorithms. */
    var mark: bool
    var nextDep: nat
    /** The chain of objects whose symbols are global. */
    var symsNext: Dso?
    /** Relocations put off until their symbols appear: `lazyCnt` triples of words. */
    var lazyNext: Dso?
    var lazy: array?<nat>
    var lazyCnt: nat
    /** The list of objects with thread-local storage. */
    var tlsNext: Dso?
    var relocated: bool
    /** Asks for all its symbols when it is loaded. */
    var bindNow: bool
    /** The sizes in bytes of its relocation tables: for slots, of pairs and of triples. */
    var pltSize: nat
    var relSize: nat
    var relaSize: nat
    /** Load address. */
    var base: nat

    /** A freshly mapped object, before it joins any list. */
    constructor ()
      ensures next == prev == symsNext == lazyNext == tlsNext == null
      ensures lazy == null && lazyCnt == 0 && !relocated && deps == [] && ndepsDirect == 0
    {
      next, prev, symsNext, lazyNext, tlsNext := null, null, null, null, null;
      lazy, lazyCnt, relocated := null, 0, false;
      deps, ndepsDirect, bfsBuilt, mark, nextDep := [], 0, false, false, 0;
    }
  }

  /** The object at position `k` of a list, or the end of it. */
  function At(list: seq<Dso>, k: nat): Dso? {
    if k < |list| then list[k] else null
  }

  /** `all` is the chain that starts at `head`, in order. */
  ghost predicate Chain(head: Dso, all: seq<Dso>)
    reads all`next
  {
    && all != [] && all[0] == head && Distinct(all)
    && (forall i :: 0 <= i < |all| - 1 ==> all[i].next == all[i + 1])
    && all[|all| - 1].next == null
  }

  /** `g` records the direct dependencies of every loaded object, and those are loaded too. */
  ghost predicate Loaded(g: Graph<Dso>)
    reads g.Keys`deps, g.Keys`ndepsDirect
  {
    && Closed(g)
    && forall d :: d in g ==> d.ndepsDirect <= |d.deps| && d.deps[..d.ndepsDirect] == g[d]
  }

  /** Clears the marks of every object on the chain, counting them. */
  method ClearChain(head: Dso, ghost all: seq<Dso>) returns (cnt: nat)
    requires Chain(head, all)
    modifies all`mark
    ensures cnt == |all| && forall d :: d in all ==> !d.mark
  {
    cnt := 0;
    var p: Dso? := head;
    while p != null
      invariant cnt <= |all| && p == if cnt < |all| then all[cnt] else null
      invariant forall i :: 0 <= i < cnt ==> !all[i].mark
      decreases |all| - cnt
    {
      p.mark := false;
      cnt, p := cnt + 1, p.next;
    }
  }
}
