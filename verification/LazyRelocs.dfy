/** Relocations deferred until their symbols appear.

    Each object keeps an array of word triples for the relocations it could not resolve.  When
    libraries have been added, every object's array is gone over again: the array being read is
    also the array the still unresolved triples are stored back into.
 */
module LazyRelocs {
  import opened Common
  import opened Dsos
  import opened Graph

  // ------------------------------------------------------------------- triples of words

  /** One relocation: where to store, which symbol and how, and what to add; with `inPlace`, what is to be
      added is in the word to be overwritten. */
  datatype Entry = Entry(offset: nat, info: nat, addend: nat, inPlace: bool)

  function EntryAt(words: seq<nat>, i: nat): Entry
    requires 3 * i + 3 <= |words|
  {
    Entry(words[3 * i], words[3 * i + 1], words[3 * i + 2], false)
  }

  /** An entry of a table of triples, or of pairs.  A pair for a slot has nothing to be added. */
  function EntryIn(words: seq<nat>, i: nat, pairs: bool): Entry
    requires Size(pairs, i + 1) <= |words|
  {
    if pairs then Entry(words[2 * i], words[2 * i + 1], 0, !Deferrable(words[2 * i + 1])) else EntryAt(words, i)
  }

  /** The words of `n` entries. */
  function Size(pairs: bool, n: nat): nat {
    if pairs then 2 * n else 3 * n
  }

  ghost function Table(words: seq<nat>, n: nat, pairs: bool): (r: seq<Entry>)
    requires Size(pairs, n) <= |words|
    ensures |r| == n
  {
    seq(n, i requires 0 <= i < n => EntryIn(words, i, pairs))
  }

  ghost function Entries(words: seq<nat>, n: nat): (r: seq<Entry>)
    requires 3 * n <= |words|
  {
    seq(n, i requires 0 <= i < n => EntryAt(words, i))
  }

  /** The words after storing `e` as triple `k`. */
  function Stored(words: seq<nat>, k: nat, e: Entry): seq<nat>
    requires 3 * k + 3 <= |words|
  {
    words[3 * k := e.offset][3 * k + 1 := e.info][3 * k + 2 := e.addend]
  }

  lemma StoredEntries(words: seq<nat>, k: nat, e: Entry)
    requires 3 * k + 3 <= |words| && !e.inPlace
    ensures |Stored(words, k, e)| == |words|
    ensures Entries(Stored(words, k, e), k + 1) == Entries(words, k) + [e]
    ensures forall j :: k < j && 3 * j + 3 <= |words| ==> EntryAt(Stored(words, k, e), j) == EntryAt(words, j)
  {
    var after := Stored(words, k, e);
    forall j | 0 <= j && j != k && 3 * j + 3 <= |words| ensures EntryAt(after, j) == EntryAt(words, j) {
    }
    assert EntryAt(after, k) == e;
  }

  // ------------------------------------------------------------------- what must come out

  const NONE: nat := 0
  const SYMBOLIC: nat := 1
  const GOT: nat := 6
  const PLT: nat := 7
  const RELATIVE: nat := 8

  /** A 64-bit object's relocation type; the symbol's index is above it. */
  function Type(info: nat): nat {
    info % 0x8000_0000
  }

  function SymIndex(info: nat): nat {
    info / 0x1_0000_0000
  }

  predicate Deferrable(info: nat) {
    Type(info) == GOT || Type(info) == PLT
  }

  /** The types that store symbol plus addend, or base plus addend. */
  predicate Plain(info: nat) {
    Deferrable(info) || Type(info) == SYMBOLIC || Type(info) == RELATIVE || Type(info) == NONE
  }

  /** What symbol lookup gives one object for each `info` word: an address (0 for an undefined weak
      symbol), or nothing for a symbol it must have and cannot find.  With it comes what the types that
      are not plain do to memory, and which of them are refused: unknown ones, and thread-local offsets
      into storage that is not static (of which there is none at start-up). */
  datatype Symbols = Symbols(find: nat -> Option<nat>,
                             refuses: Entry -> bool,
                             store: (Entry, map<nat, nat>) -> map<nat, nat>)

  predicate Missing(e: Entry, symbols: Symbols) {
    Type(e.info) != NONE && SymIndex(e.info) != 0 && symbols.find(e.info).None?
  }

  /** The relocation is put off, given an array for such. */
  predicate Postponed(e: Entry, symbols: Symbols) {
    Missing(e, symbols) && Deferrable(e.info)
  }

  /** The relocations put off, in their order. */
  function Leftover(es: seq<Entry>, symbols: Symbols): seq<Entry> {
    if es == [] then [] else
      var e := es[|es| - 1];
      Leftover(es[..|es| - 1], symbols) + if Postponed(e, symbols) then [e] else []
  }

  predicate Resolved(e: Entry, symbols: Symbols) {
    Type(e.info) != NONE && (SymIndex(e.info) == 0 || symbols.find(e.info).Some?)
  }

  /** What the sum starts from: the symbol, nothing without one, or the object's own address. */
  function Origin(e: Entry, symbols: Symbols, base: nat): nat
    requires Resolved(e, symbols)
  {
    if Type(e.info) == RELATIVE then base else if SymIndex(e.info) == 0 then 0 else symbols.find(e.info).value
  }

  function Addend(e: Entry, slots: map<nat, nat>, base: nat): nat {
    if !e.inPlace then e.addend else if base + e.offset in slots then slots[base + e.offset] else 0
  }

  function Sum(e: Entry, symbols: Symbols, slots: map<nat, nat>, base: nat): nat
    requires Resolved(e, symbols)
  {
    (Origin(e, symbols, base) + Addend(e, slots, base)) % 0x1_0000_0000_0000_0000
  }

  /** Memory after one relocation. */
  function Applied(e: Entry, symbols: Symbols, slots: map<nat, nat>, base: nat): map<nat, nat> {
    if !Resolved(e, symbols) then slots
    else if Plain(e.info) then slots[base + e.offset := Sum(e, symbols, slots, base)]
    else if symbols.refuses(e) then slots
    else symbols.store(e, slots)
  }

  /** Memory after the resolvable relocations were stored, in order. */
  function Patched(slots: map<nat, nat>, base: nat, es: seq<Entry>, symbols: Symbols): map<nat, nat> {
    if es == [] then slots
    else Applied(es[|es| - 1], symbols, Patched(slots, base, es[..|es| - 1], symbols), base)
  }

  /** Whatever memory holds, the relocation leaves the word at `a` alone. */
  ghost predicate Spares(e: Entry, symbols: Symbols, base: nat, a: nat) {
    forall m: map<nat, nat> {:trigger Applied(e, symbols, m, base)} ::
      && (a in Applied(e, symbols, m, base) <==> a in m)
      && (a in m ==> Applied(e, symbols, m, base)[a] == m[a])
  }

  lemma {:induction false} LeftoverLength(es: seq<Entry>, symbols: Symbols)
    ensures |Leftover(es, symbols)| <= |es|
  {
    if es == [] {
    } else {
      LeftoverLength(es[..|es| - 1], symbols);
    }
  }

  /** Exactly those for slots of types 6 and 7 whose symbol is missing are left. */
  lemma {:induction false} LeftoverMembers(es: seq<Entry>, symbols: Symbols, e: Entry)
    ensures e in Leftover(es, symbols) <==>
      && e in es && e.info % 0x8000_0000 in {6, 7}
      && e.info / 0x1_0000_0000 != 0 && symbols.find(e.info).None?
  {
    if es == [] {
    } else {
      LeftoverMembers(es[..|es| - 1], symbols, e);
      assert es == es[..|es| - 1] + [es[|es| - 1]];
    }
  }

  lemma {:induction false} StoredSum(slots: map<nat, nat>, base: nat, es: seq<Entry>, symbols: Symbols, i: nat)
    requires i < |es| && Resolved(es[i], symbols) && Plain(es[i].info)
    requires forall j :: i < j < |es| ==> Spares(es[j], symbols, base, base + es[i].offset)
    ensures base + es[i].offset in Patched(slots, base, es, symbols)
    ensures Patched(slots, base, es, symbols)[base + es[i].offset] ==
      Sum(es[i], symbols, Patched(slots, base, es[..i], symbols), base)
  {
    var n := |es| - 1;
    if i >= n {
    } else {
      StoredSum(slots, base, es[..n], symbols, i);
      assert es[..n][..i] == es[..i];
    }
  }

  /** The slot of entry `i` of a table, once all is done, unless a later entry stores to it again: base plus
      addend for type 8, symbol plus addend for types 1, 6 and 7, where no symbol counts as 0.  The addend is
      the third word of a triple; for a pair it is 0 for types 6 and 7, and otherwise what memory held. */
  lemma PatchedSlot(slots: map<nat, nat>, base: nat, words: seq<nat>, n: nat, pairs: bool, symbols: Symbols, i: nat)
    requires Size(pairs, n) <= |words| && i < n
    requires forall j :: i < j < n ==> Spares(EntryIn(words, j, pairs), symbols, base, base + words[Size(pairs, i)])
    requires words[Size(pairs, i) + 1] % 0x8000_0000 in {1, 6, 7, 8}
    requires words[Size(pairs, i) + 1] / 0x1_0000_0000 != 0 ==> symbols.find(words[Size(pairs, i) + 1]).Some?
    ensures var at, info := base + words[Size(pairs, i)], words[Size(pairs, i) + 1];
      var kind, sym, before := info % 0x8000_0000, info / 0x1_0000_0000, Patched(slots, base, Table(words, i, pairs), symbols);
      var value := if kind == 8 then base else if sym == 0 then 0 else symbols.find(info).value;
      && at in Patched(slots, base, Table(words, n, pairs), symbols)
      && var after := Patched(slots, base, Table(words, n, pairs), symbols)[at];
      && (!pairs ==> after == (value + words[3 * i + 2]) % 0x1_0000_0000_0000_0000)
      && (pairs && kind in {6, 7} ==> after == value % 0x1_0000_0000_0000_0000)
      && (pairs && kind in {1, 8} && at in before ==> after == (value + before[at]) % 0x1_0000_0000_0000_0000)
  {
    hide Spares, Patched;
    var es := Table(words, n, pairs);
    assert es[..i] == Table(words, i, pairs);
    StoredSum(slots, base, es, symbols, i);
  }

  /** An entry can be done or put off: a missing symbol only for types 6 and 7 and with room; other types than
      these, 0, 1 and 8 only if they are not refused. */
  lemma PossibleMeaning(e: Entry, symbols: Symbols, lazy: bool)
    ensures Possible(e, symbols, lazy) <==>
      var kind := e.info % 0x8000_0000;
      if kind != 0 && e.info / 0x1_0000_0000 != 0 && symbols.find(e.info).None? then lazy && kind in {6, 7}
      else kind in {0, 1, 6, 7, 8} || !symbols.refuses(e)
  {
  }

  /** A plain relocation changes its own slot only. */
  lemma PlainSpares(e: Entry, symbols: Symbols, base: nat, a: nat)
    requires Plain(e.info) && base + e.offset != a
    ensures Spares(e, symbols, base, a)
  {
  }

  /** Nothing else in memory changes. */
  lemma {:induction false} PatchedElsewhere(slots: map<nat, nat>, base: nat, es: seq<Entry>, symbols: Symbols, a: nat)
    requires forall j :: 0 <= j < |es| ==> Spares(es[j], symbols, base, a)
    ensures a in Patched(slots, base, es, symbols) <==> a in slots
    ensures a in slots ==> Patched(slots, base, es, symbols)[a] == slots[a]
  {
    if es == [] {
    } else {
      PatchedElsewhere(slots, base, es[..|es| - 1], symbols, a);
    }
  }

  // ------------------------------------------------------------------- one table

  ghost predicate Fits(p: Dso)
    reads p`lazy, p`lazyCnt
  {
    p.lazy != null && 3 * p.lazyCnt <= p.lazy.Length
  }

  ghost function Deferred(p: Dso): seq<Entry>
    requires Fits(p)
    reads p`lazy, p`lazyCnt, p.lazy
  {
    Entries(p.lazy[..], p.lazyCnt)
  }

  /** Store one unresolved relocation at the end of the object's array. */
  method Defer(p: Dso, e: Entry)
    requires p.lazy != null && 3 * p.lazyCnt + 3 <= p.lazy.Length
    modifies p`lazyCnt, p.lazy
    ensures p.lazyCnt == old(p.lazyCnt) + 1
    ensures p.lazy[..] == Stored(old(p.lazy[..]), old(p.lazyCnt), e)
  {
    var lazy := p.lazy;
    lazy[3 * p.lazyCnt] := e.offset;
    lazy[3 * p.lazyCnt + 1] := e.info;
    lazy[3 * p.lazyCnt + 2] := e.addend;
    p.lazyCnt := p.lazyCnt + 1;
  }

  /** Can the relocation be put off if its symbol is missing, or else done? */
  predicate Possible(e: Entry, symbols: Symbols, lazy: bool) {
    if Missing(e, symbols) then lazy && Deferrable(e.info) else Plain(e.info) || !symbols.refuses(e)
  }

  ghost predicate AllPossible(es: seq<Entry>, symbols: Symbols, lazy: bool) {
    forall i :: 0 <= i < |es| ==> Possible(es[i], symbols, lazy)
  }

  /** The entries of `rel` not read yet. */
  ghost predicate Unread(rel: seq<nat>, pairs: bool, es: seq<Entry>, i: nat) {
    Size(pairs, |es|) <= |rel| && forall j :: i <= j < |es| ==> EntryIn(rel, j, pairs) == es[j]
  }

  /** How far a pass over the table has come. */
  ghost predicate Passed(p: Dso, rel: array<nat>, pairs: bool, es: seq<Entry>, i: nat, symbols: Symbols, already: seq<Entry>)
    requires i <= |es|
    reads p`lazy, p`lazyCnt, p.lazy, rel
  {
    && Unread(rel[..], pairs, es, i)
    && (p.lazy != null ==> Fits(p) && Deferred(p) == already + Leftover(es[..i], symbols))
  }

  lemma LeftoverNext(es: seq<Entry>, i: nat, symbols: Symbols)
    requires i < |es|
    ensures Leftover(es[..i + 1], symbols) == Leftover(es[..i], symbols) + if Postponed(es[i], symbols) then [es[i]] else []
  {
    assert es[..i + 1][..i] == es[..i];
  }

  lemma PatchedNext(slots: map<nat, nat>, base: nat, es: seq<Entry>, i: nat, symbols: Symbols)
    requires i < |es|
    ensures Patched(slots, base, es[..i + 1], symbols) ==
      Applied(es[i], symbols, Patched(slots, base, es[..i], symbols), base)
  {
    assert es[..i + 1][..i] == es[..i];
  }

  /** Put off entry `i`: the store lands at or before the entry just read. */
  method DeferNext(p: Dso, rel: array<nat>, pairs: bool, i: nat, symbols: Symbols, ghost es: seq<Entry>, ghost already: seq<Entry>)
    requires i < |es| && Passed(p, rel, pairs, es, i, symbols, already)
    requires p.lazy != null && 3 * (|already| + |es|) <= p.lazy.Length && (rel == p.lazy ==> already == [] && !pairs)
    requires Postponed(es[i], symbols)
    modifies p`lazyCnt, p.lazy
    ensures Passed(p, rel, pairs, es, i + 1, symbols, already)
  {
    hide Leftover, Missing;
    var e := EntryIn(rel[..], i, pairs);
    LeftoverLength(es[..i], symbols);
    LeftoverNext(es, i, symbols);
    ghost var words := p.lazy[..];
    StoredEntries(words, p.lazyCnt, e);
    assert p.lazyCnt == |Deferred(p)|;
    Defer(p, e);
    assert Deferred(p) == already + Leftover(es[..i + 1], symbols);
    assert Unread(rel[..], pairs, es, i + 1);
  }

  lemma SkipNext(p: Dso, rel: array<nat>, pairs: bool, i: nat, symbols: Symbols, es: seq<Entry>, already: seq<Entry>)
    requires i < |es| && Passed(p, rel, pairs, es, i, symbols, already)
    requires p.lazy == null || !Postponed(es[i], symbols)
    ensures Passed(p, rel, pairs, es, i + 1, symbols, already)
  {
    hide Leftover, Postponed, Deferred;
    LeftoverNext(es, i, symbols);
  }

  /** Process entry `i`: store it, put it off, or report an error. */
  method RelocNext(p: Dso, rel: array<nat>, pairs: bool, i: nat, symbols: Symbols, slots: map<nat, nat>,
                   ghost es: seq<Entry>, ghost already: seq<Entry>)
    returns (ok: bool, patched: map<nat, nat>)
    requires i < |es| && Passed(p, rel, pairs, es, i, symbols, already)
    requires p.lazy != null ==> 3 * (|already| + |es|) <= p.lazy.Length
    requires rel == p.lazy ==> already == [] && !pairs
    modifies p`lazyCnt, p.lazy
    ensures ok <==> Possible(es[i], symbols, p.lazy != null)
    ensures Passed(p, rel, pairs, es, i + 1, symbols, already)
    ensures patched == Applied(es[i], symbols, slots, p.base)
    ensures p.lazy == null ==> p.lazyCnt == old(p.lazyCnt)
  {
    hide Deferrable, Deferred, Leftover;
    ok, patched := true, slots;
    var e := EntryIn(rel[..], i, pairs);
    assert e == es[i];
    hide Passed, EntryIn;
    if Type(e.info) == NONE {
      SkipNext(p, rel, pairs, i, symbols, es, already);
      return;
    }
    var addend := Addend(e, slots, p.base);
    var value: nat := 0;
    if SymIndex(e.info) != 0 {
      match symbols.find(e.info)
      case None =>
        if p.lazy == null || !Deferrable(e.info) {
          SkipNext(p, rel, pairs, i, symbols, es, already);
          ok := false;
        } else {
          DeferNext(p, rel, pairs, i, symbols, es, already);
        }
        return;
      case Some(v) =>
        value := v;
    }
    SkipNext(p, rel, pairs, i, symbols, es, already);
    if !Plain(e.info) && symbols.refuses(e) {
      ok := false;
      return;
    }
    if Plain(e.info) {
      var sum := if Type(e.info) == RELATIVE then p.base + addend else value + addend;
      patched := slots[p.base + e.offset := sum % 0x1_0000_0000_0000_0000];
    } else {
      patched := symbols.store(e, slots);
    }
  }

  /** One table of relocations, `es`.  `rel` may be the object's own array of deferred ones.  At start-up an
      error is reported and the rest done all the same; at run time it ends the opening. */
  method DoRelocs(p: Dso, rel: array<nat>, n: nat, pairs: bool, symbols: Symbols, slots: map<nat, nat>, runtime: bool,
                  ghost es: seq<Entry>, ghost already: seq<Entry>)
    returns (ok: bool, patched: map<nat, nat>)
    requires Size(pairs, n) <= rel.Length && es == Table(rel[..], n, pairs)
    requires p.lazy != null ==> 3 * (p.lazyCnt + n) <= p.lazy.Length && already == Deferred(p)
    requires rel == p.lazy ==> p.lazyCnt == 0 && !pairs
    modifies p`lazyCnt, p.lazy
    ensures ok <==> AllPossible(es, symbols, p.lazy != null)
    ensures ok || !runtime ==> patched == Patched(slots, p.base, es, symbols)
    ensures (ok || !runtime) && p.lazy != null ==> Fits(p) && Deferred(p) == already + Leftover(es, symbols)
    ensures p.lazy == null ==> p.lazyCnt == old(p.lazyCnt)
  {
    hide *;
    ok, patched := true, slots;
    PassStart(p, rel, n, pairs, es, symbols, already, slots);
    for i := 0 to n
      invariant Passed(p, rel, pairs, es, i, symbols, already)
      invariant p.lazy == null ==> p.lazyCnt == old(p.lazyCnt)
      invariant patched == Patched(slots, p.base, es[..i], symbols)
      invariant ok <==> AllPossible(es[..i], symbols, p.lazy != null)
      invariant ok || !runtime
    {
      PatchedNext(slots, p.base, es, i, symbols);
      PossibleNext(es, i, symbols, p.lazy != null);
      var done;
      done, patched := RelocNext(p, rel, pairs, i, symbols, patched, es, already);
      if !done {
        ok := false;
        if runtime { return; }
      }
    }
    PassEnd(p, rel, pairs, es, symbols, already);
    assert es[..n] == es;
  }

  lemma PossibleNext(es: seq<Entry>, i: nat, symbols: Symbols, lazy: bool)
    requires i < |es|
    ensures AllPossible(es[..i + 1], symbols, lazy) <==> AllPossible(es[..i], symbols, lazy) && Possible(es[i], symbols, lazy)
    ensures AllPossible(es, symbols, lazy) ==> Possible(es[i], symbols, lazy)
  {
    hide Possible;
    assert forall k :: 0 <= k < i ==> es[..i + 1][k] == es[..i][k];
    assert es[..i + 1][i] == es[i];
  }

  lemma PassEnd(p: Dso, rel: array<nat>, pairs: bool, es: seq<Entry>, symbols: Symbols, already: seq<Entry>)
    requires Passed(p, rel, pairs, es, |es|, symbols, already)
    ensures p.lazy != null ==> Fits(p) && Deferred(p) == already + Leftover(es, symbols)
  {
    hide Deferred, Leftover, Unread;
    assert es[..|es|] == es;
  }

  lemma PassStart(p: Dso, rel: array<nat>, n: nat, pairs: bool, es: seq<Entry>, symbols: Symbols, already: seq<Entry>,
                  slots: map<nat, nat>)
    requires Size(pairs, n) <= rel.Length && es == Table(rel[..], n, pairs)
    requires p.lazy != null ==> Fits(p) && already == Deferred(p)
    ensures |es| == n && Passed(p, rel, pairs, es, 0, symbols, already)
    ensures p.lazy != null ==> |already| == p.lazyCnt
    ensures slots == Patched(slots, p.base, es[..0], symbols) && AllPossible(es[..0], symbols, p.lazy != null)
  {
  }

  // ------------------------------------------------------------------- the list of objects

  /** `list` is the list of objects with deferred relocations that starts at `head`. */
  ghost predicate LazyList(head: Dso?, list: seq<Dso>)
    reads list`lazyNext
  {
    head == At(list, 0) && Distinct(list) && forall i :: 0 <= i < |list| ==> list[i].lazyNext == At(list, i + 1)
  }

  /** Following the links from `head` leads through `walk` and back into it. */
  ghost predicate Lasso(head: Dso?, walk: seq<Dso>)
    reads walk`lazyNext
  {
    && walk != [] && head == walk[0] && Distinct(walk)
    && (forall i :: 0 <= i < |walk| - 1 ==> walk[i].lazyNext == walk[i + 1])
    && exists k :: 0 <= k < |walk| && walk[|walk| - 1].lazyNext == walk[k]
  }

  /** So there is no list that starts at `head`. */
  lemma LassoIsNoList(head: Dso?, walk: seq<Dso>, s: seq<Dso>)
    requires Lasso(head, walk)
    ensures !LazyList(head, s)
  {
    if LazyList(head, s) {
      var n, i := |walk| - 1, 0;
      var k :| 0 <= k <= n && walk[n].lazyNext == walk[k];
      while i < n
        invariant i <= n && i < |s| && forall j :: 0 <= j <= i ==> s[j] == walk[j]
      {
        assert s[i].lazyNext == walk[i + 1] == At(s, i + 1);
        i := i + 1;
      }
    }
  }

  lemma InFront(p: Dso, head: Dso?, list: seq<Dso>)
    requires LazyList(head, list) && p !in list && p.lazyNext == head
    ensures LazyList(p, [p] + list)
  {
    var all := [p] + list;
    forall k | 0 <= k < |all| ensures all[k].lazyNext == At(all, k + 1) {
      if k > 0 { assert all[k] == list[k - 1]; }
    }
  }
}
