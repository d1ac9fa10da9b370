/** The memory of a new thread: one allocation holding its DTV, its descriptor and a copy of
    every static TLS module.  The allocation's size is computed long before its contents are
    laid out; `CopyTls` shows that the two computations agree in both architecture variants.
 */
module TlsThread {
  import opened Common
  import opened Words
  import opened TlsLayout

  /** `ALIGN(x, y)`: round up to a multiple of a power of two, by masks. */
  function AlignUp(x: nat, y: nat): nat {
    And((x + y - 1) % Pow2(64), Negate(y))
  }

  lemma AlignUpBounds(x: nat, y: nat)
    requires Alignment(y) && x + y <= Pow2(64)
    ensures x <= AlignUp(x, y) < x + y && y > 0 && AlignUp(x, y) % y == 0
  {
    hide Pow2, And, Negate;
    var k: nat :| k < 64 && y == Pow2(k);
    var z: nat := x + y - 1;
    NegatePower(k);
    AndClear(64, k, z);
    ModUnique(z, Pow2(64), 0, z);
    RoundingDown(z, y);
  }

  lemma RoundingDown(z: int, y: nat)
    requires y > 0
    ensures z - y < z - z % y <= z && (z - z % y) % y == 0
  {
    ModUnique(z - z % y, y, z / y, 0);
  }

  /** What `update_tls_size` asks for, before rounding. */
  function Needed(cnt: nat, offset: int, align: nat, pthread: nat): int {
    (1 + cnt) * 8 + offset + pthread + align * 2
  }

  ghost predicate Inside(start: int, size: int, at: int, n: nat) {
    start <= at && at + n <= start + size
  }

  // ------------------------------------------------------------------- bytes in memory

  function Write(memory: map<int, Byte>, at: int, bytes: seq<Byte>): map<int, Byte> {
    memory + map k: int | at <= k < at + |bytes| :: ByteAt(at, bytes, k)
  }

  function ByteAt(at: int, bytes: seq<Byte>, k: int): Byte
    requires at <= k < at + |bytes|
  {
    bytes[k - at]
  }

  ghost predicate Holds(memory: map<int, Byte>, at: int, bytes: seq<Byte>) {
    forall k :: 0 <= k < |bytes| ==> ByteIs(memory, at + k, bytes[k])
  }

  ghost predicate ByteIs(memory: map<int, Byte>, at: int, byte: Byte) {
    at in memory && memory[at] == byte
  }

  ghost predicate SameOutside(a: map<int, Byte>, b: map<int, Byte>, start: int, size: int) {
    forall k :: k in a && !(start <= k < start + size) ==> k in b && b[k] == a[k]
  }

  lemma WriteHolds(memory: map<int, Byte>, at: int, bytes: seq<Byte>)
    ensures Holds(Write(memory, at, bytes), at, bytes)
  {
    var after := Write(memory, at, bytes);
    forall k | 0 <= k < |bytes| ensures ByteIs(after, at + k, bytes[k]) {
      assert ByteAt(at, bytes, at + k) == bytes[k];
    }
  }

  lemma WriteKeeps(memory: map<int, Byte>, at: int, bytes: seq<Byte>, other: int, kept: seq<Byte>)
    requires Holds(memory, other, kept) && Disjoint(at, |bytes|, other, |kept|)
    ensures Holds(Write(memory, at, bytes), other, kept)
  {
    var after := Write(memory, at, bytes);
    forall k | 0 <= k < |kept| ensures ByteIs(after, other + k, kept[k]) {
      assert ByteIs(memory, other + k, kept[k]);
    }
  }

  // ------------------------------------------------------------------- one new thread

  /** Where the DTV, the descriptor and the thread pointer of a new thread go. */
  datatype Places = Places(dtv: int, td: int, tp: int)

  function PlacesIn(v: Variant, mem: nat, size: nat, cnt: nat, align: nat, pthread: nat): Places
    requires align > 0
  {
    match v
    case AboveTp =>
      var td := mem + Mask(-(mem + pthread), align);
      Places(mem + size - (cnt + 1) * 8, td, td + pthread)
    case BelowTp =>
      var end := mem + size - pthread;
      var td := end - Mask(end, align);
      Places(mem, td, td)
  }

  /** The whole block: DTV, descriptor and the span all module blocks lie in. */
  ghost predicate Arranged(v: Variant, mem: nat, size: nat, cnt: nat, off: int, pthread: nat, p: Places) {
    var span := if v.AboveTp? then p.tp else p.tp - off;
    && off >= 0
    && Inside(mem, size, p.dtv, (cnt + 1) * 8)
    && Inside(mem, size, p.td, pthread)
    && Inside(mem, size, span, off)
    && Disjoint(p.dtv, (cnt + 1) * 8, p.td, pthread)
    && Disjoint(p.dtv, (cnt + 1) * 8, span, off)
    && Disjoint(p.td, pthread, span, off)
  }

  lemma PlacesArranged(v: Variant, mem: nat, size: nat, cnt: nat, off: nat, align: nat, pthread: nat)
    requires Alignment(align) && size >= Needed(cnt, off, align, pthread)
    ensures align > 0
    ensures Arranged(v, mem, size, cnt, off, pthread, PlacesIn(v, mem, size, cnt, align, pthread))
    ensures PlacesIn(v, mem, size, cnt, align, pthread).tp % align == 0
  {
    hide Alignment, Mask;
    RoundedUp(mem + pthread, 0, align);
    var end := mem + size - pthread;
    MaskIsRemainder(end, align);
    RoundingDown(end, align);
  }

  /** A module's copy in its thread: aligned, inside the block, clear of everything else. */
  ghost predicate Copied(memory: map<int, Byte>, mem: nat, size: nat, at: int, im: Image) {
    && Congruent(at, im.addr, im.align)
    && Inside(mem, size, at, im.size)
    && Holds(memory, at, im.bytes)
  }

  /** Fill in a new thread's block.  The descriptor is `td`, the DTV's address `places.dtv` and its
      words `dtv`. */
  method CopyTls(state: TlsState, mem: nat, pthread: nat, dtpOffset: int, memory: map<int, Byte>)
    returns (places: Places, dtv: seq<int>, filled: map<int, Byte>)
    requires state.Valid()
    requires Needed(state.cnt, state.offset, state.align, pthread) + state.align <= Pow2(64)
    ensures state.offset >= 0 && state.align > 0
    ensures
      var size := AlignUp(Needed(state.cnt, state.offset, state.align, pthread), state.align);
      && Arranged(state.variant, mem, size, state.cnt, state.offset, pthread, places)
      && places.tp % state.align == 0
      && |dtv| == state.cnt + 1 && dtv[0] == state.cnt == |state.modules|
      && (forall i :: 0 <= i < state.cnt ==>
            dtv[i + 1] == Start(state.variant, places.tp, state.modules[i]) + dtpOffset)
      && (forall i :: 0 <= i < state.cnt ==>
            Copied(filled, mem, size, Start(state.variant, places.tp, state.modules[i]), state.modules[i].image))
      && (forall i, j :: 0 <= i < j < state.cnt ==>
            Disjoint(Start(state.variant, places.tp, state.modules[i]), state.modules[i].image.size,
                     Start(state.variant, places.tp, state.modules[j]), state.modules[j].image.size))
      && SameOutside(memory, filled, mem, size)
  {
    hide Pow2, Alignment, AlignUp, PlacesIn, Congruent, Holds, Write;
    var v, ms := state.variant, state.modules;
    var size := AlignUp(Needed(state.cnt, state.offset, state.align, pthread), state.align);
    AlignUpBounds(Needed(state.cnt, state.offset, state.align, pthread), state.align);
    PlacesArranged(v, mem, size, state.cnt, state.offset, state.align, pthread);
    places := PlacesIn(v, mem, size, state.cnt, state.align, pthread);
    BlocksDisjoint(v, ms, state.offset, state.align, places.tp);
    BlocksInside(v, ms, state.offset, state.align, places.tp, mem, size);
    dtv, filled := [state.cnt], memory;
    for i := 0 to |ms|
      invariant |dtv| == i + 1 && dtv[0] == state.cnt
      invariant forall k :: 0 <= k < i ==> dtv[k + 1] == Start(v, places.tp, ms[k]) + dtpOffset
      invariant forall k :: 0 <= k < i ==> Holds(filled, Start(v, places.tp, ms[k]), ms[k].image.bytes)
      invariant SameOutside(memory, filled, mem, size)
    {
      var at := Start(v, places.tp, ms[i]);
      dtv := dtv + [at + dtpOffset];
      var before := filled;
      filled := Write(filled, at, ms[i].image.bytes);
      WriteHolds(before, at, ms[i].image.bytes);
      WriteInside(before, at, ms[i].image.bytes, mem, size);
      forall k | 0 <= k < i ensures Holds(filled, Start(v, places.tp, ms[k]), ms[k].image.bytes) {
        WriteKeeps(before, at, ms[i].image.bytes, Start(v, places.tp, ms[k]), ms[k].image.bytes);
      }
    }
  }

  lemma WriteInside(memory: map<int, Byte>, at: int, bytes: seq<Byte>, start: int, size: int)
    requires Inside(start, size, at, |bytes|)
    ensures SameOutside(memory, Write(memory, at, bytes), start, size)
  {
  }

  lemma BlocksInside(v: Variant, ms: seq<Module>, off: nat, align: nat, tp: int, mem: nat, size: nat)
    requires Layout(v, ms, off, align) && Inside(mem, size, if v.AboveTp? then tp else tp - off, off)
    ensures forall i :: 0 <= i < |ms| ==> Inside(mem, size, Start(v, tp, ms[i]), ms[i].image.size)
    ensures forall i :: 0 <= i < |ms| ==> |ms[i].image.bytes| <= ms[i].image.size
  {
    hide Alignment, Congruent;
  }
}
