/** Static thread-local storage: where the dynamic linker puts each module's block.

    Every loaded object with a TLS segment gets an offset from the thread pointer, above it
    or below it depending on the architecture.  The code rounds with bit masks on unsigned
    words; here those masks are shown to be remainders, and from that every sequence of
    loads is shown to produce blocks that are disjoint and aligned like their images.
 */
module TlsLayout {
  import opened Common
  import opened Words

  // ------------------------------------------------------------------- unsigned masks

  /** `x & (align - 1)` on a 64-bit word. */
  function Mask(x: int, align: nat): nat
    requires align > 0
  {
    And(x % Pow2(64), align - 1)
  }

  /** `-x` on a 64-bit word. */
  function Negate(x: int): nat {
    (-x) % Pow2(64)
  }

  function MaxP2(a: nat, b: nat): nat {
    Negate(And(Negate(a), Negate(b)))
  }

  ghost predicate Alignment(a: nat) {
    exists k: nat :: k < 64 && a == Pow2(k)
  }

  lemma MaskIsRemainder(x: int, align: nat)
    requires Alignment(align)
    ensures align > 0 && Mask(x, align) == x % align
  {
    hide Pow2, And;
    var k: nat :| k < 64 && align == Pow2(k);
    AndMask(x % Pow2(64), k);
    Pow2Add(k, 64 - k);
    ModMod(x, Pow2(k), Pow2(64 - k));
  }

  lemma NegatePower(k: nat)
    requires k < 64
    ensures Pow2(k) <= Pow2(64) && Negate(Pow2(k)) == Pow2(64) - Pow2(k)
  {
    hide Pow2;
    Pow2Monotonic(k, 64);
    var x: int := Pow2(k);
    ModUnique(-x, Pow2(64), -1, Pow2(64) - Pow2(k));
  }

  lemma MaxP2Ordered(i: nat, j: nat)
    requires i <= j < 64
    ensures MaxP2(Pow2(i), Pow2(j)) == MaxP2(Pow2(j), Pow2(i)) == Pow2(j)
    ensures Pow2(i) <= Pow2(j) && Pow2(j) % Pow2(i) == 0
  {
    hide Pow2, And;
    NegatePower(i);
    NegatePower(j);
    AndHigh(64, i, j);
    AndCommutes(Negate(Pow2(i)), Negate(Pow2(j)));
    Pow2Increases(j, 64);
    ModUnique(-(Pow2(64) - Pow2(j)), Pow2(64), -1, Pow2(j));
    Pow2Monotonic(i, j);
    Pow2Add(i, j - i);
    ModUnique(Pow2(j), Pow2(i), Pow2(j - i), 0);
  }

  /** The bit trick gives the larger alignment, and both alignments divide it. */
  lemma MaxP2IsMax(a: nat, b: nat)
    requires Alignment(a) && Alignment(b)
    ensures MaxP2(a, b) == if a <= b then b else a
    ensures Alignment(MaxP2(a, b)) && a > 0 && b > 0
    ensures MaxP2(a, b) % a == 0 && MaxP2(a, b) % b == 0
  {
    hide Pow2, MaxP2;
    var i: nat :| i < 64 && a == Pow2(i);
    var j: nat :| j < 64 && b == Pow2(j);
    MaxP2Ordered(if i <= j then i else j, if i <= j then j else i);
    assert MaxP2(a, b) == a || MaxP2(a, b) == b;
    ModUnique(a, a, 1, 0);
    ModUnique(b, b, 1, 0);
  }

  /** A divisor of a divisor. */
  lemma DividesThrough(x: int, big: nat, small: nat)
    requires big > 0 && small > 0 && x % big == 0 && big % small == 0
    ensures x % small == 0
  {
    var q, p := x / big, big / small;
    assert x == big * q && big == small * p;
    assert x == small * (p * q);
    ModUnique(x, small, p * q, 0);
  }

  // ------------------------------------------------------------------- module blocks

  /** Whether the architecture puts the blocks above or below the thread pointer. */
  datatype Variant = AboveTp | BelowTp

  /** A TLS segment: its initial bytes, mapped at `addr`, and the block it asks for. */
  datatype Image = Image(addr: nat, bytes: seq<Byte>, size: nat, align: nat)

  datatype Module = Module(image: Image, offset: int)

  ghost predicate Usable(im: Image) {
    Alignment(im.align) && |im.bytes| <= im.size
  }

  /** The offset given to a library, `off` being the space already taken. */
  function LibraryOffset(v: Variant, off: int, im: Image): int
    requires im.align > 0
  {
    match v
    case AboveTp => off + Mask(im.addr - off, im.align)
    case BelowTp =>
      var taken := off + im.size + im.align - 1;
      taken - Mask(taken + im.addr, im.align)
  }

  /** The offset given to the application itself. */
  function AppOffset(v: Variant, gap: nat, im: Image): int
    requires im.align > 0
  {
    match v
    case AboveTp => gap + Mask(im.addr - gap, im.align)
    case BelowTp => im.size + Mask(-(im.addr + im.size), im.align)
  }

  // A block covers the distances Near to Far from the thread pointer.

  function Near(v: Variant, m: Module): int {
    if v.AboveTp? then m.offset else m.offset - m.image.size
  }

  function Far(v: Variant, m: Module): int {
    if v.AboveTp? then m.offset + m.image.size else m.offset
  }

  /** The address of a module's block in the thread whose thread pointer is `tp`. */
  function Start(v: Variant, tp: int, m: Module): int {
    if v.AboveTp? then tp + m.offset else tp - m.offset
  }

  ghost predicate Congruent(x: int, y: int, align: nat) {
    align > 0 && (x - y) % align == 0
  }

  ghost predicate Placed(v: Variant, off: int, m: Module) {
    Usable(m.image) && off <= Near(v, m) && Congruent(Start(v, 0, m), m.image.addr, m.image.align)
  }

  /** Rounding up to the next address congruent to `addr`. */
  lemma RoundedUp(x: int, addr: int, a: nat)
    requires Alignment(a)
    ensures a > 0 && 0 <= Mask(addr - x, a) < a
    ensures (x + Mask(addr - x, a) - addr) % a == 0
  {
    hide Alignment, Mask;
    MaskIsRemainder(addr - x, a);
    var q, r := (addr - x) / a, (addr - x) % a;
    ModUnique(x + r - addr, a, -q, 0);
  }

  /** Rounding a downward distance so that what it reaches is congruent to `addr`. */
  lemma RoundedDown(x: int, addr: int, a: nat)
    requires Alignment(a)
    ensures a > 0 && 0 <= Mask(x + addr, a) < a
    ensures (-(x - Mask(x + addr, a)) - addr) % a == 0
  {
    hide Alignment, Mask;
    MaskIsRemainder(x + addr, a);
    var q, r := (x + addr) / a, (x + addr) % a;
    ModUnique(-(x - r) - addr, a, -q, 0);
  }

  /** A library's block begins past everything placed before it, and lines up with its image. */
  lemma LibraryPlaced(v: Variant, off: nat, im: Image)
    requires Usable(im)
    ensures im.align > 0 && Placed(v, off, Module(im, LibraryOffset(v, off, im)))
    ensures Far(v, Module(im, LibraryOffset(v, off, im))) < off + im.size + im.align
  {
    hide Alignment, Mask;
    RoundedUp(off, im.addr, im.align);
    RoundedDown(off + im.size + im.align - 1, im.addr, im.align);
  }

  /** The application's block also keeps clear of the gap, where there is one. */
  lemma AppPlaced(v: Variant, gap: nat, im: Image)
    requires Usable(im)
    ensures im.align > 0
    ensures Placed(v, if v.AboveTp? then gap else 0, Module(im, AppOffset(v, gap, im)))
  {
    hide Alignment, Mask;
    RoundedUp(gap, im.addr, im.align);
    RoundedUp(im.addr + im.size, 0, im.align);
    var up := im.addr + AppOffset(BelowTp, gap, im);
    ModUnique(-up, im.align, -(up / im.align), 0);
  }

  // ------------------------------------------------------------------- whole layouts

  ghost predicate Layout(v: Variant, ms: seq<Module>, off: int, align: nat) {
    && (forall i :: 0 <= i < |ms| ==> Placed(v, 0, ms[i]) && Far(v, ms[i]) <= off)
    && (forall i :: 0 <= i < |ms| ==> ms[i].image.align > 0 && align % ms[i].image.align == 0)
    && (forall i, j :: 0 <= i < j < |ms| ==> Far(v, ms[i]) <= Near(v, ms[j]))
  }

  lemma PlaceKeeps(v: Variant, ms: seq<Module>, off: nat, align: nat, m: Module)
    requires Layout(v, ms, off, align) && Alignment(align) && Placed(v, off, m)
    ensures Layout(v, ms + [m], Far(v, m), MaxP2(align, m.image.align))
    ensures Far(v, m) >= off
  {
    hide Alignment, MaxP2, Congruent;
    var align' := MaxP2(align, m.image.align);
    MaxP2IsMax(align, m.image.align);
    var ms' := ms + [m];
    forall i | 0 <= i < |ms'|
      ensures ms'[i].image.align > 0 && align' % ms'[i].image.align == 0
    {
      if i < |ms| { DividesThrough(align', align, ms[i].image.align); }
    }
  }

  /** In every thread whose thread pointer has the overall alignment, the blocks are disjoint
      address ranges and each is congruent to its image. */
  lemma BlocksDisjoint(v: Variant, ms: seq<Module>, off: int, align: nat, tp: int)
    requires Layout(v, ms, off, align) && align > 0 && tp % align == 0
    ensures forall i :: 0 <= i < |ms| ==>
      Congruent(Start(v, tp, ms[i]), ms[i].image.addr, ms[i].image.align)
    ensures forall i, j :: 0 <= i < j < |ms| ==>
      Disjoint(Start(v, tp, ms[i]), ms[i].image.size, Start(v, tp, ms[j]), ms[j].image.size)
  {
    forall i | 0 <= i < |ms|
      ensures Congruent(Start(v, tp, ms[i]), ms[i].image.addr, ms[i].image.align)
    {
      DividesThrough(tp, align, ms[i].image.align);
      SumOfMultiples(tp, Start(v, 0, ms[i]) - ms[i].image.addr, ms[i].image.align);
    }
  }

  lemma SumOfMultiples(x: int, y: int, a: nat)
    requires a > 0 && x % a == 0 && y % a == 0
    ensures (x + y) % a == 0
  {
    ModUnique(x + y, a, x / a + y / a, 0);
  }

  ghost predicate Disjoint(a: int, m: nat, b: int, n: nat) {
    a + m <= b || b + n <= a
  }

  /** The linker's TLS counters and the list of modules it has placed. */
  class TlsState {
    const variant: Variant
    const gap: nat
    var cnt: nat
    var offset: int
    var align: nat
    var modules: seq<Module>

    ghost predicate Valid()
      reads this
    {
      && Alignment(align) && cnt == |modules| && offset >= 0
      && Layout(variant, modules, offset, align)
    }

    constructor (variant: Variant, gap: nat, minAlign: nat)
      requires Alignment(minAlign)
      ensures Valid() && cnt == 0 && offset == 0 && align == minAlign && modules == []
      ensures this.variant == variant && this.gap == gap
    {
      this.variant, this.gap := variant, gap;
      cnt, offset, align, modules := 0, 0, minAlign, [];
    }

    /** Start-up: the application comes first, if it has any TLS. */
    method PlaceApp(im: Image)
      requires Valid() && cnt == 0 && offset == 0 && Usable(im)
      modifies this
      ensures Valid()
      ensures im.size == 0 ==> modules == [] && offset == 0 && align == old(align)
      ensures im.size != 0 ==> |modules| == 1 && modules[0].image == im && offset == Far(variant, modules[0])
      ensures im.size != 0 ==> align == if old(align) <= im.align then im.align else old(align)
      ensures im.size != 0 && variant.AboveTp? ==> modules[0].offset >= gap
    {
      hide Alignment, Placed, MaxP2, Far;
      if im.size != 0 {
        AppPlaced(variant, gap, im);
        var m := Module(im, AppOffset(variant, gap, im));
        PlacedLower(variant, if variant.AboveTp? then gap else 0, m);
        PlaceKeeps(variant, modules, 0, align, m);
        MaxP2IsMax(align, im.align);
        modules, cnt := [m], 1;
        offset, align := Far(variant, m), MaxP2(align, im.align);
        assert old(modules) + [m] == [m];
      }
    }

    /** Any later load, at start-up or at run time. */
    method PlaceLibrary(im: Image)
      requires Valid() && Usable(im)
      modifies this
      ensures Valid() && old(offset) <= offset < old(offset) + im.size + im.align
      ensures |modules| == cnt == old(cnt) + 1 && modules[..old(cnt)] == old(modules)
      ensures modules[old(cnt)].image == im && offset == Far(variant, modules[old(cnt)])
      ensures im.align > 0 && modules[old(cnt)].offset == LibraryOffset(variant, old(offset), im)
      ensures align == if old(align) <= im.align then im.align else old(align)
    {
      hide Alignment, Placed, MaxP2, Far;
      LibraryPlaced(variant, offset, im);
      var m := Module(im, LibraryOffset(variant, offset, im));
      PlaceKeeps(variant, modules, offset, align, m);
      MaxP2IsMax(align, im.align);
      modules, cnt := modules + [m], cnt + 1;
      offset, align := Far(variant, m), MaxP2(align, im.align);
    }
  }

  /** A whole run: the application, then libraries in load order. */
  method LoadAll(state: TlsState, app: Image, libs: seq<Image>)
    requires state.Valid() && state.cnt == 0 && state.offset == 0
    requires Usable(app) && forall i :: 0 <= i < |libs| ==> Usable(libs[i])
    modifies state
    ensures state.Valid()
    ensures Images(state.modules) == (if app.size != 0 then [app] else []) + libs
    ensures state.align >= old(state.align) && forall m :: m in state.modules ==> state.align >= m.image.align
    // the gap above the thread pointer stays free unless the first to have TLS is a library that lands in it
    ensures state.variant.AboveTp? ==>
      ((forall m :: m in state.modules ==> m.offset >= state.gap) <==>
        app.size != 0 || libs == [] || (libs[0].align > 0 && libs[0].addr % libs[0].align >= state.gap))
  {
    hide Usable, Alignment, Layout, Far, LibraryOffset;
    state.PlaceApp(app);
    ghost var first := Images(state.modules);
    if libs != [] { FirstLibrary(libs[0]); }
    for i := 0 to |libs|
      invariant state.Valid() && Images(state.modules) == first + libs[..i]
      invariant state.align >= old(state.align)
      invariant forall m :: m in state.modules ==> state.align >= m.image.align
      invariant app.size == 0 && i == 0 ==> state.offset == 0 && state.modules == []
      invariant app.size != 0 || i > 0 ==> state.modules != []
      invariant app.size != 0 && state.variant.AboveTp? ==> state.modules[0].offset >= state.gap
      invariant app.size == 0 && i > 0 && state.variant.AboveTp? ==>
        libs[0].align > 0 && state.modules[0].offset == libs[0].addr % libs[0].align
    {
      ghost var before := state.modules;
      state.PlaceLibrary(libs[i]);
      assert state.modules == before + [state.modules[|before|]];
      assert Images(state.modules) == Images(before) + [libs[i]];
    }
    assert libs[..|libs|] == libs;
    if state.variant.AboveTp? { FirstIsLowest(state.modules, state.offset, state.align, state.gap); }
  }

  /** A library placed when nothing is takes its image's own offset in its alignment. */
  lemma FirstLibrary(im: Image)
    requires Usable(im)
    ensures im.align > 0 && LibraryOffset(AboveTp, 0, im) == im.addr % im.align
  {
    hide Alignment, Mask;
    MaskIsRemainder(im.addr, im.align);
  }

  /** An application without TLS, and a library with eight bytes of it: they land in a gap of sixteen. */
  method LandsInGap() returns (state: TlsState)
    ensures fresh(state) && state.Valid() && state.variant == AboveTp && state.gap == 16
    ensures |state.modules| == 1 && state.modules[0].image.size == 8 && state.modules[0].offset == 0
  {
    var app, lib := Image(0, [], 0, 1), Image(0, [], 8, 1);
    assert Pow2(0) == 1 && Usable(app) && Usable(lib);
    state := new TlsState(AboveTp, 16, 1);
    FirstLibrary(lib);
    state.PlaceApp(app);
    state.PlaceLibrary(lib);
  }

  lemma FirstIsLowest(ms: seq<Module>, off: int, align: nat, gap: nat)
    requires Layout(AboveTp, ms, off, align)
    ensures (forall m :: m in ms ==> m.offset >= gap) <==> ms == [] || ms[0].offset >= gap
  {
    hide Placed;
    if ms != [] {
      assert ms[0] in ms;
      forall i | 0 < i < |ms| ensures ms[i].offset >= ms[0].offset {
        assert Far(AboveTp, ms[0]) <= Near(AboveTp, ms[i]);
      }
    }
  }

  ghost function Images(ms: seq<Module>): seq<Image> {
    seq(|ms|, i requires 0 <= i < |ms| => ms[i].image)
  }

  lemma PlacedLower(v: Variant, off: nat, m: Module)
    requires Placed(v, off, m)
    ensures Placed(v, 0, m) && off <= Near(v, m)
  {
  }
}
