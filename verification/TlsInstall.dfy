/** Thread-local storage of libraries loaded at run time.

    One allocation per library reserves, for every thread that exists, room for an enlarged
    DTV and for one copy of the library's TLS.  `ReservationFits` shows the reservation always
    suffices; `InstallNewTls` fills it and switches every thread to its new DTV.
 */
module TlsInstall {
  import opened Common
  import opened Words
  import opened TlsLayout
  import opened TlsThread

  const SSIZE_MAX: nat := 0x7fff_ffff_ffff_ffff
  const SIZE_MAX: nat := 0xffff_ffff_ffff_ffff

  // ------------------------------------------------------------------- the reservation

  function PerThread(im: Image, cnt: nat): nat {
    im.size + im.align + 8 * (cnt + 3)
  }

  /** The size passed to the allocator; `cnt` is the count before this library is added.  A product
      too large for the address space becomes a request that cannot be met. */
  function AllocSize(dsoSize: nat, nameLen: nat, im: Image, threads: nat, cnt: nat): nat {
    if threads > SSIZE_MAX / PerThread(im, cnt) then SIZE_MAX
    else dsoSize + nameLen + 1 + threads * PerThread(im, cnt)
  }

  /** The word-aligned address after the name's terminator. */
  function NewDtv(name: nat, nameLen: nat): nat {
    And(Negate(8), name + nameLen + 8)
  }

  function NewTls(name: nat, nameLen: nat, threads: nat, cnt: nat): nat {
    NewDtv(name, nameLen) + 8 * (threads * (cnt + 1))
  }

  lemma NewDtvBounds(name: nat, nameLen: nat)
    requires name + nameLen + 8 < Pow2(64)
    ensures name + nameLen < NewDtv(name, nameLen) <= name + nameLen + 8
    ensures NewDtv(name, nameLen) % 8 == 0
  {
    hide Pow2, And, Negate;
    WordAlignment();
    ClearLow(name + nameLen + 8, 8);
    RoundingDown(name + nameLen + 8, 8);
  }

  lemma WordAlignment()
    ensures Alignment(8)
  {
    assert Pow2(3) == 8;
  }

  lemma ClearLow(z: nat, y: nat)
    requires Alignment(y) && z < Pow2(64)
    ensures y > 0 && And(Negate(y), z) == z - z % y
  {
    hide Pow2, And, Negate;
    var k: nat :| k < 64 && y == Pow2(k);
    NegatePower(k);
    AndCommutes(Negate(y), z);
    AndClear(64, k, z);
  }

  lemma Distributes(threads: nat, copy: nat, cnt: nat)
    ensures threads * (copy + 8 * (cnt + 3)) == 8 * (threads * (cnt + 2)) + threads * copy + 8 * threads
  {
  }

  // ------------------------------------------------------------------- the copies

  /** A loaded object as installation sees it; `id` is 0 when it has no TLS. */
  datatype TlsDso = TlsDso(id: nat, image: Image, newTls: nat)

  function Stride(p: TlsDso): nat {
    p.image.size + p.image.align
  }

  function Slot(p: TlsDso, j: nat): nat {
    p.newTls + j * Stride(p)
  }

  /** The single allocation holds the name, then every thread's enlarged DTV, then one TLS copy with
      alignment slack per thread; a request forced to SIZE_MAX cannot have been granted. */
  lemma ReservationFits(block: nat, dsoSize: nat, bufAt: nat, nameLen: nat, im: Image, threads: nat, cnt: nat)
    requires bufAt <= dsoSize && threads >= 1
    requires block > 1 && block + AllocSize(dsoSize, nameLen, im, threads, cnt) <= Pow2(64)
    ensures
      var name := block + bufAt;
      var p := TlsDso(cnt + 1, im, NewTls(name, nameLen, threads, cnt + 1));
      && name + nameLen + 1 <= NewDtv(name, nameLen)
      && p.newTls == NewDtv(name, nameLen) + 8 * (threads * (p.id + 1))
      && Slot(p, threads) <= block + AllocSize(dsoSize, nameLen, im, threads, cnt)
  {
    Pow2Constants();
    hide Pow2, NewDtv;
    var name := block + bufAt;
    Distributes(threads, im.size + im.align, cnt);
    NewDtvBounds(name, nameLen);
  }

  /** Thread `j`'s copy of the library's TLS. */
  function CopyAt(p: TlsDso, j: nat): int
    requires p.image.align > 0
  {
    Slot(p, j) + Mask(p.image.addr - Slot(p, j), p.image.align)
  }

  lemma SlotNext(p: TlsDso, j: nat)
    ensures Slot(p, j + 1) == Slot(p, j) + Stride(p)
  {
  }

  lemma {:induction false} SlotsOrdered(p: TlsDso, i: nat, j: nat)
    requires i <= j
    ensures Slot(p, i) <= Slot(p, j)
  {
    if i >= j {
    } else {
      SlotsOrdered(p, i, j - 1);
      SlotNext(p, j - 1);
    }
  }

  /** Each copy stays in its own slot and lines up with the image. */
  lemma CopyInSlot(p: TlsDso, j: nat)
    requires Usable(p.image)
    ensures p.image.align > 0 && Congruent(CopyAt(p, j), p.image.addr, p.image.align)
    ensures Slot(p, j) <= CopyAt(p, j) && CopyAt(p, j) + p.image.size <= Slot(p, j + 1)
  {
    hide Alignment, Mask, Slot;
    RoundedUp(Slot(p, j), p.image.addr, p.image.align);
    SlotNext(p, j);
  }

  lemma CopiesDisjoint(p: TlsDso, i: nat, j: nat)
    requires Usable(p.image) && i < j
    ensures p.image.align > 0
    ensures Disjoint(CopyAt(p, i), p.image.size, CopyAt(p, j), p.image.size)
  {
    hide Usable, CopyAt, Slot;
    CopyInSlot(p, i);
    CopyInSlot(p, j);
    SlotsOrdered(p, i + 1, j);
  }

  lemma CopyInReservation(p: TlsDso, j: nat, n: nat)
    requires Usable(p.image) && j < n
    ensures p.image.align > 0
    ensures Inside(p.newTls, Slot(p, n) - p.newTls, CopyAt(p, j), p.image.size)
  {
    hide Usable, CopyAt;
    CopyInSlot(p, j);
    SlotsOrdered(p, j + 1, n);
    SlotsOrdered(p, 0, j);
  }

  // ------------------------------------------------------------------- installation

  class Thread {
    var dtv: seq<int>
    var dtvCopy: seq<int>
  }

  ghost predicate Installed(row: seq<int>, memory: map<int, Byte>, p: TlsDso, j: nat, dtpOffset: int) {
    && p.image.align > 0 && p.id < |row|
    && row[p.id] == CopyAt(p, j) + dtpOffset
    && Holds(memory, CopyAt(p, j), p.image.bytes)
  }

  /** The objects loaded since the threads' DTVs were last enlarged: numbered in load order, with
      reservations that do not overlap. */
  ghost predicate LoadedSince(chain: seq<TlsDso>, oldCnt: nat, cnt: nat, n: nat) {
    && (forall c :: 0 <= c < |chain| && chain[c].id > oldCnt ==> Usable(chain[c].image) && chain[c].id <= cnt)
    && (forall c, d :: 0 <= c < d < |chain| && chain[c].id > oldCnt && chain[d].id > oldCnt ==>
          chain[c].id < chain[d].id && Apart(chain[c], chain[d], n))
    && (exists c :: 0 <= c < |chain| && chain[c].id == cnt)
  }

  ghost predicate Apart(p: TlsDso, q: TlsDso, n: nat) {
    Slot(p, n) <= q.newTls || Slot(q, n) <= p.newTls
  }

  /** No two of the new copies overlap, whether of one library or of two. */
  lemma NewCopiesDisjoint(chain: seq<TlsDso>, oldCnt: nat, cnt: nat, n: nat, c: nat, i: nat, d: nat, j: nat)
    requires LoadedSince(chain, oldCnt, cnt, n) && c <= d < |chain| && i < n && j < n && (c, i) != (d, j)
    requires chain[c].id > oldCnt && chain[d].id > oldCnt
    ensures chain[c].image.align > 0 && chain[d].image.align > 0
    ensures Disjoint(CopyAt(chain[c], i), chain[c].image.size, CopyAt(chain[d], j), chain[d].image.size)
  {
    hide Usable, Slot, CopyAt;
    CopyInReservation(chain[c], i, n);
    CopyInReservation(chain[d], j, n);
    if c == d { CopiesDisjoint(chain[c], if i < j then i else j, if i < j then j else i); }
  }

  ghost predicate AllInstalled(rows: seq<seq<int>>, memory: map<int, Byte>, chain: seq<TlsDso>, upto: nat,
                               oldCnt: nat, dtpOffset: int)
    requires upto <= |chain|
  {
    forall c, j :: 0 <= c < upto && 0 <= j < |rows| && chain[c].id > oldCnt ==>
      Installed(rows[j], memory, chain[c], j, dtpOffset)
  }

  /** A thread's new DTV keeps the old entries under the new count. */
  ghost predicate Extends(row: seq<int>, dtv: seq<int>, cnt: nat) {
    && 1 <= |dtv| <= |row| == cnt + 1
    && row[0] == cnt && row[1..|dtv|] == dtv[1..]
  }

  lemma HoldsOutside(a: map<int, Byte>, b: map<int, Byte>, start: int, size: nat, at: int, bytes: seq<Byte>)
    requires Holds(a, at, bytes) && SameOutside(a, b, start, size) && Disjoint(at, |bytes|, start, size)
    ensures Holds(b, at, bytes)
  {
    forall k | 0 <= k < |bytes| ensures ByteIs(b, at + k, bytes[k]) {
      assert ByteIs(a, at + k, bytes[k]);
    }
  }

  /** The first `j` threads have their copies, and only the reservation was written. */
  ghost predicate CopiesMade(memory: map<int, Byte>, filled: map<int, Byte>, p: TlsDso, j: nat, n: nat)
    requires p.image.align > 0
  {
    && (forall i :: 0 <= i < j ==> Holds(filled, CopyAt(p, i), p.image.bytes))
    && SameOutside(memory, filled, p.newTls, Slot(p, n) - p.newTls)
  }

  lemma CopyStep(memory: map<int, Byte>, filled: map<int, Byte>, p: TlsDso, j: nat, n: nat)
    requires Usable(p.image) && p.image.align > 0 && j < n
    requires CopiesMade(memory, filled, p, j, n)
    ensures CopiesMade(memory, Write(filled, CopyAt(p, j), p.image.bytes), p, j + 1, n)
  {
    hide Alignment, Slot, CopyAt, Holds, Write;
    var at, bytes := CopyAt(p, j), p.image.bytes;
    var after := Write(filled, at, bytes);
    WriteHolds(filled, at, bytes);
    CopyInReservation(p, j, n);
    WriteInside(filled, at, bytes, p.newTls, Slot(p, n) - p.newTls);
    forall i | 0 <= i < j ensures Holds(after, CopyAt(p, i), bytes) {
      CopiesDisjoint(p, i, j);
      WriteKeeps(filled, at, bytes, CopyAt(p, i), bytes);
    }
  }

  /** Copy one library's image for every thread. */
  method InstallModule(rows: array<seq<int>>, p: TlsDso, dtpOffset: int, memory: map<int, Byte>)
    returns (filled: map<int, Byte>)
    requires Usable(p.image) && p.image.align > 0
    requires forall j :: 0 <= j < rows.Length ==> p.id < |rows[j]|
    modifies rows
    ensures forall j :: 0 <= j < rows.Length ==> rows[j] == old(rows[j])[p.id := CopyAt(p, j) + dtpOffset]
    ensures CopiesMade(memory, filled, p, rows.Length, rows.Length)
  {
    SlotZero(p);
    filled := memory;
    var mem := p.newTls;
    hide Usable, Slot, CopyAt, Holds, Write, Mask;
    for j := 0 to rows.Length
      invariant mem == Slot(p, j)
      invariant forall i :: 0 <= i < j ==> rows[i] == old(rows[i])[p.id := CopyAt(p, i) + dtpOffset]
      invariant forall i :: j <= i < rows.Length ==> rows[i] == old(rows[i])
      invariant CopiesMade(memory, filled, p, j, rows.Length)
    {
      hide CopiesMade;
      var at := mem + Mask(p.image.addr - mem, p.image.align);
      CopyAtMeaning(p, j);
      CopyStep(memory, filled, p, j, rows.Length);
      filled := Write(filled, at, p.image.bytes);
      rows[j] := rows[j][p.id := at + dtpOffset];
      SlotNext(p, j);
      mem := mem + Stride(p);
    }
  }

  lemma SlotZero(p: TlsDso)
    ensures Slot(p, 0) == p.newTls
  {
  }

  lemma CopyAtMeaning(p: TlsDso, j: nat)
    requires p.image.align > 0
    ensures CopyAt(p, j) == Slot(p, j) + Mask(p.image.addr - Slot(p, j), p.image.align)
  {
  }

  lemma ModuleStep(before: seq<seq<int>>, after: seq<seq<int>>, memory: map<int, Byte>, filled: map<int, Byte>,
                   chain: seq<TlsDso>, c: nat, oldCnt: nat, cnt: nat, dtpOffset: int)
    requires c < |chain| && chain[c].id > oldCnt && chain[c].image.align > 0
    requires |after| == |before| && LoadedSince(chain, oldCnt, cnt, |before|)
    requires AllInstalled(before, memory, chain, c, oldCnt, dtpOffset)
    requires forall j :: 0 <= j < |before| ==>
      chain[c].id < |before[j]| && after[j] == before[j][chain[c].id := CopyAt(chain[c], j) + dtpOffset]
    requires CopiesMade(memory, filled, chain[c], |before|, |before|)
    ensures AllInstalled(after, filled, chain, c + 1, oldCnt, dtpOffset)
  {
    hide Usable, Slot, CopyAt, Holds, SameOutside;
    var p, n := chain[c], |before|;
    forall d, j | 0 <= d < c + 1 && 0 <= j < n && chain[d].id > oldCnt
      ensures Installed(after[j], filled, chain[d], j, dtpOffset)
    {
      if d < c {
        var q := chain[d];
        assert Installed(before[j], memory, q, j, dtpOffset);
        assert q.id < p.id && Apart(q, p, n);
        OtherCopyKept(memory, filled, p, q, j, n);
      } else {
        assert Holds(filled, CopyAt(p, j), p.image.bytes);
      }
    }
  }

  lemma OtherCopyKept(memory: map<int, Byte>, filled: map<int, Byte>, p: TlsDso, q: TlsDso, j: nat, n: nat)
    requires Usable(p.image) && Usable(q.image) && p.image.align > 0 && q.image.align > 0
    requires j < n && Apart(q, p, n)
    requires Holds(memory, CopyAt(q, j), q.image.bytes) && CopiesMade(memory, filled, p, n, n)
    ensures Holds(filled, CopyAt(q, j), q.image.bytes)
  {
    hide Alignment, Slot, CopyAt, Holds, SameOutside;
    CopyInReservation(q, j, n);
    SlotZero(p);
    SlotZero(q);
    SlotsOrdered(p, 0, n);
    HoldsOutside(memory, filled, p.newTls, Slot(p, n) - p.newTls, CopyAt(q, j), q.image.bytes);
  }

  /** A zeroed enlarged DTV with a thread's old entries copied in. */
  function Enlarged(dtv: seq<int>, cnt: nat): seq<int>
    requires 1 <= |dtv| <= cnt + 1
  {
    [cnt] + dtv[1..] + seq(cnt + 1 - |dtv|, _ => 0)
  }

  /** Every thread's old DTV, in thread order. */
  ghost function Dtvs(threads: seq<Thread>): seq<seq<int>>
    reads threads
  {
    seq(|threads|, j requires 0 <= j < |threads| reads threads => threads[j].dtv)
  }

  ghost predicate AllExtend(rows: seq<seq<int>>, dtvs: seq<seq<int>>, cnt: nat) {
    |rows| == |dtvs| && forall j :: 0 <= j < |rows| ==> Extends(rows[j], dtvs[j], cnt)
  }

  lemma ExtendKept(before: seq<seq<int>>, after: seq<seq<int>>, dtvs: seq<seq<int>>, oldCnt: nat, cnt: nat,
                   p: TlsDso, dtpOffset: int)
    requires oldCnt < p.id <= cnt && p.image.align > 0 && |after| == |before|
    requires AllExtend(before, dtvs, cnt) && forall j :: 0 <= j < |dtvs| ==> |dtvs[j]| == oldCnt + 1
    requires forall j :: 0 <= j < |before| ==>
      p.id < |before[j]| && after[j] == before[j][p.id := CopyAt(p, j) + dtpOffset]
    ensures AllExtend(after, dtvs, cnt)
  {
    forall j | 0 <= j < |after| ensures Extends(after[j], dtvs[j], cnt) {
      assert Extends(before[j], dtvs[j], cnt);
    }
  }

  /** The addresses reserved for the copies of what was loaded since. */
  ghost predicate InReservation(chain: seq<TlsDso>, oldCnt: nat, n: nat, a: int) {
    exists c :: 0 <= c < |chain| && chain[c].id > oldCnt && chain[c].newTls <= a < Slot(chain[c], n)
  }

  ghost predicate SameElsewhere(before: map<int, Byte>, after: map<int, Byte>, chain: seq<TlsDso>, oldCnt: nat, n: nat) {
    forall a :: a in before && !InReservation(chain, oldCnt, n, a) ==> a in after && after[a] == before[a]
  }

  lemma ElsewhereNext(memory: map<int, Byte>, was: map<int, Byte>, filled: map<int, Byte>, chain: seq<TlsDso>, c: nat,
                      oldCnt: nat, n: nat)
    requires SameElsewhere(memory, was, chain, oldCnt, n) && c < |chain| && chain[c].id > oldCnt
    requires chain[c].image.align > 0 && CopiesMade(was, filled, chain[c], n, n)
    ensures SameElsewhere(memory, filled, chain, oldCnt, n)
  {
    hide Holds, CopyAt, Slot;
    forall a | a in memory && !InReservation(chain, oldCnt, n, a) ensures a in filled && filled[a] == memory[a] {
      assert a in was && was[a] == memory[a];
      assert !(chain[c].newTls <= a < Slot(chain[c], n));
    }
  }

  /** Build the enlarged DTVs aside. */
  method FillRows(threads: seq<Thread>, chain: seq<TlsDso>, oldCnt: nat, cnt: nat, dtpOffset: int,
                  memory: map<int, Byte>)
    returns (rows: array<seq<int>>, filled: map<int, Byte>)
    requires oldCnt < cnt && LoadedSince(chain, oldCnt, cnt, |threads|)
    requires forall j :: 0 <= j < |threads| ==> |threads[j].dtv| == oldCnt + 1
    ensures fresh(rows) && AllExtend(rows[..], Dtvs(threads), cnt)
    ensures AllInstalled(rows[..], filled, chain, |chain|, oldCnt, dtpOffset)
    ensures SameElsewhere(memory, filled, chain, oldCnt, |threads|)
  {
    hide Usable, Slot, CopyAt, Holds, SameOutside, CopiesMade, Apart;
    ghost var dtvs := Dtvs(threads);
    rows := new seq<int>[|threads|];
    for i := 0 to |threads|
      invariant forall j :: 0 <= j < i ==> Extends(rows[j], threads[j].dtv, cnt)
    {
      rows[i] := Enlarged(threads[i].dtv, cnt);
    }
    filled := memory;
    var c := 0;
    while true
      invariant 0 <= c < |chain| && forall d :: 0 <= d < c ==> chain[d].id != cnt
      invariant SameElsewhere(memory, filled, chain, oldCnt, |threads|)
      invariant AllExtend(rows[..], dtvs, cnt) && AllInstalled(rows[..], filled, chain, c, oldCnt, dtpOffset)
      decreases |chain| - c
    {
      hide AllInstalled, AllExtend, LoadedSince, SameElsewhere;
      var p := chain[c];
      ChainFacts(chain, c, oldCnt, cnt, |threads|);
      if p.id > oldCnt {
        ghost var before := rows[..];
        RowsLong(before, dtvs, cnt);
        ghost var was := filled;
        filled := InstallModule(rows, p, dtpOffset, filled);
        ModuleStep(before, rows[..], was, filled, chain, c, oldCnt, cnt, dtpOffset);
        ElsewhereNext(memory, was, filled, chain, c, oldCnt, |threads|);
        ExtendKept(before, rows[..], dtvs, oldCnt, cnt, p, dtpOffset);
        if p.id == cnt {
          LastInstalled(rows[..], filled, chain, c, oldCnt, cnt, dtpOffset);
          break;
        }
      } else {
        SkipInstalled(rows[..], filled, chain, c, oldCnt, dtpOffset);
      }
      c := c + 1;
    }
  }

  lemma RowsLong(rows: seq<seq<int>>, dtvs: seq<seq<int>>, cnt: nat)
    requires AllExtend(rows, dtvs, cnt)
    ensures forall j :: 0 <= j < |rows| ==> |rows[j]| == cnt + 1
  {
  }

  lemma ChainFacts(chain: seq<TlsDso>, c: nat, oldCnt: nat, cnt: nat, n: nat)
    requires c < |chain| && oldCnt < cnt && LoadedSince(chain, oldCnt, cnt, n)
    requires forall d :: 0 <= d < c ==> chain[d].id != cnt
    ensures chain[c].id > oldCnt ==> Usable(chain[c].image) && chain[c].image.align > 0 && chain[c].id <= cnt
    ensures chain[c].id != cnt ==> c + 1 < |chain|
  {
    hide Slot;
    var e :| 0 <= e < |chain| && chain[e].id == cnt;
  }

  lemma SkipInstalled(rows: seq<seq<int>>, memory: map<int, Byte>, chain: seq<TlsDso>, c: nat, oldCnt: nat,
                      dtpOffset: int)
    requires c < |chain| && chain[c].id <= oldCnt && AllInstalled(rows, memory, chain, c, oldCnt, dtpOffset)
    ensures AllInstalled(rows, memory, chain, c + 1, oldCnt, dtpOffset)
  {
    hide Installed;
  }

  /** The highest number comes last, so stopping there misses nothing. */
  lemma LastInstalled(rows: seq<seq<int>>, memory: map<int, Byte>, chain: seq<TlsDso>, c: nat, oldCnt: nat,
                      cnt: nat, dtpOffset: int)
    requires c < |chain| && oldCnt < chain[c].id == cnt && LoadedSince(chain, oldCnt, cnt, |rows|)
    requires AllInstalled(rows, memory, chain, c + 1, oldCnt, dtpOffset)
    ensures AllInstalled(rows, memory, chain, |chain|, oldCnt, dtpOffset)
  {
    hide Installed, Usable, Apart;
    assert forall d :: c < d < |chain| ==> chain[d].id <= oldCnt;
  }

  /** Enlarge every thread's DTV, give it copies of the new modules, and switch it over. */
  method InstallNewTls(threads: seq<Thread>, chain: seq<TlsDso>, oldCnt: nat, cnt: nat, dtpOffset: int,
                       memory: map<int, Byte>)
    returns (filled: map<int, Byte>)
    requires oldCnt < cnt && LoadedSince(chain, oldCnt, cnt, |threads|)
    requires forall i, j :: 0 <= i < j < |threads| ==> threads[i] != threads[j]
    requires forall j :: 0 <= j < |threads| ==> |threads[j].dtv| == oldCnt + 1
    modifies threads
    ensures AllExtend(Dtvs(threads), old(Dtvs(threads)), cnt)
    ensures AllInstalled(Dtvs(threads), filled, chain, |chain|, oldCnt, dtpOffset)
    ensures SameElsewhere(memory, filled, chain, oldCnt, |threads|)
    ensures forall j :: 0 <= j < |threads| ==> threads[j].dtvCopy == threads[j].dtv
  {
    hide LoadedSince, AllInstalled, Extends, SameElsewhere;
    var rows;
    rows, filled := FillRows(threads, chain, oldCnt, cnt, dtpOffset, memory);
    ghost var built := rows[..];
    for j := 0 to |threads|
      invariant forall i :: 0 <= i < j ==> threads[i].dtv == threads[i].dtvCopy == rows[i]
      invariant rows[..] == built
    {
      threads[j].dtvCopy := rows[j];
      threads[j].dtv := rows[j];
    }
    assert Dtvs(threads) == rows[..];
  }
}
