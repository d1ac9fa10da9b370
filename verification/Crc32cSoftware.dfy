/** Table-driven CRC-32C: table generation and the quadword-at-a-time loop. */
module Crc32cSoftware {
  import opened Common
  import opened Words
  import opened Crc32cSpec

  /** Row `k` of the table is the register after `k + 1` zero bytes. */
  ghost predicate TableBuilt(table: array2<nat>)
    reads table
  {
    && table.Length0 == 8 && table.Length1 == 256
    && forall k, n :: 0 <= k < 8 && 0 <= n < 256 ==> table[k, n] == ZeroBits(8 * (k + 1), n)
  }

  lemma EightSteps(c: nat)
    ensures ZeroBits(8, c) == BitStep(BitStep(BitStep(BitStep(BitStep(BitStep(BitStep(BitStep(c))))))))
  {
    hide BitStep;
    var c2 := BitStep(BitStep(c));
    var c4 := BitStep(BitStep(c2));
    var c6 := BitStep(BitStep(c4));
    assert ZeroBits(8, c) == ZeroBits(7, BitStep(c)) == ZeroBits(6, c2);
    assert ZeroBits(6, c2) == ZeroBits(5, BitStep(c2)) == ZeroBits(4, c4);
    assert ZeroBits(4, c4) == ZeroBits(3, BitStep(c4)) == ZeroBits(2, c6);
    assert ZeroBits(2, c6) == ZeroBits(1, BitStep(c6)) == ZeroBits(0, BitStep(BitStep(c6)));
  }

  /** One table lookup runs the register over one byte already added to it. */
  lemma TableStep(c: nat)
    ensures ZeroBits(8, c) == Xor(ZeroBits(8, c % 256), c / 256)
  {
    StepOverByte(0, c % 256, c / 256);
  }

  /** The same, for any number of bytes still to be stepped over. */
  lemma SliceStep(k: nat, w: nat)
    requires k >= 1
    ensures ZeroBits(8 * k, w) == Xor(ZeroBits(8 * k, w % 256), ZeroBits(8 * (k - 1), w / 256))
  {
    hide Xor, ZeroBits;
    var rest := 8 * (k - 1);
    ZeroBitsAdd(8, rest, w);
    ZeroBitsAdd(8, rest, w % 256);
    TableStep(w);
    ZeroBitsLinear(rest, ZeroBits(8, w % 256), w / 256);
  }

  /** Moving one slice out of the remaining word into the accumulated sum. */
  lemma SliceOut(acc: nat, k: nat, w: nat)
    requires k >= 1
    ensures Xor(acc, ZeroBits(8 * k, w))
         == Xor(Xor(acc, ZeroBits(8 * k, w % 256)), ZeroBits(8 * (k - 1), w / 256))
  {
    SliceStep(k, w);
    XorAssociates(acc, ZeroBits(8 * k, w % 256), ZeroBits(8 * (k - 1), w / 256));
  }

  method BytesCrc(n: nat) returns (crc: nat)
    ensures crc == ZeroBits(8, n)
  {
    hide BitStep, ZeroBits;
    EightSteps(n);
    crc := n;
    crc := BitStep(crc);
    crc := BitStep(crc);
    crc := BitStep(crc);
    crc := BitStep(crc);
    crc := BitStep(crc);
    crc := BitStep(crc);
    crc := BitStep(crc);
    crc := BitStep(crc);
  }

  method InitSw(table: array2<nat>)
    requires table.Length0 == 8 && table.Length1 == 256
    modifies table
    ensures TableBuilt(table)
  {
    hide Xor, ZeroBits;
    for n := 0 to 256
      invariant forall m :: 0 <= m < n ==> table[0, m] == ZeroBits(8, m)
    {
      table[0, n] := BytesCrc(n);
    }
    for n := 0 to 256
      invariant forall m :: 0 <= m < 256 ==> table[0, m] == ZeroBits(8, m)
      invariant forall k, m :: 1 <= k < 8 && 0 <= m < n ==> table[k, m] == ZeroBits(8 * (k + 1), m)
    {
      var crc := table[0, n];
      for k := 1 to 8
        invariant crc == ZeroBits(8 * k, n)
        invariant forall m :: 0 <= m < 256 ==> table[0, m] == ZeroBits(8, m)
        invariant forall j, m :: 1 <= j < 8 && 0 <= m < n ==> table[j, m] == ZeroBits(8 * (j + 1), m)
        invariant forall j :: 1 <= j < k ==> table[j, n] == ZeroBits(8 * (j + 1), n)
      {
        TableStep(crc);
        ZeroBitsAdd(8 * k, 8, n);
        crc := Xor(table[0, crc % 256], crc / 256);
        table[k, n] := crc;
      }
    }
  }

  lemma FoldQuadword(c: nat, q: seq<Byte>)
    requires c < WORD && |q| == 8
    ensures Xor(c, Load(q)) < 0x1_0000_0000_0000_0000
    ensures Fold(c, q) == ZeroBits(64, Xor(c, Load(q)))
  {
    Pow2Constants();
    LoadBound(q);
    XorBound(64, c, Load(q));
    FoldIsZeroBits(c, q);
  }

  /** One lookup of the quadword loop: the low byte of `w` leaves through row `k`. */
  method SliceLookup(table: array2<nat>, k: nat, acc: nat, w: nat, ghost limit: nat, ghost goal: nat)
    returns (acc': nat, w': nat)
    requires TableBuilt(table)
    requires k < 8 && w < 256 * limit && goal == Xor(acc, ZeroBits(8 * (k + 1), w))
    ensures w' < limit && goal == Xor(acc', ZeroBits(8 * k, w'))
  {
    hide Xor, ZeroBits;
    SliceOut(acc, k + 1, w);
    acc', w' := Xor(acc, table[k, w % 256]), w / 256;
  }

  /** One pass of the quadword loop.  The register is 64 bits wide once the data is added to
      it; byte `j` of it is looked up in row `7 - j`, and the eight results are added. */
  method StepQuadword(table: array2<nat>, crc: nat, q: seq<Byte>) returns (r: nat)
    requires TableBuilt(table)
    requires crc < WORD && |q| == 8
    ensures r == Fold(crc, q)
  {
    assert ZeroBits(0, 0) == 0;
    hide *;
    FoldQuadword(crc, q);
    var w := Xor(crc, Load(q));
    ghost var goal := ZeroBits(64, w);
    XorZero(goal);
    r := 0;
    r, w := SliceLookup(table, 7, r, w, 0x100_0000_0000_0000, goal);
    r, w := SliceLookup(table, 6, r, w, 0x1_0000_0000_0000, goal);
    r, w := SliceLookup(table, 5, r, w, 0x100_0000_0000, goal);
    r, w := SliceLookup(table, 4, r, w, 0x1_0000_0000, goal);
    r, w := SliceLookup(table, 3, r, w, 0x100_0000, goal);
    r, w := SliceLookup(table, 2, r, w, 0x1_0000, goal);
    r, w := SliceLookup(table, 1, r, w, 0x100, goal);
    r, w := SliceLookup(table, 0, r, w, 1, goal);
    XorZero(r);
  }

  method StepByte(table: array2<nat>, crc: nat, b: Byte) returns (r: nat)
    requires TableBuilt(table)
    ensures r == Fold(crc, [b])
  {
    hide ZeroBits;
    FoldByte(crc, b);
    var x := Xor(crc, b);
    TableStep(x);
    XorHighBits(crc, b);
    r := Xor(table[0, x % 256], crc / 256);
  }

  /** Adding a byte leaves the bits above it alone. */
  lemma XorHighBits(c: nat, b: Byte)
    ensures Xor(c, b) / 256 == c / 256
  {
    hide Xor;
    Pow2Constants();
    ShlByte(c / 256);
    XorDisjoint(8, c % 256, c / 256);
    XorCommutes(c % 256, 256 * (c / 256));
    XorAssociates(256 * (c / 256), c % 256, b);
    XorBound(8, c % 256, b);
    XorDisjoint(8, Xor(c % 256, b), c / 256);
    XorCommutes(Xor(c % 256, b), 256 * (c / 256));
  }

  /** The software CRC of the `data` found at address `addr`: bytes up to an eight-byte
      boundary, then quadwords, then the bytes left over. */
  method CrcSw(table: array2<nat>, crci: nat, addr: nat, data: seq<Byte>) returns (r: nat)
    requires TableBuilt(table)
    requires crci < WORD
    ensures r == Crc(crci, data)
  {
    var crc := Xor(crci, MASK);
    assert crc == Fold(crc, []) < WORD by { WordXorBound(crci, MASK); }
    hide Xor, FoldBits, MessageBits;
    ghost var start := crc;
    var next: nat, len: nat := 0, |data|;
    while len > 0 && (addr + next) % 8 != 0
      invariant next + len == |data|
      invariant crc == Fold(start, data[..next]) < WORD
    {
      FoldNext(start, data, next, 1);
      crc := StepByte(table, crc, data[next]);
      next, len := next + 1, len - 1;
    }
    while len >= 8
      invariant next + len == |data|
      invariant crc == Fold(start, data[..next]) < WORD
    {
      FoldNext(start, data, next, 8);
      crc := StepQuadword(table, crc, data[next..next + 8]);
      next, len := next + 8, len - 8;
    }
    while len > 0
      invariant next + len == |data|
      invariant crc == Fold(start, data[..next]) < WORD
    {
      FoldNext(start, data, next, 1);
      crc := StepByte(table, crc, data[next]);
      next, len := next + 1, len - 1;
    }
    assert data[..next] == data;
    r := Xor(crc, MASK);
  }

  lemma FoldNext(start: nat, data: seq<Byte>, next: nat, n: nat)
    requires start < WORD && next + n <= |data|
    ensures Fold(start, data[..next + n]) == Fold(Fold(start, data[..next]), data[next..next + n]) < WORD
    ensures n == 1 ==> data[next..next + n] == [data[next]]
  {
    assert data[..next + n] == data[..next] + data[next..next + n];
    FoldAppend(start, data[..next], data[next..next + n]);
    FoldBound(start, data[..next + n]);
  }
}
