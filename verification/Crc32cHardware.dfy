/** CRC-32C with the processor's crc instruction: operators over GF(2) that append zeros,
    the shift tables made from them, and three interleaved streams recombined with the tables. */
module Crc32cHardware {
  import opened Common
  import opened Words
  import opened Crc32cSpec
  import Crc32cSoftware

  // ---------------------------------------------------------------- matrices over GF(2)

  function Column(mat: seq<nat>, i: nat, vec: nat): nat
    requires i < |mat|
  {
    if vec % 2 == 1 then mat[i] else 0
  }

  /** Column `i` of `mat` onwards times `vec`: the sum of the columns at the set bits. */
  function Times(mat: seq<nat>, i: nat, vec: nat): nat
    requires i <= |mat| && vec < Pow2(|mat| - i)
    decreases vec
  {
    if vec == 0 then 0
    else Xor(Column(mat, i, vec), Times(mat, i + 1, vec / 2))
  }

  method GfTimes(mat: array<nat>, vec: nat) returns (sum: nat)
    requires vec < Pow2(mat.Length)
    ensures sum == Times(mat[..], 0, vec)
  {
    hide Xor, Times, Pow2;
    sum := 0;
    var v: nat, i: nat := vec, 0;
    XorZero(Times(mat[..], 0, vec));
    while v != 0
      invariant i <= mat.Length && v < Pow2(mat.Length - i)
      invariant Xor(sum, Times(mat[..], i, v)) == Times(mat[..], 0, vec)
      decreases v
    {
      HalfBound(mat.Length - i, v);
      TimesUnfold(mat[..], i, v);
      XorZero(sum);
      XorAssociates(sum, Column(mat[..], i, v), Times(mat[..], i + 1, v / 2));
      if v % 2 == 1 {
        sum := Xor(sum, mat[i]);
      }
      v, i := v / 2, i + 1;
    }
    TimesZero(mat[..], i);
    XorZero(sum);
  }

  lemma HalfBound(n: nat, v: nat)
    requires v != 0 && v < Pow2(n)
    ensures n > 0 && v / 2 < Pow2(n - 1)
  {
  }

  lemma TimesZero(mat: seq<nat>, i: nat)
    requires i <= |mat|
    ensures Times(mat, i, 0) == 0
  {
  }

  method GfSquare(square: array<nat>, mat: array<nat>)
    requires square != mat && square.Length == mat.Length
    requires forall i :: 0 <= i < mat.Length ==> mat[i] < Pow2(mat.Length)
    modifies square
    ensures forall i :: 0 <= i < mat.Length ==> square[i] == Times(mat[..], 0, mat[i])
  {
    hide Times;
    for n := 0 to mat.Length
      invariant forall i :: 0 <= i < n ==> square[i] == Times(mat[..], 0, mat[i])
    {
      square[n] := GfTimes(mat, mat[n]);
    }
  }

  lemma {:induction false} TimesLinear(mat: seq<nat>, i: nat, a: nat, b: nat)
    requires i <= |mat| && a < Pow2(|mat| - i) && b < Pow2(|mat| - i)
    ensures Xor(a, b) < Pow2(|mat| - i)
    ensures Times(mat, i, Xor(a, b)) == Xor(Times(mat, i, a), Times(mat, i, b))
    decreases a + b
  {
    hide Xor, Times, Pow2;
    if a == 0 || b == 0 {
      XorZero(if a == 0 then b else a);
      TimesZero(mat, i);
      XorZero(Times(mat, i, if a == 0 then b else a));
    } else {
      HalfBound(|mat| - i, a);
      HalfBound(|mat| - i, b);
      XorBound(|mat| - i, a, b);
      TimesLinear(mat, i + 1, a / 2, b / 2);
      ColumnLinear(mat, i, a, b);
      TimesUnfold(mat, i, a);
      TimesUnfold(mat, i, b);
      TimesUnfold(mat, i, Xor(a, b));
      XorInterchange(Column(mat, i, a), Times(mat, i + 1, a / 2), Column(mat, i, b), Times(mat, i + 1, b / 2));
    }
  }

  lemma ColumnLinear(mat: seq<nat>, i: nat, a: nat, b: nat)
    requires i < |mat|
    ensures Xor(a, b) / 2 == Xor(a / 2, b / 2)
    ensures Column(mat, i, Xor(a, b)) == Xor(Column(mat, i, a), Column(mat, i, b))
  {
    hide Xor;
    assert Xor(a, b) / 2 == Xor(a / 2, b / 2) by { XorUnfold(a, b); }
    XorOdd(a, b);
    if a % 2 == 1 && b % 2 == 1 { XorSelf(mat[i]); }
    else { XorZero(Column(mat, i, if a % 2 == 1 then a else b)); }
  }

  lemma TimesUnfold(mat: seq<nat>, i: nat, vec: nat)
    requires i < |mat| && vec < Pow2(|mat| - i)
    ensures Times(mat, i, vec) == Xor(Column(mat, i, vec), Times(mat, i + 1, vec / 2))
  {
    if vec == 0 {
      assert Times(mat, i + 1, 0) == 0;
      XorZero(0);
    }
  }

  /** Squaring is composition, for any square matrix. */
  lemma {:induction false} SquareComposes(square: seq<nat>, mat: seq<nat>, i: nat, vec: nat)
    requires |square| == |mat| && i <= |mat| && vec < Pow2(|mat| - i)
    requires forall k :: 0 <= k < |mat| ==> mat[k] < Pow2(|mat|)
    requires forall k :: 0 <= k < |mat| ==> square[k] == Times(mat, 0, mat[k])
    ensures Times(mat, i, vec) < Pow2(|mat|)
    ensures Times(square, i, vec) == Times(mat, 0, Times(mat, i, vec))
    decreases vec
  {
    hide Xor, Times, Pow2;
    TimesZero(mat, 0);
    if vec == 0 {
      TimesZero(mat, i);
      TimesZero(square, i);
    } else {
      HalfBound(|mat| - i, vec);
      SquareComposes(square, mat, i + 1, vec / 2);
      TimesLinear(mat, 0, Column(mat, i, vec), Times(mat, i + 1, vec / 2));
      TimesUnfold(square, i, vec);
      TimesUnfold(mat, i, vec);
    }
  }

  // ---------------------------------------------------------------- matrices of zero operators

  /** `mat` is the operator that appends `n` zero bits. */
  ghost predicate AppendsZeros(mat: seq<nat>, n: nat) {
    forall i :: 0 <= i < |mat| ==> mat[i] == ZeroBits(n, Shl(i, 1))
  }

  lemma {:induction false} ShlZero(k: nat)
    ensures Shl(k, 0) == 0
  {
    if k == 0 {
    } else {
      ShlZero(k - 1);
    }
  }

  lemma {:induction false} ZeroBitsZero(n: nat)
    ensures ZeroBits(n, 0) == 0
  {
    if n == 0 {
    } else {
      ZeroBitsZero(n - 1);
    }
  }

  /** The matrix acts on every vector, not just the unit ones it was built from. */
  lemma {:induction false} TimesAppendsZeros(mat: seq<nat>, n: nat, i: nat, vec: nat)
    requires AppendsZeros(mat, n)
    requires i <= |mat| && vec < Pow2(|mat| - i)
    ensures Times(mat, i, vec) == ZeroBits(n, Shl(i, vec))
    decreases vec
  {
    if vec == 0 {
      ShlZero(i);
      ZeroBitsZero(n);
    } else {
      var lo, hi := vec % 2, vec / 2;
      TimesAppendsZeros(mat, n, i + 1, hi);
      assert Times(mat, i, vec) == Xor(ZeroBits(n, Shl(i, lo)), ZeroBits(n, Shl(i + 1, hi))) by {
        hide Xor, ZeroBits;
        if lo == 0 {
          ShlZero(i);
          ZeroBitsZero(n);
        }
      }
      hide Xor, ZeroBits, Times;
      XorDisjoint(1, lo, hi);
      ShlTwice(i, hi);
      ShlXor(i, lo, 2 * hi);
      ZeroBitsLinear(n, Shl(i, lo), Shl(i, 2 * hi));
    }
  }

  lemma ColumnsBound(mat: seq<nat>, n: nat)
    requires |mat| == 32 && AppendsZeros(mat, n)
    ensures forall i :: 0 <= i < 32 ==> mat[i] < Pow2(32)
  {
    assert Pow2(1) == 2;
    hide ZeroBits, Shl, Pow2;
    forall i | 0 <= i < 32 ensures mat[i] < Pow2(32) {
      Pow2Constants();
      ShlLess(i, 1, 1);
      Pow2Monotonic(i + 1, 32);
      ZeroBitsBound(n, Shl(i, 1));
    }
  }

  /** Squaring the operator doubles the zeros it appends. */
  lemma SquareDoubles(square: seq<nat>, mat: seq<nat>, n: nat)
    requires AppendsZeros(mat, n)
    requires forall i :: 0 <= i < |mat| ==> mat[i] < Pow2(|mat|)
    requires |square| == |mat| && forall i :: 0 <= i < |mat| ==> square[i] == Times(mat, 0, mat[i])
    ensures AppendsZeros(square, 2 * n)
  {
    hide ZeroBits, Pow2, Times;
    forall i | 0 <= i < |mat| ensures square[i] == ZeroBits(2 * n, Shl(i, 1)) {
      TimesAppendsZeros(mat, n, 0, mat[i]);
      ZeroBitsAdd(n, n, Shl(i, 1));
    }
  }

  method DoubleZeros(square: array<nat>, mat: array<nat>, ghost n: nat)
    requires square != mat && square.Length == mat.Length == 32 && AppendsZeros(mat[..], n)
    modifies square
    ensures AppendsZeros(square[..], 2 * n)
  {
    hide Times, ZeroBits;
    ColumnsBound(mat[..], n);
    GfSquare(square, mat);
    SquareDoubles(square[..], mat[..], n);
  }

  /** The largest power of two not above `len`, and 1 for `len == 0`. */
  function FloorPow2(len: nat): nat {
    if len <= 1 then 1 else 2 * FloorPow2(len / 2)
  }

  lemma {:induction false} FloorPow2Meaning(len: nat) returns (k: nat)
    ensures FloorPow2(len) == Pow2(k)
    ensures len > 0 ==> Pow2(k) <= len < Pow2(k + 1)
    ensures len == 0 ==> k == 0
  {
    if len <= 1 {
      k := 0;
    } else {
      k := FloorPow2Meaning(len / 2);
      k := k + 1;
    }
  }

  /** `m` doubled once for every halving of `len` down to 1. */
  ghost function Scale(m: nat, len: nat): nat
    decreases len
  {
    if len <= 1 then m else Scale(2 * m, len / 2)
  }

  lemma {:induction false} ScaleTwice(m: nat, len: nat)
    ensures Scale(2 * m, len) == 2 * Scale(m, len)
    decreases len
  {
    if len <= 1 {
    } else {
      ScaleTwice(2 * m, len / 2);
    }
  }

  lemma {:induction false} ScaleIsFloorPow2(len: nat)
    ensures Scale(1, len) == FloorPow2(len)
  {
    if len <= 1 {
    } else {
      ScaleIsFloorPow2(len / 2);
      ScaleTwice(1, len / 2);
    }
  }

  lemma OneZeroBitColumn(n: nat)
    ensures ZeroBits(1, Shl(n, 1)) == if n == 0 then POLY else Shl(n - 1, 1)
  {
    var c := Shl(n, 1);
    assert ZeroBits(1, c) == ZeroBits(0, BitStep(c)) == BitStep(c);
    XorZero(POLY);
    hide Xor;
  }

  lemma UnitColumns(n: nat)
    ensures Shl(n, 1) == if n == 0 then 1 else 2 * Shl(n - 1, 1)
  {
  }

  /** The operator for one zero bit: the polynomial, then the unit vectors shifted down. */
  method OneZeroBit(odd: array<nat>)
    requires odd.Length == 32
    modifies odd
    ensures AppendsZeros(odd[..], 1)
  {
    hide ZeroBits, Shl, Xor;
    odd[0] := POLY;
    var row := 1;
    UnitColumns(0);
    OneZeroBitColumn(0);
    for n := 1 to 32
      invariant row == Shl(n - 1, 1)
      invariant forall i :: 0 <= i < n ==> odd[i] == ZeroBits(1, Shl(i, 1))
    {
      UnitColumns(n);
      OneZeroBitColumn(n);
      odd[n] := row;
      row := row * 2;
    }
  }

  /** The operator for `len` zero bytes, rounded down to a power of two, by repeated squaring
      that alternates between `even` and `odd`. */
  method ZerosOp(even: array<nat>, len: nat)
    requires even.Length == 32
    modifies even
    ensures AppendsZeros(even[..], 8 * FloorPow2(len))
  {
    hide ZeroBits, Shl;
    var odd := new nat[32];
    OneZeroBit(odd);
    DoubleZeros(even, odd, 1);
    DoubleZeros(odd, even, 2);
    assert Scale(8, len) == 8 * FloorPow2(len) by {
      ScaleIsFloorPow2(len);
      ScaleTwice(1, len);
      ScaleTwice(2, len);
      ScaleTwice(4, len);
    }
    ghost var bits: nat := 4;
    var l := len;
    while true
      invariant AppendsZeros(odd[..], bits)
      invariant Scale(2 * bits, l) == 8 * FloorPow2(len)
      decreases l
    {
      DoubleZeros(even, odd, bits);
      l := l / 2;
      if l == 0 {
        return;
      }
      DoubleZeros(odd, even, 2 * bits);
      bits := 4 * bits;
      l := l / 2;
      if l == 0 {
        break;
      }
    }
    for n := 0 to 32
      invariant even[..n] == odd[..n]
      invariant AppendsZeros(odd[..], bits)
    {
      even[n] := odd[n];
    }
    assert even[..] == odd[..];
  }

  // ---------------------------------------------------------------- shift tables

  /** The four tables that append `n` zero bits, one for each byte of the register. */
  ghost predicate ShiftTables(zeros: array2<nat>, n: nat)
    reads zeros
  {
    && zeros.Length0 == 4 && zeros.Length1 == 256
    && forall j, b :: 0 <= j < 4 && 0 <= b < 256 ==> zeros[j, b] == ZeroBits(n, Shl(8 * j, b))
  }

  lemma ShlBytesBound(j: nat, b: nat)
    requires j < 4 && b < 256
    ensures Shl(8 * j, b) < Pow2(32)
  {
    hide Shl, Pow2;
    Pow2Constants();
    ShlLess(8 * j, b, 8);
    Pow2Monotonic(8 * j + 8, 32);
  }

  lemma {:induction false} ShlLess(k: nat, x: nat, m: nat)
    requires x < Pow2(m)
    ensures Shl(k, x) < Pow2(k + m)
  {
    if k == 0 {
    } else {
      ShlLess(k - 1, x, m);
    }
  }

  method Zeros(zeros: array2<nat>, len: nat)
    requires zeros.Length0 == 4 && zeros.Length1 == 256
    modifies zeros
    ensures ShiftTables(zeros, 8 * FloorPow2(len))
  {
    hide ZeroBits, Times, Pow2;
    var op := new nat[32];
    ZerosOp(op, len);
    ghost var bits := 8 * FloorPow2(len);
    for n := 0 to 256
      invariant AppendsZeros(op[..], bits)
      invariant forall j, b :: 0 <= j < 4 && 0 <= b < n ==> zeros[j, b] == ZeroBits(bits, Shl(8 * j, b))
    {
      zeros[0, n] := ApplyOp(op, bits, 0, n);
      zeros[1, n] := ApplyOp(op, bits, 1, n);
      zeros[2, n] := ApplyOp(op, bits, 2, n);
      zeros[3, n] := ApplyOp(op, bits, 3, n);
    }
  }

  /** The operator applied to byte `b` in position `j` of an otherwise zero register. */
  method ApplyOp(op: array<nat>, ghost bits: nat, j: nat, b: nat) returns (r: nat)
    requires op.Length == 32 && AppendsZeros(op[..], bits) && j < 4 && b < 256
    ensures r == ZeroBits(bits, Shl(8 * j, b))
  {
    ShlBytesBound(j, b);
    TimesAppendsZeros(op[..], bits, 0, Shl(8 * j, b));
    r := GfTimes(op, Shl(8 * j, b));
  }

  lemma {:induction false} ShlStep(k: nat, w: nat)
    ensures Shl(k, w) == Xor(Shl(k, w % 256), Shl(k + 8, w / 256))
  {
    hide Xor;
    Pow2Constants();
    XorDisjoint(8, w % 256, w / 256);
    ShlByte(w / 256);
    ShlXor(k, w % 256, 256 * (w / 256));
    ShlAdd(k, 8, w / 256);
  }

  /** One lookup of the shift: byte `j` of the register leaves through its own table. */
  method ShiftLookup(zeros: array2<nat>, ghost n: nat, j: nat, acc: nat, w: nat, ghost goal: nat)
    returns (acc': nat, w': nat)
    requires ShiftTables(zeros, n) && j < 4
    requires w < Pow2(32 - 8 * j) && goal == Xor(acc, ZeroBits(n, Shl(8 * j, w)))
    ensures w' < Pow2(24 - 8 * j) && goal == Xor(acc', ZeroBits(n, Shl(8 * j + 8, w')))
  {
    hide Xor, ZeroBits, Shl, Pow2;
    Pow2Byte(24 - 8 * j);
    ShlStep(8 * j, w);
    ZeroBitsLinear(n, Shl(8 * j, w % 256), Shl(8 * j + 8, w / 256));
    XorAssociates(acc, ZeroBits(n, Shl(8 * j, w % 256)), ZeroBits(n, Shl(8 * j + 8, w / 256)));
    acc', w' := Xor(acc, zeros[j, w % 256]), w / 256;
  }

  lemma ShiftStart(crc: nat)
    requires crc < WORD
    ensures crc < Pow2(32) && Shl(0, crc) == crc && Pow2(0) == 1
  {
    Pow2Constants();
  }

  /** The tables applied to a register append their zeros to it. */
  method Shift(zeros: array2<nat>, ghost n: nat, crc: nat) returns (r: nat)
    requires ShiftTables(zeros, n) && crc < WORD
    ensures r == ZeroBits(n, crc)
  {
    hide *;
    ShiftStart(crc);
    ghost var goal := ZeroBits(n, crc);
    XorZero(goal);
    var w := crc;
    r := 0;
    r, w := ShiftLookup(zeros, n, 0, r, w, goal);
    r, w := ShiftLookup(zeros, n, 1, r, w, goal);
    r, w := ShiftLookup(zeros, n, 2, r, w, goal);
    r, w := ShiftLookup(zeros, n, 3, r, w, goal);
    ShlZero(32);
    ZeroBitsZero(n);
    XorZero(r);
  }

  // ---------------------------------------------------------------- three streams

  const LONG: nat := 8192
  const SHORT: nat := 256

  /** The `crc32b` instruction: eight bit steps. */
  function Crc32b(c: nat, b: Byte): nat {
    ZeroBits(8, Xor(c, b))
  }

  /** The `crc32q` instruction on the eight bytes at its operand: sixty-four bit steps. */
  function Crc32q(c: nat, q: seq<Byte>): nat
    requires |q| == 8
  {
    ZeroBits(64, Xor(c, Load(q)))
  }

  lemma FoldOneMore(c: nat, data: seq<Byte>, from: nat, next: nat)
    requires from <= next < |data|
    ensures Fold(c, data[from..next + 1]) == Crc32b(Fold(c, data[from..next]), data[next])
    ensures c < WORD ==> Fold(c, data[from..next + 1]) < WORD
  {
    if c < WORD { FoldBound(c, data[from..next + 1]); }
    assert data[from..next + 1] == data[from..next] + [data[next]];
    FoldAppend(c, data[from..next], [data[next]]);
    FoldByte(Fold(c, data[from..next]), data[next]);
  }

  lemma FoldEightMore(c: nat, data: seq<Byte>, from: nat, next: nat)
    requires from <= next && next + 8 <= |data|
    ensures Fold(c, data[from..next + 8]) == Crc32q(Fold(c, data[from..next]), data[next..next + 8])
    ensures c < WORD ==> Fold(c, data[from..next + 8]) < WORD
  {
    if c < WORD { FoldBound(c, data[from..next + 8]); }
    assert data[from..next + 8] == data[from..next] + data[next..next + 8];
    FoldAppend(c, data[from..next], data[next..next + 8]);
    FoldIsZeroBits(Fold(c, data[from..next]), data[next..next + 8]);
  }

  lemma FoldNone(c: nat, data: seq<Byte>, at: nat)
    requires at <= |data|
    ensures Fold(c, data[at..at]) == c
  {
    assert data[at..at] == [];
  }

  /** Three neighbouring blocks of `n` bytes, run side by side and then joined. */
  method ThreeStreams(zeros: array2<nat>, n: nat, crc: nat, data: seq<Byte>, next: nat) returns (r: nat)
    requires n > 0 && n % 8 == 0 && ShiftTables(zeros, 8 * n)
    requires crc < WORD && next + 3 * n <= |data|
    ensures r == Fold(crc, data[next..next + 3 * n]) < WORD
  {
    hide *;
    var b, c := next + n, next + 2 * n;
    var crc0, crc1, crc2 := crc, 0, 0;
    FoldNone(crc, data, next);
    FoldNone(0, data, b);
    FoldNone(0, data, c);
    var i := 0;
    while true
      invariant 0 <= i < n && i % 8 == 0
      invariant crc0 == Fold(crc, data[next..next + i])
      invariant crc1 == Fold(0, data[b..b + i])
      invariant crc2 == Fold(0, data[c..c + i])
      decreases n - i
    {
      FoldEightMore(crc, data, next, next + i);
      FoldEightMore(0, data, b, b + i);
      FoldEightMore(0, data, c, c + i);
      crc0 := Crc32q(crc0, data[next + i..next + i + 8]);
      crc1 := Crc32q(crc1, data[b + i..b + i + 8]);
      crc2 := Crc32q(crc2, data[c + i..c + i + 8]);
      i := i + 8;
      if i >= n { break; }
    }
    JoinStreams(crc, data[next..b], data[b..c]);
    JoinStreams(crc, data[next..c], data[c..c + n]);
    assert data[next..b] + data[b..c] == data[next..c];
    assert data[next..c] + data[c..c + n] == data[next..next + 3 * n];
    crc0 := Shift(zeros, 8 * n, crc0);
    crc0 := Xor(crc0, crc1);
    crc0 := Shift(zeros, 8 * n, crc0);
    r := Xor(crc0, crc2);
  }

  lemma JoinStreams(c: nat, s: seq<Byte>, t: seq<Byte>)
    requires c < WORD
    ensures Fold(c, s) < WORD && Fold(c, s + t) < WORD
    ensures Fold(c, s + t) == Xor(ZeroBits(8 * |t|, Fold(c, s)), Fold(0, t))
  {
    FoldBound(c, s);
    FoldBound(c, s + t);
    FoldStreams(c, s, t);
  }

  /** The loop over groups of three `n`-byte blocks. */
  method Blocks(zeros: array2<nat>, n: nat, ghost start: nat, crc: nat, data: seq<Byte>, at: nat, size: nat)
    returns (crc0: nat, next: nat, len: nat)
    requires n > 0 && n % 8 == 0 && ShiftTables(zeros, 8 * n)
    requires at + size == |data| && crc == Fold(start, data[..at]) < WORD
    ensures next + len == |data| && crc0 == Fold(start, data[..next]) < WORD
  {
    hide *;
    crc0, next, len := crc, at, size;
    while len >= n * 3
      invariant next + len == |data|
      invariant crc0 == Fold(start, data[..next]) < WORD
    {
      Extend(start, data, next, 3 * n);
      crc0 := ThreeStreams(zeros, n, crc0, data, next);
      next, len := next + n * 3, len - n * 3;
    }
  }

  /** The loop over the eight-byte units too few for a group of blocks. */
  method Quadwords(ghost start: nat, crc: nat, data: seq<Byte>, at: nat, end: nat) returns (crc0: nat)
    requires at <= end <= |data| && (end - at) % 8 == 0
    requires start < WORD && crc == Fold(start, data[..at])
    ensures crc0 == Fold(start, data[..end]) < WORD
  {
    hide *;
    FoldBound(start, data[..at]);
    var next: nat := at;
    crc0 := crc;
    ghost var left: nat := (end - at) / 8;
    while next < end
      invariant next <= end && next + 8 * left == end
      invariant crc0 == Fold(start, data[..next]) < WORD
    {
      FoldEightMore(start, data, 0, next);
      crc0 := Crc32q(crc0, data[next..next + 8]);
      next, left := next + 8, left - 1;
    }
  }

  /** The hardware CRC of the `data` found at address `addr`. */
  lemma BlockLengths()
    ensures LONG > 0 && LONG % 8 == 0 && SHORT > 0 && SHORT % 8 == 0
  {
  }

  lemma CrcStart(crc: nat, data: seq<Byte>)
    requires crc < WORD
    ensures Xor(crc, MASK) == Fold(Xor(crc, MASK), data[..0]) < WORD
    ensures Crc(crc, data) == Xor(Fold(Xor(crc, MASK), data), MASK)
  {
    WordXorBound(crc, MASK);
    hide Xor;
  }

  /** The bytes before the first aligned address. */
  method ToAligned(ghost start: nat, crc: nat, data: seq<Byte>, addr: nat) returns (crc0: nat, next: nat, len: nat)
    requires start < WORD && crc == Fold(start, data[..0]) < WORD
    ensures next + len == |data| && crc0 == Fold(start, data[..next]) < WORD
  {
    hide *;
    crc0, next, len := crc, 0, |data|;
    while len > 0 && (addr + next) % 8 != 0
      invariant next + len == |data| && crc0 == Fold(start, data[..next]) < WORD
    {
      FoldOneMore(start, data, 0, next);
      crc0 := Crc32b(crc0, data[next]);
      next, len := next + 1, len - 1;
    }
  }

  /** The bytes after the last eight-byte unit. */
  method LastBytes(ghost start: nat, crc: nat, data: seq<Byte>, at: nat, size: nat) returns (crc0: nat)
    requires at + size == |data| && start < WORD && crc == Fold(start, data[..at]) < WORD
    ensures crc0 == Fold(start, data) < WORD
  {
    hide *;
    crc0 := crc;
    var next, len := at, size;
    while len > 0
      invariant next + len == |data| && crc0 == Fold(start, data[..next]) < WORD
    {
      FoldOneMore(start, data, 0, next);
      crc0 := Crc32b(crc0, data[next]);
      next, len := next + 1, len - 1;
    }
    assert data[..next] == data;
  }

  method CrcHw(long: array2<nat>, short: array2<nat>, crc: nat, addr: nat, data: seq<Byte>) returns (r: nat)
    requires ShiftTables(long, 8 * LONG) && ShiftTables(short, 8 * SHORT)
    requires crc < WORD
    ensures r == Crc(crc, data)
  {
    hide *;
    ghost var start := Xor(crc, MASK);
    var crc0 := Xor(crc, MASK);
    CrcStart(crc, data);
    var next: nat, len: nat := 0, |data|;
    crc0, next, len := ToAligned(start, crc0, data, addr);
    BlockLengths();
    crc0, next, len := Blocks(long, LONG, start, crc0, data, next, len);
    crc0, next, len := Blocks(short, SHORT, start, crc0, data, next, len);
    crc0 := Quadwords(start, crc0, data, next, next + (len - len % 8));
    next, len := next + (len - len % 8), len % 8;
    crc0 := LastBytes(start, crc0, data, next, len);
    r := Xor(crc0, MASK);
  }

  lemma Extend(start: nat, data: seq<Byte>, next: nat, n: nat)
    requires next + n <= |data|
    ensures Fold(start, data[..next + n]) == Fold(Fold(start, data[..next]), data[next..next + n])
  {
    assert data[..next + n] == data[..next] + data[next..next + n];
    FoldAppend(start, data[..next], data[next..next + n]);
  }

  // ---------------------------------------------------------------- entry point

  datatype Implementation = Unset | Hardware | Software

  /** The file's static tables, built on first use, and the implementation picked once. */
  class Crc32c {
    const table: array2<nat>
    const long: array2<nat>
    const short: array2<nat>
    var softwareReady: bool
    var hardwareReady: bool
    var chosen: Implementation

    ghost predicate Valid()
      reads this, table, long, short
    {
      && table != long && table != short && long != short
      && table.Length0 == 8 && table.Length1 == 256
      && long.Length0 == 4 && long.Length1 == 256
      && short.Length0 == 4 && short.Length1 == 256
      && (softwareReady ==> Crc32cSoftware.TableBuilt(table))
      && (hardwareReady ==> ShiftTables(long, 8 * LONG) && ShiftTables(short, 8 * SHORT))
    }

    constructor ()
      ensures Valid() && fresh(table) && fresh(long) && fresh(short)
    {
      table := new nat[8, 256];
      long := new nat[4, 256];
      short := new nat[4, 256];
      softwareReady, hardwareReady, chosen := false, false, Unset;
    }

    /** The CRC of `data` at `addr`, whichever implementation the processor allows. */
    method Compute(crc: nat, addr: nat, data: seq<Byte>, sse42: bool) returns (r: nat)
      requires Valid() && crc < WORD
      modifies this, table, long, short
      ensures Valid()
      ensures r == Crc(crc, data) < WORD
    {
      hide Crc, ZeroBits;
      CrcBound(crc, data);
      if chosen == Unset {
        chosen := if sse42 then Hardware else Software;
      }
      if chosen == Hardware {
        if !hardwareReady {
          InitHw(long, short);
          hardwareReady := true;
        }
        r := CrcHw(long, short, crc, addr, data);
      } else {
        if !softwareReady {
          Crc32cSoftware.InitSw(table);
          softwareReady := true;
        }
        r := Crc32cSoftware.CrcSw(table, crc, addr, data);
      }
    }
  }

  method InitHw(long: array2<nat>, short: array2<nat>)
    requires long != short
    requires long.Length0 == 4 && long.Length1 == 256
    requires short.Length0 == 4 && short.Length1 == 256
    modifies long, short
    ensures ShiftTables(long, 8 * LONG) && ShiftTables(short, 8 * SHORT)
  {
    hide ZeroBits;
    BlockSizesArePowers();
    Zeros(long, LONG);
    Zeros(short, SHORT);
  }

  lemma BlockSizesArePowers()
    ensures FloorPow2(LONG) == LONG && FloorPow2(SHORT) == SHORT
  {
  }
}
