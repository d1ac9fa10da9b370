/** What a CRC-32C is: the remainder of a division of polynomials over GF(2).

    A polynomial is a natural number whose bit `k` is the coefficient of `x^k`.  Nothing here steps a
    register: division is stated through multiplication.  The register holds its remainder with the
    bits in reverse order, as section 12.1 of RFC 3720 has it.
 */
module Crc32cPoly {
  import opened Common
  import opened Words
  import opened Crc32cSpec

  // ---------------------------------------------------------------- polynomials

  /** The generator 11edc6f41: `x^32 + x^28 + ... + 1`. */
  const GENERATOR: nat := 0x1_1edc_6f41

  /** The product of two polynomials. */
  function Times(a: nat, b: nat): nat {
    if a == 0 then 0 else Xor(if a % 2 == 1 then b else 0, 2 * Times(a / 2, b))
  }

  /** `r` is what is left of `p` after division by the generator. */
  ghost predicate Remainder(p: nat, r: nat) {
    r < WORD && exists q :: p == Xor(Times(q, GENERATOR), r)
  }

  /** Multiples of a polynomial are closed under addition. */
  lemma {:induction false} TimesAdds(a: nat, b: nat, g: nat)
    ensures Times(Xor(a, b), g) == Xor(Times(a, g), Times(b, g))
    decreases a + b
  {
    if a == 0 || b == 0 {
    } else {
      TimesAdds(a / 2, b / 2, g);
      TimesUnfold(a, g);
      TimesUnfold(b, g);
      TimesUnfold(Xor(a, b), g);
      XorUnfold(a, b);
      XorOdd(a, b);
      hide Times, Xor;
      var x, y := if a % 2 == 1 then g else 0, if b % 2 == 1 then g else 0;
      var s, t := Times(a / 2, g), Times(b / 2, g);
      XorSelf(g);
      XorZero(g);
      XorZero(0);
      XorDouble(s, t);
      XorInterchange(x, 2 * s, y, 2 * t);
    }
  }

  lemma TimesUnfold(a: nat, g: nat)
    ensures Times(a, g) == Xor(if a % 2 == 1 then g else 0, 2 * Times(a / 2, g))
  {
  }

  /** A multiple of the generator that is not zero has degree 32 or more. */
  lemma {:induction false} TimesLarge(q: nat)
    requires q > 0
    ensures Times(q, GENERATOR) >= WORD
  {
    TimesUnfold(q, GENERATOR);
    if q == 1 {
      XorZero(GENERATOR);
    } else {
      TimesLarge(q / 2);
      hide Times;
      var t := Times(q / 2, GENERATOR);
      HighStays(if q % 2 == 1 then GENERATOR else 0, 2 * t);
    }
  }

  /** Adding the generator does not bring a polynomial of degree 33 or more down. */
  lemma HighStays(a: nat, b: nat)
    requires a < 2 * WORD <= b
    ensures Xor(a, b) >= WORD
  {
    hide Xor;
    Pow2Constants();
    XorCommutes(a, b);
    XorAssociates(a, a, b);
    XorSelf(a);
    XorZero(b);
    if Xor(a, b) < 2 * WORD {
      assert Pow2(33) == 2 * Pow2(32);
      XorBound(33, a, Xor(a, b));
    }
  }

  /** So there is one remainder only. */
  lemma RemainderUnique(p: nat, r: nat, s: nat)
    requires Remainder(p, r) && Remainder(p, s)
    ensures r == s
  {
    var u :| p == Xor(Times(u, GENERATOR), r);
    var v :| p == Xor(Times(v, GENERATOR), s);
    hide *;
    var a, b := Times(u, GENERATOR), Times(v, GENERATOR);
    TimesAdds(u, v, GENERATOR);
    SameSum(a, r, b, s);
    WordXorBound(r, s);
    if Xor(u, v) != 0 { TimesLarge(Xor(u, v)); }
    TimesZero();
    XorEqual(r, s);
  }

  lemma TimesZero()
    ensures Times(0, GENERATOR) == 0
  {
  }

  lemma SameSum(a: nat, r: nat, b: nat, s: nat)
    requires Xor(a, r) == Xor(b, s)
    ensures Xor(a, b) == Xor(r, s)
  {
    hide Xor;
    XorInterchange(a, r, b, s);
    XorSelf(Xor(a, r));
    XorEqual(Xor(a, b), Xor(r, s));
  }

  lemma XorEqual(a: nat, b: nat)
    requires Xor(a, b) == 0
    ensures a == b
  {
    hide Xor;
    XorAssociates(a, b, b);
    XorSelf(b);
    XorZero(a);
    XorZero(b);
  }

  // ---------------------------------------------------------------- bit order

  /** The low `n` bits of `w`, in reverse order. */
  function Reversed(n: nat, w: nat): nat {
    if n == 0 then 0 else Shl(n - 1, w % 2) + Reversed(n - 1, w / 2)
  }

  lemma {:induction false} ReversedBound(n: nat, w: nat)
    ensures Reversed(n, w) < Pow2(n)
  {
    if n == 0 {
    } else {
      ReversedBound(n - 1, w / 2);
      ShlBit(n - 1, w % 2);
    }
  }

  lemma {:induction false} ShlBit(k: nat, b: nat)
    requires b < 2
    ensures Shl(k, b) == if b == 1 then Pow2(k) else 0
  {
    if k == 0 {
    } else {
      ShlBit(k - 1, b);
    }
  }

  /** The lowest bit becomes the highest; it and the rest do not overlap. */
  lemma ReversedUnfold(n: nat, w: nat)
    requires n > 0
    ensures Reversed(n, w) == Xor(Reversed(n - 1, w / 2), Shl(n - 1, w % 2))
  {
    hide Xor, Shl;
    ReversedBound(n - 1, w / 2);
    XorDisjoint(n - 1, Reversed(n - 1, w / 2), w % 2);
  }

  lemma {:induction false} ReversedXor(n: nat, a: nat, b: nat)
    ensures Reversed(n, Xor(a, b)) == Xor(Reversed(n, a), Reversed(n, b))
  {
    if n == 0 {
    } else {
      var s := Xor(a, b);
      ReversedUnfold(n, a);
      ReversedUnfold(n, b);
      ReversedUnfold(n, s);
      hide Reversed, Xor;
      ReversedXor(n - 1, a / 2, b / 2);
      XorUnfold(a, b);
      BitXor(a, b);
      ShlXor(n - 1, a % 2, b % 2);
      XorInterchange(Reversed(n - 1, a / 2), Shl(n - 1, a % 2), Reversed(n - 1, b / 2), Shl(n - 1, b % 2));
    }
  }

  lemma BitXor(a: nat, b: nat)
    ensures Xor(a, b) % 2 == Xor(a % 2, b % 2)
  {
    XorOdd(a, b);
    XorOdd(a % 2, b % 2);
    XorUnfold(a % 2, b % 2);
    assert a % 2 / 2 == 0 && b % 2 / 2 == 0;
  }

  /** A word with its top bit clear is reversed within fewer bits, then moved up. */
  lemma {:induction false} ReversedWider(n: nat, w: nat)
    requires w < Pow2(n)
    ensures Reversed(n + 1, w) == 2 * Reversed(n, w)
  {
    if n == 0 {
      assert Reversed(1, 0) == Shl(0, 0) + Reversed(0, 0);
    } else {
      ReversedWider(n - 1, w / 2);
      assert Shl(n, w % 2) == 2 * Shl(n - 1, w % 2);
    }
  }

  // ---------------------------------------------------------------- the register is the remainder

  lemma {:induction false} ShlPlus(k: nat, a: nat, b: nat)
    ensures Shl(k, a + b) == Shl(k, a) + Shl(k, b)
  {
    if k == 0 {
    } else {
      ShlPlus(k - 1, a, b);
    }
  }

  /** The low part of a word, reversed, comes on top of the high part. */
  lemma {:induction false} ReversedJoin(m: nat, n: nat, lo: nat, hi: nat)
    requires lo < Pow2(m)
    ensures Reversed(m + n, lo + Shl(m, hi)) == Shl(n, Reversed(m, lo)) + Reversed(n, hi)
    decreases m
  {
    if m == 0 {
      ShlPlus(n, 0, 0);
    } else {
      var w := lo + Shl(m, hi);
      assert Shl(m, hi) == 2 * Shl(m - 1, hi) && w % 2 == lo % 2 && w / 2 == lo / 2 + Shl(m - 1, hi);
      assert Reversed(m + n, w) == Shl(m + n - 1, lo % 2) + Reversed(m - 1 + n, w / 2);
      ReversedJoin(m - 1, n, lo / 2, hi);
      assert Reversed(m, lo) == Shl(m - 1, lo % 2) + Reversed(m - 1, lo / 2);
      hide Reversed, Pow2;
      ShlPlus(n, Shl(m - 1, lo % 2), Reversed(m - 1, lo / 2));
      ShlAdd(m - 1, n, lo % 2);
      ShlAdd(n, m - 1, lo % 2);
    }
  }

  lemma ReversedByte(n: nat, b: nat, hi: nat)
    requires b < 256
    ensures Reversed(n + 8, b + 256 * hi) == Shl(n, Reversed(8, b)) + Reversed(n, hi)
  {
    hide Reversed, Pow2;
    Pow2Constants();
    ShlByte(hi);
    ReversedJoin(8, n, b, hi);
  }

  lemma ReversedNibble(w: nat)
    ensures Reversed(4, w) == 8 * (w % 2) + 4 * (w / 2 % 2) + 2 * (w / 4 % 2) + w / 8 % 2
  {
    ReversedOne(3, w);
    ReversedOne(2, w / 2);
    ReversedOne(1, w / 4);
    ReversedOne(0, w / 8);
    ReversedNone(w / 16);
    hide *;
    assert w / 2 / 2 == w / 4 && w / 4 / 2 == w / 8 && w / 8 / 2 == w / 16;
    ShlSmall(w % 2);
    ShlSmall(w / 2 % 2);
    ShlSmall(w / 4 % 2);
    ShlSmall(w / 8 % 2);
  }

  lemma ReversedOne(n: nat, w: nat)
    ensures Reversed(n + 1, w) == Shl(n, w % 2) + Reversed(n, w / 2)
  {
  }

  lemma ReversedNone(w: nat)
    ensures Reversed(0, w) == 0
  {
  }

  lemma ShlSmall(x: nat)
    ensures Shl(0, x) == x && Shl(1, x) == 2 * x && Shl(2, x) == 4 * x && Shl(3, x) == 8 * x && Shl(4, x) == 16 * x
  {
    assert Shl(1, x) == 2 * Shl(0, x);
    assert Shl(2, x) == 2 * Shl(1, x);
    assert Shl(3, x) == 2 * Shl(2, x);
    assert Shl(4, x) == 2 * Shl(3, x);
  }

  lemma Pow2Four()
    ensures Pow2(4) == 16
  {
    assert Pow2(1) == 2 && Pow2(2) == 4 && Pow2(3) == 8;
  }

  lemma ReversedNibbles(lo: nat, hi: nat)
    requires lo < 16
    ensures Reversed(8, lo + 16 * hi) == 16 * Reversed(4, lo) + Reversed(4, hi)
  {
    hide *;
    Pow2Four();
    ShlSmall(hi);
    ReversedJoin(4, 4, lo, hi);
    ShlSmall(Reversed(4, lo));
  }

  lemma PolynomialBytes()
    ensures Reversed(8, 0x78) == 0x1e && Reversed(8, 0x3b) == 0xdc && Reversed(8, 0xf6) == 0x6f && Reversed(8, 0x82) == 0x41
  {
    hide *;
    ReversedNibbles(0x8, 0x7);
    ReversedNibbles(0xb, 0x3);
    ReversedNibbles(0x6, 0xf);
    ReversedNibbles(0x2, 0x8);
    ReversedNibble(0x8);
    ReversedNibble(0x7);
    ReversedNibble(0xb);
    ReversedNibble(0x3);
    ReversedNibble(0x6);
    ReversedNibble(0xf);
    ReversedNibble(0x2);
  }

  lemma PolynomialParts()
    ensures POLY == 0x78 + 256 * 0x82f63b && GENERATOR - WORD == 0x1edc_6f41
  {
  }

  /** The constant folded in is the generator without its highest term, in reverse order. */
  lemma ReversedPolynomial()
    ensures Reversed(32, POLY) == GENERATOR - WORD
  {
    hide *;
    PolynomialParts();
    PolynomialBytes();
    ReversedByte(24, 0x78, 0x82f63b);
    ReversedByte(16, 0x3b, 0x82f6);
    ReversedByte(8, 0xf6, 0x82);
    ShlBytes(0x1e);
    ShlBytes(0xdc);
    ShlByte(0x6f);
  }

  lemma ShlBytes(x: nat)
    ensures Shl(16, x) == 0x1_0000 * x && Shl(24, x) == 0x100_0000 * x
  {
    hide *;
    ShlByte(x);
    ShlByte(256 * x);
    ShlByte(0x1_0000 * x);
    ShlAdd(8, 8, x);
    ShlAdd(8, 16, x);
  }

  lemma BitIsSmall(b: nat)
    requires b < 2
    ensures b < WORD
  {
  }

  lemma RemainderBy(p: nat, q: nat, r: nat)
    requires r < WORD && p == Xor(Times(q, GENERATOR), r)
    ensures Remainder(p, r)
  {
  }

  lemma ReversedWordBound(w: nat)
    ensures Reversed(32, w) < WORD
  {
    hide Reversed;
    ReversedBound(32, w);
    Pow2Constants();
  }

  /** The multiples of the generator in the dividend are doubled; the rest is the register with the bit. */
  lemma DividendStep(t: nat, c: nat, b: nat)
    requires b < 2
    ensures Xor(2 * Xor(t, Reversed(32, c)), Shl(32, b)) == Xor(2 * t, 2 * Reversed(32, Xor(c, b)))
  {
    hide *;
    var r := Reversed(32, c);
    ReversedXor(32, c, b);
    ReversedBit(b);
    XorDouble(t, r);
    XorDouble(r, Shl(31, b));
    ShlOne(31, b);
    XorAssociates(2 * t, 2 * r, Shl(32, b));
  }

  lemma ShlOne(k: nat, x: nat)
    ensures Shl(k + 1, x) == 2 * Shl(k, x)
  {
  }

  lemma ReversedBit(b: nat)
    requires b < 2
    ensures Reversed(32, b) == Shl(31, b)
  {
    ReversedOne(31, b);
    assert b % 2 == b && b / 2 == 0;
    hide Reversed;
    ReversedZero(31);
  }

  lemma {:induction false} ReversedZero(n: nat)
    ensures Reversed(n, 0) == 0
  {
    if n == 0 {
    } else {
      ReversedZero(n - 1);
      ShlBit(n - 1, 0);
    }
  }

  /** Moved up, the register differs from its next value by the generator if its high bit was set. */
  lemma RegisterStep(w: nat)
    requires w < WORD
    ensures 2 * Reversed(32, w) == Xor(if w % 2 == 1 then GENERATOR else 0, Reversed(32, BitStep(w)))
  {
    hide *;
    var low := Reversed(32, w / 2);
    ReversedHalf(w);
    BitStepMeaning(w);
    if w % 2 == 1 {
      ReversedXor(32, w / 2, POLY);
      ReversedPolynomial();
      HighTerm(low, GENERATOR - WORD);
    } else {
      XorZero(low);
    }
  }

  lemma BitStepMeaning(w: nat)
    ensures BitStep(w) == if w % 2 == 1 then Xor(w / 2, POLY) else w / 2
  {
  }

  lemma ReversedHalf(w: nat)
    requires w < WORD
    ensures 2 * Reversed(32, w) == (if w % 2 == 1 then WORD else 0) + Reversed(32, w / 2)
    ensures Reversed(32, w / 2) < WORD && GENERATOR - WORD >= 0 && GENERATOR - WORD < WORD
  {
    ReversedOne(31, w);
    Pow2Constants();
    hide Reversed;
    assert w / 2 < Pow2(31) by { assert Pow2(32) == 2 * Pow2(31); }
    ReversedWider(31, w / 2);
    ShlBit(31, w % 2);
    assert Pow2(32) == 2 * Pow2(31);
    ReversedWordBound(w / 2);
  }

  lemma HighTerm(low: nat, poly: nat)
    requires low < WORD && poly < WORD
    ensures WORD + low == Xor(WORD + poly, Xor(low, poly))
  {
    hide Xor;
    Pow2Constants();
    ShlBit(32, 1);
    hide Shl, Pow2;
    XorDisjoint(32, low, 1);
    XorDisjoint(32, poly, 1);
    XorInterchange(poly, WORD, low, poly);
    XorCommutes(low, poly);
    XorCommutes(WORD, poly);
    XorInterchange(poly, WORD, poly, low);
    XorSelf(poly);
    XorZero(Xor(WORD, low));
    XorCommutes(low, WORD);
  }

  lemma TimesStep(q: nat, k: nat)
    requires k < 2
    ensures Times(2 * q + k, GENERATOR) == Xor(if k == 1 then GENERATOR else 0, 2 * Times(q, GENERATOR))
  {
    TimesUnfold(2 * q + k, GENERATOR);
    assert (2 * q + k) / 2 == q && (2 * q + k) % 2 == k;
  }

  lemma StepBy(p: nat, q: nat, c: nat, b: nat)
    requires c < WORD && b < 2 && p == Xor(Times(q, GENERATOR), Reversed(32, c))
    ensures Remainder(Xor(2 * p, Shl(32, b)), Reversed(32, BitStep(Xor(c, b))))
  {
    hide *;
    var w := Xor(c, b);
    var r, t, g := Reversed(32, BitStep(w)), Times(q, GENERATOR), if w % 2 == 1 then GENERATOR else 0;
    BitIsSmall(b);
    WordXorBound(c, b);
    BitStepBound(w);
    ReversedWordBound(BitStep(w));
    DividendStep(t, c, b);
    RegisterStep(w);
    TimesStep(q, w % 2);
    XorAssociates(2 * t, g, r);
    XorCommutes(2 * t, g);
    RemainderBy(Xor(2 * p, Shl(32, b)), 2 * q + w % 2, r);
  }

  /** One step: the remainder after `b` is appended to the dividend, in the register's order. */
  lemma StepRemainder(p: nat, c: nat, b: nat)
    requires c < WORD && b < 2 && Remainder(p, Reversed(32, c))
    ensures Remainder(Xor(2 * p, Shl(32, b)), Reversed(32, BitStep(Xor(c, b))))
  {
    hide Xor, Times, Reversed, Shl, BitStep;
    var q :| p == Xor(Times(q, GENERATOR), Reversed(32, c));
    StepBy(p, q, c, b);
  }

  /** A message as a polynomial; its first bit is the highest coefficient. */
  function Message(bits: seq<nat>): nat {
    if bits == [] then 0 else 2 * Message(bits[..|bits| - 1]) + bits[|bits| - 1]
  }

  /** What is divided: the message times `x^32`, with the start value added to its first 32 bits. */
  function Dividend(start: nat, bits: seq<nat>): nat {
    Xor(Shl(|bits|, start), Shl(32, Message(bits)))
  }

  ghost predicate Bits(bits: seq<nat>) {
    forall i :: 0 <= i < |bits| ==> bits[i] < 2
  }

  lemma DividendNext(start: nat, bits: seq<nat>, b: nat)
    requires b < 2
    ensures Dividend(start, bits + [b]) == Xor(2 * Dividend(start, bits), Shl(32, b))
  {
    assert (bits + [b])[..|bits|] == bits;
    var m := Message(bits);
    assert Message(bits + [b]) == 2 * m + b;
    hide Xor, Shl, Message;
    ShlOne(|bits|, start);
    ShlPlus(32, 2 * m, b);
    ShlTwice(32, m);
    ShlOne(32, m);
    ShlEven(m, b);
    XorDouble(Shl(|bits|, start), Shl(32, m));
    XorAssociates(2 * Shl(|bits|, start), 2 * Shl(32, m), Shl(32, b));
  }

  lemma ShlEven(m: nat, b: nat)
    requires b < 2
    ensures Shl(32, 2 * m + b) == Xor(2 * Shl(32, m), Shl(32, b))
  {
    hide Shl;
    ShlXor(32, 2 * m, b);
    ShlTwice(32, m);
    ShlOne(32, m);
    hide Xor;
    EvenPlus(m, b);
  }

  lemma EvenPlus(m: nat, b: nat)
    requires b < 2
    ensures Xor(2 * m, b) == 2 * m + b
  {
    assert Shl(1, m) == 2 * m && Pow2(1) == 2;
    hide Xor, Shl, Pow2;
    XorDisjoint(1, b, m);
    XorCommutes(2 * m, b);
  }

  /** The register over any bits, from any start value, is the remainder of the division. */
  lemma {:induction false} FoldBitsRemainder(c: nat, bits: seq<nat>)
    requires c < WORD && Bits(bits)
    ensures FoldBits(c, bits) < WORD
    ensures Remainder(Dividend(Reversed(32, c), bits), Reversed(32, FoldBits(c, bits)))
    decreases |bits|
  {
    if bits == [] {
      ReversedWordBound(c);
      NothingDivided(Reversed(32, c));
    } else {
      var front, b := bits[..|bits| - 1], bits[|bits| - 1];
      assert bits == front + [b];
      FoldBitsRemainder(c, front);
      FoldBitsOne(c, front, b);
      hide *;
      DividendNext(Reversed(32, c), front, b);
      StepRemainder(Dividend(Reversed(32, c), front), FoldBits(c, front), b);
      BitIsSmall(b);
      WordXorBound(FoldBits(c, front), b);
      BitStepBound(Xor(FoldBits(c, front), b));
    }
  }

  lemma FoldBitsOne(c: nat, bits: seq<nat>, b: nat)
    ensures FoldBits(c, bits + [b]) == BitStep(Xor(FoldBits(c, bits), b))
  {
    FoldBitsAppend(c, bits, [b]);
    hide Xor, BitStep;
    assert [b][1..] == [];
  }

  lemma NothingDivided(r: nat)
    requires r < WORD
    ensures Remainder(Dividend(r, []), r)
  {
    ShlPlus(32, 0, 0);
    XorZero(r);
    assert Dividend(r, []) == r;
    hide Dividend;
    TimesZero();
    RemainderBy(r, 0, r);
  }

  lemma {:induction false} BitsOfByte(w: nat, n: nat)
    ensures Bits(BitsOf(w, n))
    decreases n
  {
    if n == 0 {
    } else {
      BitsOfByte(w / 2, n - 1);
    }
  }

  lemma {:induction false} MessageIsBits(data: seq<Byte>)
    ensures Bits(MessageBits(data)) && |MessageBits(data)| == 8 * |data|
  {
    if data == [] {
    } else {
      BitsOfByte(data[0], 8);
      hide BitsOf;
      MessageIsBits(data[1..]);
    }
  }

  /** The CRC-32C of `data` continuing from `crc` is the one word that, complemented and in reverse order,
      is the remainder of the message after the complemented start value, bytes low bit first. */
  lemma CrcIsRemainder(crc: nat, data: seq<Byte>, r: nat)
    requires crc < WORD && r < WORD
    ensures r == Crc(crc, data) <==>
      Remainder(Dividend(Reversed(32, Xor(crc, MASK)), MessageBits(data)), Reversed(32, Xor(r, MASK)))
  {
    hide *;
    MaskIsWord();
    WordXorBound(crc, MASK);
    MessageIsBits(data);
    FoldBitsRemainder(Xor(crc, MASK), MessageBits(data));
    CrcUnfold(crc, data);
    var f := FoldBits(Xor(crc, MASK), MessageBits(data));
    XorAssociates(f, MASK, MASK);
    XorAssociates(r, MASK, MASK);
    XorSelf(MASK);
    XorZero(f);
    XorZero(r);
    if Remainder(Dividend(Reversed(32, Xor(crc, MASK)), MessageBits(data)), Reversed(32, Xor(r, MASK))) {
      RemainderUnique(Dividend(Reversed(32, Xor(crc, MASK)), MessageBits(data)), Reversed(32, f), Reversed(32, Xor(r, MASK)));
      WordXorBound(r, MASK);
      ReversedInjective(f, Xor(r, MASK));
    }
  }

  lemma MaskIsWord()
    ensures MASK < WORD
  {
  }

  lemma CrcUnfold(crc: nat, data: seq<Byte>)
    ensures Crc(crc, data) == Xor(FoldBits(Xor(crc, MASK), MessageBits(data)), MASK)
  {
    hide Xor, FoldBits, MessageBits;
  }

  lemma WordIsPower()
    ensures WORD == Pow2(32)
  {
    Pow2Constants();
  }

  lemma ReversedInjective(a: nat, b: nat)
    requires a < WORD && b < WORD && Reversed(32, a) == Reversed(32, b)
    ensures a == b
  {
    hide *;
    ReversedXor(32, a, b);
    XorSelf(Reversed(32, a));
    WordXorBound(a, b);
    WordIsPower();
    ReversedNonZero(32, Xor(a, b));
    XorEqual(a, b);
  }

  lemma {:induction false} ReversedNonZero(n: nat, w: nat)
    requires w < Pow2(n) && Reversed(n, w) == 0
    ensures w == 0
  {
    if n == 0 {
    } else {
      ReversedNonZero(n - 1, w / 2);
      ShlBit(n - 1, w % 2);
    }
  }

  // ---------------------------------------------------------------- bits of a message, and a value

  /** Bit `k` of byte `i` is bit `8 * i + k` of the message. */
  lemma {:induction false} MessageBitAt(data: seq<Byte>, i: nat, k: nat)
    requires i < |data| && k < 8
    ensures 8 * i + k < |MessageBits(data)| && MessageBits(data)[8 * i + k] == data[i] / Pow2(k) % 2
    decreases i
  {
    hide Pow2;
    if i == 0 {
      BitAt(data[0], 8, k);
    } else {
      MessageBitAt(data[1..], i - 1, k);
    }
  }

  lemma {:induction false} BitAt(w: nat, n: nat, k: nat)
    requires k < n
    ensures BitsOf(w, n)[k] == w / Pow2(k) % 2
    decreases n
  {
    if k == 0 {
      assert Pow2(0) == 1;
    } else {
      BitAt(w / 2, n - 1, k - 1);
      assert Pow2(k) == 2 * Pow2(k - 1);
      hide Pow2;
      DivHalves(w, Pow2(k - 1));
    }
  }

  /** The zero-started CRC-32C of the byte 127. */
  lemma CrcOfOneByte()
    ensures Crc(0, [127]) == 0x7df6_3b78
  {
    hide *;
    OneByteStart();
    OneByteSteps();
    OneByteEnd();
    FoldByte(MASK, 127);
    XorZero(MASK);
    CrcMeaning(0, [127]);
  }

  lemma MaskValue()
    ensures MASK == 0xffff_ffff && POLY == 0x82f6_3b78 == 0xf6_3b78 + 0x100_0000 * 0x82
    ensures Pow2(7) == 128 && Pow2(24) == 0x100_0000 && Pow2(8) == 256
  {
    Pow2Constants();
    assert Pow2(8) == 2 * Pow2(7);
    hide Pow2;
    Pow2Byte(8);
    Pow2Byte(16);
  }

  lemma OneByteStart()
    ensures Xor(MASK, 127) == Xor(Shl(7, 1), Shl(8, 0xff_ffff))
  {
    hide *;
    MaskValue();
    ShlByte(0xff_ffff);
    ShlSeven(1);
    ShlSeven(0x1ff_ffff);
    XorLow(7, 127, 0x1ff_ffff);
    XorDisjoint(8, 128, 0xff_ffff);
  }

  lemma ShlSeven(x: nat)
    ensures Shl(7, x) == 128 * x
  {
    hide *;
    ShlByte(x);
    ShlOne(7, x);
  }

  /** The one bit folds the polynomial in at the last of eight steps. */
  lemma OneByteSteps()
    ensures ZeroBits(8, Xor(Shl(7, 1), Shl(8, 0xff_ffff))) == Xor(POLY, 0xff_ffff)
  {
    hide *;
    ZeroBitsLinear(8, Shl(7, 1), Shl(8, 0xff_ffff));
    ZeroBitsUnshift(8, 0xff_ffff);
    ZeroBitsAdd(7, 1, Shl(7, 1));
    ZeroBitsUnshift(7, 1);
    LastStep();
  }

  lemma LastStep()
    ensures ZeroBits(1, 1) == POLY
  {
    assert ZeroBits(1, 1) == ZeroBits(0, BitStep(1));
    XorZero(POLY);
  }

  lemma OneByteEnd()
    ensures Xor(Xor(POLY, 0xff_ffff), MASK) == 0x7df6_3b78
  {
    hide *;
    MaskValue();
    ShlBytes(0xff);
    ShlBytes(0x82);
    ShlBytes(0x7d);
    XorLow(24, 0xff_ffff, 0xff);
    XorAssociates(POLY, 0xff_ffff, MASK);
    XorDisjoint(24, 0xf6_3b78, 0x82);
    XorDisjoint(24, 0xf6_3b78, 0x7d);
    XorAssociates(0xf6_3b78, Shl(24, 0x82), Shl(24, 0xff));
    ShlXor(24, 0x82, 0xff);
    ComplementByte();
  }

  lemma ComplementByte()
    ensures Xor(0x82, 0xff) == 0x7d
  {
    hide *;
    XorBits(0x41, 0x7f, 0, 1);
    XorBits(0x20, 0x3f, 1, 1);
    XorBits(0x10, 0x1f, 0, 1);
    XorBits(0x8, 0xf, 0, 1);
    XorBits(0x4, 0x7, 0, 1);
    XorBits(0x2, 0x3, 0, 1);
    XorBits(0x1, 0x1, 0, 1);
    XorSelf(1);
  }

  lemma XorBits(x: nat, y: nat, a: nat, b: nat)
    requires a < 2 && b < 2
    ensures Xor(2 * x + a, 2 * y + b) == 2 * Xor(x, y) + (a + b) % 2
  {
    hide Xor;
    XorUnfold(2 * x + a, 2 * y + b);
    Halves(x, a);
    Halves(y, b);
    Halves(x + y + (a + b) / 2, (a + b) % 2);
  }

  lemma Halves(x: nat, a: nat)
    requires a < 2
    ensures (2 * x + a) / 2 == x && (2 * x + a) % 2 == a
  {
  }
}
