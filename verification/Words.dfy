/** Machine words as natural numbers, with the bitwise operators the sources use.

    An unsigned word is a `nat`; `x & 0xff` is `x % 256`, `x >> 8` is `x / 256` and
    `x << 8` is `x * 256`.  Exclusive-or and conjunction have no arithmetic form, so they
    are defined here bit by bit, and their algebra is proved by induction on the bits.
 */
module Words {

  /** How many values a 32-bit word has. */
  const WORD: nat := 0x1_0000_0000

  function Pow2(n: nat): (r: nat)
    ensures r >= 1
  {
    if n == 0 then 1 else 2 * Pow2(n - 1)
  }

  lemma Pow2Byte(n: nat)
    ensures Pow2(n + 8) == 256 * Pow2(n)
  {
    assert Pow2(n + 2) == 4 * Pow2(n);
    assert Pow2(n + 4) == 4 * Pow2(n + 2);
    assert Pow2(n + 6) == 4 * Pow2(n + 4);
  }

  lemma Pow2Constants()
    ensures Pow2(8) == 0x100
    ensures Pow2(32) == 0x1_0000_0000
    ensures Pow2(64) == 0x1_0000_0000_0000_0000
  {
    assert Pow2(0) == 1;
    hide Pow2;
    assert Pow2(16) == 0x1_0000 by { Pow2Byte(0); Pow2Byte(8); }
    assert Pow2(32) == 0x1_0000_0000 by { Pow2Byte(16); Pow2Byte(24); }
    assert Pow2(48) == 0x1_0000_0000_0000 by { Pow2Byte(32); Pow2Byte(40); }
    assert Pow2(64) == 0x1_0000_0000_0000_0000 by { Pow2Byte(48); Pow2Byte(56); }
    Pow2Byte(0);
  }

  /** `x << k`, without truncation. */
  function Shl(k: nat, x: nat): nat {
    if k == 0 then x else 2 * Shl(k - 1, x)
  }

  lemma ShlByte(x: nat)
    ensures Shl(8, x) == 256 * x
  {
    assert Shl(1, x) == 2 * Shl(0, x);
    assert Shl(2, x) == 2 * Shl(1, x);
    assert Shl(4, x) == 4 * Shl(2, x);
    assert Shl(6, x) == 4 * Shl(4, x);
  }

  lemma {:induction false} ShlAdd(j: nat, k: nat, x: nat)
    ensures Shl(j + k, x) == Shl(j, Shl(k, x))
  {
    if j == 0 {
    } else {
      ShlAdd(j - 1, k, x);
    }
  }

  lemma {:induction false} Pow2Monotonic(m: nat, n: nat)
    requires m <= n
    ensures Pow2(m) <= Pow2(n)
  {
    if m >= n {
    } else {
      Pow2Monotonic(m, n - 1);
    }
  }

  lemma Pow2Increases(m: nat, n: nat)
    requires m < n
    ensures Pow2(m) < Pow2(n)
  {
    Pow2Monotonic(m, n - 1);
  }

  // ---------------------------------------------------------------- exclusive or

  function Xor(a: nat, b: nat): nat
    decreases a + b
  {
    if a == 0 then b
    else if b == 0 then a
    else 2 * Xor(a / 2, b / 2) + (a + b) % 2
  }

  /** The recursive equation also holds when an operand is zero. */
  lemma {:induction false} XorUnfold(a: nat, b: nat)
    ensures Xor(a, b) / 2 == Xor(a / 2, b / 2)
    ensures Xor(a, b) % 2 == (a + b) % 2
  {
  }

  lemma XorOdd(a: nat, b: nat)
    ensures (Xor(a, b) % 2 == 1) == ((a % 2 == 1) != (b % 2 == 1))
  {
    assert Xor(a, b) % 2 == (a + b) % 2 by { XorUnfold(a, b); }
    hide Xor;
    SumOdd(a, b);
  }

  lemma SumOdd(a: nat, b: nat)
    ensures ((a + b) % 2 == 1) == ((a % 2 == 1) != (b % 2 == 1))
  {
  }

  lemma XorZero(a: nat)
    ensures Xor(0, a) == a == Xor(a, 0)
  {
  }

  lemma {:induction false} XorCommutes(a: nat, b: nat)
    ensures Xor(a, b) == Xor(b, a)
    decreases a + b
  {
    if a == 0 || b == 0 {
    } else {
      XorCommutes(a / 2, b / 2);
    }
  }

  lemma {:induction false} XorAssociates(a: nat, b: nat, c: nat)
    ensures Xor(Xor(a, b), c) == Xor(a, Xor(b, c))
    decreases a + b + c
  {
    if a == 0 || b == 0 || c == 0 {
    } else {
      XorAssociates(a / 2, b / 2, c / 2);
      var x, y := Xor(a, b), Xor(b, c);
      XorUnfold(a, b);
      XorUnfold(b, c);
      XorUnfold(x, c);
      XorUnfold(a, y);
      ParityAssociates(a, b, c, x, y, Xor(x, c), Xor(a, y));
    }
  }

  lemma ParityAssociates(a: nat, b: nat, c: nat, x: nat, y: nat, left: nat, right: nat)
    requires x % 2 == (a + b) % 2 && y % 2 == (b + c) % 2
    requires left % 2 == (x + c) % 2 && right % 2 == (a + y) % 2
    ensures left % 2 == right % 2
  {
  }

  lemma {:induction false} XorSelf(a: nat)
    ensures Xor(a, a) == 0
  {
    if a == 0 {
    } else {
      XorSelf(a / 2);
    }
  }

  /** Exchanging the inner operands of two exclusive-ors. */
  lemma XorInterchange(a: nat, b: nat, c: nat, d: nat)
    ensures Xor(Xor(a, b), Xor(c, d)) == Xor(Xor(a, c), Xor(b, d))
  {
    XorAssociates(a, b, Xor(c, d));
    XorAssociates(b, c, d);
    XorCommutes(b, c);
    XorAssociates(c, b, d);
    XorAssociates(a, c, Xor(b, d));
  }

  lemma {:induction false} XorBound(n: nat, a: nat, b: nat)
    requires a < Pow2(n) && b < Pow2(n)
    ensures Xor(a, b) < Pow2(n)
  {
    if a == 0 || b == 0 {
    } else {
      XorBound(n - 1, a / 2, b / 2);
    }
  }

  /** Words whose set bits do not overlap are added by exclusive-or. */
  lemma {:induction false} XorDisjoint(k: nat, lo: nat, hi: nat)
    requires lo < Pow2(k)
    ensures Xor(lo, Shl(k, hi)) == lo + Shl(k, hi)
  {
    hide Xor;
    if k == 0 {
      XorZero(hi);
      XorCommutes(hi, 0);
    } else {
      var y := Shl(k - 1, hi);
      assert Shl(k, hi) == 2 * y && lo / 2 < Pow2(k - 1);
      hide Shl, Pow2;
      XorUnfold(lo, 2 * y);
      XorDisjoint(k - 1, lo / 2, hi);
      FromHalves(Xor(lo, 2 * y), lo, y);
    }
  }

  lemma FromHalves(x: nat, lo: nat, y: nat)
    requires x / 2 == lo / 2 + y && x % 2 == (lo + 2 * y) % 2
    ensures x == lo + 2 * y
  {
  }

  /** The low part cancels out of a word it is part of. */
  lemma XorLow(k: nat, lo: nat, hi: nat)
    requires lo < Pow2(k)
    ensures Xor(lo + Shl(k, hi), lo) == Shl(k, hi) == Xor(lo, lo + Shl(k, hi))
  {
    hide Xor, Shl, Pow2;
    var high := Shl(k, hi);
    XorDisjoint(k, lo, hi);
    XorCommutes(lo + high, lo);
    XorAssociates(lo, lo, high);
    XorSelf(lo);
    XorZero(high);
  }

  lemma XorDouble(x: nat, y: nat)
    ensures Xor(2 * x, 2 * y) == 2 * Xor(x, y)
  {
    hide Xor;
    XorUnfold(2 * x, 2 * y);
    assert (2 * x) / 2 == x && (2 * y) / 2 == y;
  }

  lemma {:induction false} ShlXor(k: nat, a: nat, b: nat)
    ensures Shl(k, Xor(a, b)) == Xor(Shl(k, a), Shl(k, b))
  {
    if k == 0 {
    } else {
      ShlXor(k - 1, a, b);
      XorDouble(Shl(k - 1, a), Shl(k - 1, b));
    }
  }

  lemma {:induction false} ShlTwice(k: nat, x: nat)
    ensures Shl(k, 2 * x) == Shl(k + 1, x)
  {
    if k == 0 {
    } else {
      ShlTwice(k - 1, x);
    }
  }

  // ---------------------------------------------------------------- conjunction

  function And(a: nat, b: nat): nat
    decreases a
  {
    if a == 0 then 0
    else 2 * And(a / 2, b / 2) + (if a % 2 == 1 && b % 2 == 1 then 1 else 0)
  }

  lemma {:induction false} AndBound(a: nat, b: nat)
    ensures And(a, b) <= b
    decreases a
  {
    if a == 0 {
    } else {
      AndBound(a / 2, b / 2);
    }
  }

  /** Masking with one less than a power of two is the remainder. */
  lemma {:induction false} AndMask(a: nat, k: nat)
    ensures And(a, Pow2(k) - 1) == a % Pow2(k)
    decreases k
  {
    hide And;
    if k == 0 {
      AndBound(a, 0);
    } else {
      var p := Pow2(k - 1);
      assert Pow2(k) == 2 * p;
      hide Pow2;
      calc {
        And(a, 2 * p - 1);
        { MaskStep(a, p); }
        2 * And(a / 2, p - 1) + a % 2;
        { AndMask(a / 2, k - 1); }
        2 * (a / 2 % p) + a % 2;
        { ModHalves(a, p); }
        a % (2 * p);
      }
    }
  }

  lemma MaskStep(a: nat, p: nat)
    requires p > 0
    ensures And(a, 2 * p - 1) == 2 * And(a / 2, p - 1) + a % 2
  {
    AndUnfold(a, 2 * p - 1);
    hide And;
    HalfOfMask(p);
  }

  lemma AndUnfold(a: nat, b: nat)
    ensures And(a, b) == 2 * And(a / 2, b / 2) + (if a % 2 == 1 && b % 2 == 1 then 1 else 0)
  {
  }

  lemma HalfOfMask(p: nat)
    requires p > 0
    ensures (2 * p - 1) / 2 == p - 1 && (2 * p - 1) % 2 == 1
  {
  }

  lemma ModHalves(a: nat, p: nat)
    requires p > 0
    ensures a % (2 * p) == 2 * (a / 2 % p) + a % 2
  {
    var q, r := a / 2 / p, a / 2 % p;
    assert a == 2 * (q * p + r) + a % 2;
    assert a == (2 * p) * q + (2 * r + a % 2);
    ModUnique(a, 2 * p, q, 2 * r + a % 2);
  }

  /** Quotient and remainder of any integer, known from one way of dividing it. */
  lemma ModUnique(a: int, d: nat, q: int, r: nat)
    requires a == d * q + r && r < d
    ensures a % d == r && a / d == q
  {
    var q' := a / d;
    assert a == d * q' + a % d;
    if q' < q {
      MulStep(d, q', q);
      assert false;
    } else if q < q' {
      MulStep(d, q, q');
      assert false;
    }
  }

  lemma {:induction false} MulStep(d: nat, x: int, y: int)
    requires x < y
    ensures d * x + d <= d * y
    decreases y - x
  {
    assert d * y == d * (y - 1) + d;
    if x >= y - 1 {
    } else {
      MulStep(d, x, y - 1);
    }
  }

  /** Masking with a power of two tests one bit. */
  lemma {:induction false} AndBit(a: nat, k: nat)
    ensures And(a, Pow2(k)) == if a / Pow2(k) % 2 == 1 then Pow2(k) else 0
    decreases k
  {
    AndUnfold(a, Pow2(k));
    hide And;
    if k == 0 {
      AndBound(a / 2, 0);
    } else {
      var p := Pow2(k - 1);
      assert Pow2(k) == 2 * p;
      hide Pow2;
      assert And(a, 2 * p) == 2 * And(a / 2, p);
      AndBit(a / 2, k - 1);
      DivHalves(a, p);
    }
  }

  lemma DivHalves(a: nat, p: nat)
    requires p > 0
    ensures a / (2 * p) == a / 2 / p
  {
    var q, r := a / 2 / p, a / 2 % p;
    assert a == 2 * (q * p + r) + a % 2;
    assert a == (2 * p) * q + (2 * r + a % 2);
    ModUnique(a, 2 * p, q, 2 * r + a % 2);
  }

  lemma {:induction false} Pow2Add(m: nat, n: nat)
    ensures Pow2(m + n) == Pow2(m) * Pow2(n)
  {
    if m == 0 {
    } else {
      var p, q := Pow2(m - 1), Pow2(n);
      Pow2Add(m - 1, n);
      assert Pow2(m + n) == 2 * (p * q);
      assert 2 * (p * q) == (2 * p) * q;
    }
  }

  /** All low bits set: the mask changes nothing that fits under it. */
  lemma {:induction false} AndLow(n: nat, b: nat)
    requires b < Pow2(n)
    ensures And(Pow2(n) - 1, b) == b
  {
    if n == 0 {
    } else {
      var p := Pow2(n - 1);
      assert Pow2(n) == 2 * p;
      hide Pow2;
      assert (2 * p - 1) / 2 == p - 1 && (2 * p - 1) % 2 == 1;
      AndLow(n - 1, b / 2);
    }
  }

  /** Of two words that are all ones from some bit up, the conjunction is the one starting higher. */
  lemma {:induction false} AndHigh(n: nat, i: nat, j: nat)
    requires i <= j <= n
    ensures Pow2(i) <= Pow2(j) <= Pow2(n)
    ensures And(Pow2(n) - Pow2(i), Pow2(n) - Pow2(j)) == Pow2(n) - Pow2(j)
    decreases n
  {
    hide And;
    Pow2Monotonic(i, j);
    Pow2Monotonic(j, n);
    if i == 0 {
      AndLow(n, Pow2(n) - Pow2(j));
    } else {
      AndHigh(n - 1, i - 1, j - 1);
      assert Pow2(n) == 2 * Pow2(n - 1) && Pow2(i) == 2 * Pow2(i - 1) && Pow2(j) == 2 * Pow2(j - 1);
      AndDouble(Pow2(n - 1) - Pow2(i - 1), Pow2(n - 1) - Pow2(j - 1));
    }
  }

  /** Clearing the low bits rounds down. */
  lemma {:induction false} AndClear(n: nat, k: nat, x: nat)
    requires k <= n && x < Pow2(n)
    ensures Pow2(k) <= Pow2(n) && And(x, Pow2(n) - Pow2(k)) == x - x % Pow2(k)
    decreases n
  {
    hide And;
    Pow2Monotonic(k, n);
    if k == 0 {
      AndMask(x, n);
      ModUnique(x, Pow2(n), 0, x);
    } else {
      AndClear(n - 1, k - 1, x / 2);
      AndHalf(x, Pow2(n - 1) - Pow2(k - 1));
      ModHalves(x, Pow2(k - 1));
    }
  }

  lemma AndHalf(x: nat, b: nat)
    ensures And(x, 2 * b) == 2 * And(x / 2, b)
  {
    assert 2 * b / 2 == b;
  }

  lemma {:induction false} AndCommutes(a: nat, b: nat)
    ensures And(a, b) == And(b, a)
  {
    AndBound(a, 0);
    AndBound(b, 0);
    if a == 0 || b == 0 {
    } else {
      AndCommutes(a / 2, b / 2);
    }
  }

  lemma AndDouble(a: nat, b: nat)
    ensures And(2 * a, 2 * b) == 2 * And(a, b)
  {
    assert 2 * a / 2 == a && 2 * b / 2 == b;
  }

  /** A remainder can be taken in two stages when the first modulus is a multiple of the second. */
  lemma ModMod(x: int, d: nat, m: nat)
    requires d > 0 && m > 0
    ensures d * m > 0 && (x % (d * m)) % d == x % d
  {
    var big := d * m;
    assert big > 0;
    var q, r := x / big, x % big;
    var q', r' := r / d, r % d;
    assert x == big * q + r && r == d * q' + r';
    assert big * q == d * (m * q);
    assert x == d * (m * q + q') + r';
    ModUnique(x, d, m * q + q', r');
  }
}
