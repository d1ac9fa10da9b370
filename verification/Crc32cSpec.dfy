/** CRC-32C bit by bit, and the algebra behind its fast forms.

    The register is shifted right one bit at a time; a set low bit folds the reversed
    polynomial in.  Everything the fast implementations rely on follows from two facts:
    the step is linear under exclusive-or, and shifting `y` in from the left and stepping
    it all the way out again returns `y`.
 */
module Crc32cSpec {
  import opened Common
  import opened Words

  /** The CRC-32C polynomial in reversed bit order (section 12.1 of RFC 3720). */
  const POLY: nat := 0x82f63b78
  const MASK: nat := 0xffffffff

  function FoldIn(poly: nat, x: nat, odd: bool): nat {
    if odd then Xor(x, poly) else x
  }

  /** One step of the register. */
  function BitStep(c: nat): nat {
    FoldIn(POLY, c / 2, c % 2 == 1)
  }

  /** `n` steps with no message bits: the operator "append n zero bits". */
  function ZeroBits(n: nat, c: nat): nat {
    if n == 0 then c else ZeroBits(n - 1, BitStep(c))
  }

  /** A message as bits, least significant bit of each byte first. */
  function BitsOf(w: nat, n: nat): (bits: seq<nat>)
    ensures |bits| == n
  {
    if n == 0 then [] else [w % 2] + BitsOf(w / 2, n - 1)
  }

  function MessageBits(data: seq<Byte>): seq<nat> {
    if data == [] then [] else BitsOf(data[0], 8) + MessageBits(data[1..])
  }

  /** The bit-at-a-time definition: each message bit is added to the low end, then one step. */
  function FoldBits(c: nat, bits: seq<nat>): nat
    decreases bits
  {
    if bits == [] then c else FoldBits(BitStep(Xor(c, bits[0])), bits[1..])
  }

  /** The register after running over `data`, without the conditioning of its ends. */
  function Fold(c: nat, data: seq<Byte>): nat {
    FoldBits(c, MessageBits(data))
  }

  /** The CRC-32C of `data` continuing from `crc`; `crc == 0` starts afresh. */
  function Crc(crc: nat, data: seq<Byte>): nat {
    Xor(Fold(Xor(crc, MASK), data), MASK)
  }

  lemma CrcMeaning(crc: nat, data: seq<Byte>)
    ensures Crc(crc, data) == Xor(Fold(Xor(crc, MASK), data), MASK)
  {
  }

  /** Little-endian value of a byte string, of any length. */
  function Load(data: seq<Byte>): nat {
    if data == [] then 0 else data[0] + 256 * Load(data[1..])
  }

  // ---------------------------------------------------------------- linearity

  lemma BitStepLinear(a: nat, b: nat)
    ensures BitStep(Xor(a, b)) == Xor(BitStep(a), BitStep(b))
  {
    hide Xor;
    XorUnfold(a, b);
    FoldInLinear(POLY, a / 2, b / 2, a % 2 == 1, b % 2 == 1);
  }

  lemma FoldInLinear(poly: nat, x: nat, y: nat, i: bool, j: bool)
    ensures Xor(FoldIn(poly, x, i), FoldIn(poly, y, j)) == FoldIn(poly, Xor(x, y), i != j)
  {
    var p, q := if i then poly else 0, if j then poly else 0;
    XorInterchange(x, p, y, q);
    XorSelf(poly);
  }

  lemma {:induction false} ZeroBitsLinear(n: nat, a: nat, b: nat)
    ensures ZeroBits(n, Xor(a, b)) == Xor(ZeroBits(n, a), ZeroBits(n, b))
  {
    if n == 0 {
    } else {
      BitStepLinear(a, b);
      ZeroBitsLinear(n - 1, BitStep(a), BitStep(b));
    }
  }

  lemma {:induction false} ZeroBitsAdd(m: nat, n: nat, c: nat)
    ensures ZeroBits(m + n, c) == ZeroBits(n, ZeroBits(m, c))
  {
    if m == 0 {
    } else {
      ZeroBitsAdd(m - 1, n, BitStep(c));
    }
  }

  /** A value shifted left by `k` comes back unchanged after `k` steps. */
  lemma {:induction false} ZeroBitsUnshift(k: nat, y: nat)
    ensures ZeroBits(k, Shl(k, y)) == y
  {
    if k == 0 {
    } else {
      ZeroBitsUnshift(k - 1, y);
    }
  }

  lemma {:induction false} ZeroBitsBound(n: nat, c: nat)
    requires c < WORD
    ensures ZeroBits(n, c) < WORD
  {
    if n == 0 {
    } else {
      BitStepBound(c);
      ZeroBitsBound(n - 1, BitStep(c));
    }
  }

  lemma WordXorBound(a: nat, b: nat)
    requires a < WORD && b < WORD
    ensures Xor(a, b) < WORD
  {
    Pow2Constants();
    XorBound(32, a, b);
  }

  lemma BitStepBound(c: nat)
    requires c < WORD
    ensures BitStep(c) < WORD
  {
    WordXorBound(c / 2, POLY);
  }

  // ---------------------------------------------------------------- words at a time

  lemma {:induction false} FoldBitsAppend(c: nat, s: seq<nat>, t: seq<nat>)
    ensures FoldBits(c, s + t) == FoldBits(FoldBits(c, s), t)
    decreases s
  {
    if s == [] {
      assert s + t == t;
    } else {
      assert (s + t)[1..] == s[1..] + t;
      FoldBitsAppend(BitStep(Xor(c, s[0])), s[1..], t);
    }
  }

  /** Feeding `n` bits one at a time is `n` plain steps on the register with the word added. */
  lemma {:induction false} FoldBitsWord(c: nat, w: nat, n: nat)
    requires w < Pow2(n)
    ensures FoldBits(c, BitsOf(w, n)) == ZeroBits(n, Xor(c, w))
    decreases n
  {
    hide Xor;
    if n == 0 {
      XorZero(c);
    } else {
      var lo, hi := w % 2, w / 2;
      assert BitStep(2 * hi) == hi;
      hide BitStep;
      FoldBitsWord(BitStep(Xor(c, lo)), hi, n - 1);
      XorDisjoint(1, lo, hi);
      XorAssociates(c, lo, 2 * hi);
      BitStepLinear(Xor(c, lo), 2 * hi);
    }
  }

  lemma FoldByte(c: nat, b: Byte)
    ensures Fold(c, [b]) == ZeroBits(8, Xor(c, b))
  {
    Pow2Constants();
    FoldBitsWord(c, b, 8);
    assert MessageBits([b]) == BitsOf(b, 8);
  }

  lemma {:induction false} MessageBitsAppend(s: seq<Byte>, t: seq<Byte>)
    ensures MessageBits(s + t) == MessageBits(s) + MessageBits(t)
  {
    if s == [] {
      assert s + t == t;
    } else {
      assert (s + t)[1..] == s[1..] + t;
      MessageBitsAppend(s[1..], t);
    }
  }

  lemma FoldAppend(c: nat, s: seq<Byte>, t: seq<Byte>)
    ensures Fold(c, s + t) == Fold(Fold(c, s), t)
  {
    MessageBitsAppend(s, t);
    FoldBitsAppend(c, MessageBits(s), MessageBits(t));
  }

  lemma StepOverByte(c: nat, b: Byte, hi: nat)
    ensures ZeroBits(8, Xor(c, b + 256 * hi)) == Xor(ZeroBits(8, Xor(c, b)), hi)
  {
    hide Xor;
    Pow2Constants();
    ShlByte(hi);
    XorDisjoint(8, b, hi);
    XorAssociates(c, b, 256 * hi);
    ZeroBitsLinear(8, Xor(c, b), 256 * hi);
    ZeroBitsUnshift(8, hi);
  }

  /** Any number of bytes is one word: add its little-endian value, then step 8 times a byte. */
  lemma {:induction false} FoldIsZeroBits(c: nat, data: seq<Byte>)
    ensures Fold(c, data) == ZeroBits(8 * |data|, Xor(c, Load(data)))
    decreases data
  {
    if data == [] {
      XorCommutes(c, 0);
    } else {
      var b, rest := data[0], data[1..];
      assert Load(data) == b + 256 * Load(rest) && data == [b] + rest;
      hide Xor, ZeroBits, Fold, Load;
      FoldIsZeroBits(ZeroBits(8, Xor(c, b)), rest);
      FoldByteMore(c, b, rest);
    }
  }

  lemma FoldByteMore(c: nat, b: Byte, rest: seq<Byte>)
    requires var c' := ZeroBits(8, Xor(c, b)); Fold(c', rest) == ZeroBits(8 * |rest|, Xor(c', Load(rest)))
    ensures Fold(c, [b] + rest) == ZeroBits(8 * |rest| + 8, Xor(c, b + 256 * Load(rest)))
  {
    hide *;
    var word := Xor(c, b + 256 * Load(rest));
    FoldAppend(c, [b], rest);
    FoldByte(c, b);
    StepOverByte(c, b, Load(rest));
    ZeroBitsAdd(8, 8 * |rest|, word);
  }

  /** The register's start value and the message contribute independently. */
  lemma FoldSplitsStart(c: nat, data: seq<Byte>)
    ensures Fold(c, data) == Xor(ZeroBits(8 * |data|, c), Fold(0, data))
  {
    FoldIsZeroBits(c, data);
    FoldIsZeroBits(0, data);
    ZeroBitsLinear(8 * |data|, c, Load(data));
  }

  /** Two streams run apart, the second from zero, recombine by appending zeros to the first. */
  lemma FoldStreams(c: nat, s: seq<Byte>, t: seq<Byte>)
    ensures Fold(c, s + t) == Xor(ZeroBits(8 * |t|, Fold(c, s)), Fold(0, t))
  {
    FoldAppend(c, s, t);
    FoldSplitsStart(Fold(c, s), t);
  }

  lemma {:induction false} LoadBound(data: seq<Byte>)
    ensures Load(data) < Pow2(8 * |data|)
  {
    if data == [] {
    } else {
      LoadBound(data[1..]);
      Pow2Byte(8 * |data| - 8);
    }
  }

  lemma {:induction false} FoldBound(c: nat, data: seq<Byte>)
    requires c < WORD
    ensures Fold(c, data) < WORD
    decreases data
  {
    if data == [] {
    } else {
      var b, rest := data[0], data[1..];
      assert [b] + rest == data;
      FoldAppend(c, [b], rest);
      FoldByte(c, b);
      WordXorBound(c, b);
      ZeroBitsBound(8, Xor(c, b));
      FoldBound(Fold(c, [b]), rest);
    }
  }

  lemma CrcBound(crc: nat, data: seq<Byte>)
    requires crc < WORD
    ensures Crc(crc, data) < WORD
  {
    WordXorBound(crc, MASK);
    FoldBound(Xor(crc, MASK), data);
    WordXorBound(Fold(Xor(crc, MASK), data), MASK);
  }

  /** A CRC can be computed incrementally: the promise the `crc` argument makes. */
  lemma CrcAppend(crc: nat, s: seq<Byte>, t: seq<Byte>)
    ensures Crc(Crc(crc, s), t) == Crc(crc, s + t)
  {
    var f := Fold(Xor(crc, MASK), s);
    XorAssociates(f, MASK, MASK);
    XorSelf(MASK);
    XorCommutes(f, 0);
    FoldAppend(Xor(crc, MASK), s, t);
  }
}
