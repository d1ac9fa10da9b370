/** Symbol lookup through the GNU and SysV hash tables, against a plain scan of the symbols. */
module SymbolLookup {
  import opened Common
  import opened Words

  type Name = seq<nat>

  /** A symbol; `info` packs the binding above the type. */
  datatype Sym = Sym(name: Name, shndx: nat, value: nat, info: nat)

  /** The part of a loaded object that lookup reads.  Without a GNU table the SysV one is used. */
  datatype SymTab = SymTab(syms: seq<Sym>, versym: Option<seq<int>>, gnu: Option<seq<nat>>, sysv: seq<nat>) {
    /** Hidden versions have the sign bit of their version index set. */
    predicate Visible(i: nat) {
      versym.None? || (i < |versym.value| && versym.value[i] >= 0)
    }

    predicate Matches(i: nat, s: Name) {
      i < |syms| && Visible(i) && syms[i].name == s
    }

    ghost predicate WellSized() {
      versym.Some? ==> |versym.value| == |syms|
    }
  }

  // ---------------------------------------------------------------- hash functions

  const TOP: nat := 0x1000_0000

  function GnuHashFrom(h: nat, s: Name): nat
    decreases s
  {
    if s == [] then h else GnuHashFrom((h + h * 32 + s[0]) % WORD, s[1..])
  }

  function GnuHash(s: Name): nat {
    GnuHashFrom(5381, s)
  }

  /** The number that has the characters as its digits to the base 33, after a first digit of 5381. */
  function GnuNumber(s: Name): nat {
    if s == [] then 5381 else 33 * GnuNumber(s[..|s| - 1]) + s[|s| - 1]
  }

  lemma {:induction false} GnuHashFromNext(h: nat, s: Name, c: nat)
    ensures GnuHashFrom(h, s + [c]) == (33 * GnuHashFrom(h, s) + c) % WORD
    decreases s
  {
    if s == [] {
      assert [c][1..] == [] && [] + [c] == [c];
      assert GnuHashFrom(h, [c]) == GnuHashFrom((h + h * 32 + c) % WORD, []);
    } else {
      assert (s + [c])[1..] == s[1..] + [c];
      GnuHashFromNext((h + h * 32 + s[0]) % WORD, s[1..], c);
    }
  }

  /** The hash is that number in 32 bits. */
  lemma {:induction false} GnuHashIsNumber(s: Name)
    ensures GnuHash(s) == GnuNumber(s) % WORD
  {
    if s == [] {
    } else {
      var front, c := s[..|s| - 1], s[|s| - 1];
      GnuHashIsNumber(front);
      assert s == front + [c];
      GnuHashFromNext(5381, front, c);
      ReduceFirst(GnuNumber(front), c);
    }
  }

  lemma ReduceFirst(n: nat, c: nat)
    ensures (33 * (n % WORD) + c) % WORD == (33 * n + c) % WORD
  {
    assert 33 * n + c == 33 * (n % WORD) + c + WORD * (33 * (n / WORD));
    DropMultiple(33 * (n % WORD) + c, 33 * (n / WORD));
  }

  /** `h >> 24 & 0xf0` of a 32-bit word is its top four bits, moved to bits 4 to 7. */
  function TopNibble(h: nat): nat {
    16 * (h / TOP)
  }

  function SysvHashFrom(h: nat, s: Name): nat
    decreases s
  {
    if s == [] then h % TOP
    else
      var h' := (16 * h + s[0]) % WORD;
      SysvHashFrom(Xor(h', TopNibble(h')), s[1..])
  }

  function SysvHash(s: Name): nat {
    SysvHashFrom(0, s)
  }

  /** The hash function of the System V ABI ("Hash Table", chapter 5), on 32-bit words: the top
      four bits are folded in and cleared after every character. */
  function ElfHashFrom(h: nat, s: Name): nat
    decreases s
  {
    if s == [] then h
    else
      var h' := (16 * h + s[0]) % WORD;
      var top := And(h', 0xf000_0000);
      ElfHashFrom(Xor(h', top / 0x100_0000) % TOP, s[1..])
  }

  /** The source's mask and the specification's pick the same four bits. */
  lemma TopNibbleIsMask(h: nat)
    requires h < WORD
    ensures TopNibble(h) == And(h / 0x100_0000, 0xf0) == And(h, 0xf000_0000) / 0x100_0000
  {
    hide And, Pow2;
    MaskPowers();
    AndClear(8, 4, h / 0x100_0000);
    AndClear(32, 28, h);
    NibbleArithmetic(h);
  }

  lemma MaskPowers()
    ensures Pow2(4) == 16 && Pow2(8) == 256 && Pow2(28) == TOP && Pow2(32) == WORD
  {
    Pow2Constants();
    assert Pow2(4) == 4 * Pow2(2) && Pow2(2) == 4;
    hide Pow2;
    Pow2Byte(4);
    Pow2Byte(12);
    Pow2Byte(20);
  }

  lemma NibbleArithmetic(h: nat)
    requires h < WORD
    ensures var b := h / 0x100_0000; b < 256 && b - b % 16 == 16 * (h / TOP)
    ensures (h - h % TOP) / 0x100_0000 == 16 * (h / TOP)
  {
  }

  /** Clearing the top bits can wait until the end. */
  lemma {:induction false} SysvHashIsElfHash(h: nat, s: Name)
    ensures SysvHashFrom(h, s) == ElfHashFrom(h % TOP, s)
    decreases s
  {
    hide Xor;
    if s == [] {
    } else {
      assert (16 * h + s[0]) % WORD == (16 * (h % TOP) + s[0]) % WORD by {
        assert 16 * h == 16 * (h % TOP) + WORD * (h / TOP);
        DropMultiple(16 * (h % TOP) + s[0], h / TOP);
      }
      var h' := (16 * h + s[0]) % WORD;
      TopNibbleIsMask(h');
      hide And;
      SysvHashIsElfHash(Xor(h', TopNibble(h')), s[1..]);
    }
  }

  lemma DropMultiple(a: nat, q: nat)
    ensures (a + WORD * q) % WORD == a % WORD
  {
  }

  // ---------------------------------------------------------------- the scan to compare with

  /** The first index of `order` whose symbol is a visible match. */
  function First(tab: SymTab, order: seq<nat>, s: Name): (r: Option<nat>)
    ensures r.None? <==> forall i :: i in order ==> !tab.Matches(i, s)
    ensures r.Some? ==> r.value in order && tab.Matches(r.value, s)
  {
    if order == [] then None
    else if tab.Matches(order[0], s) then Some(order[0])
    else First(tab, order[1..], s)
  }

  /** Nothing before it in that order, or in all of it, matches by name and is visible. */
  lemma {:induction false} FirstMeaning(tab: SymTab, order: seq<nat>, s: Name, p: nat)
    requires p <= |order|
    ensures p < |order| && First(tab, order, s) == Some(order[p]) && order[p] !in order[..p] ==>
      && order[p] < |tab.syms| && tab.syms[order[p]].name == s
      && (tab.versym.Some? ==> order[p] < |tab.versym.value| && tab.versym.value[order[p]] >= 0)
    ensures (if p < |order| then First(tab, order, s) == Some(order[p]) && order[p] !in order[..p]
             else First(tab, order, s) == None) ==>
      forall q :: 0 <= q < p && order[q] < |tab.syms| && tab.syms[order[q]].name == s ==>
        tab.versym.Some? && (order[q] < |tab.versym.value| ==> tab.versym.value[order[q]] < 0)
    decreases order
  {
    if p == 0 {
    } else if tab.Matches(order[0], s) {
      assert order[..p][0] == order[0];
    } else {
      assert order[1..][..p - 1] == order[..p][1..];
      FirstMeaning(tab, order[1..], s, p - 1);
      assert forall q :: 0 < q < p ==> order[q] == order[1..][q - 1];
    }
  }

  lemma {:induction false} FirstAppend(tab: SymTab, a: seq<nat>, b: seq<nat>, s: Name)
    ensures First(tab, a + b, s) == if First(tab, a, s).Some? then First(tab, a, s) else First(tab, b, s)
  {
    if a == [] {
      assert a + b == b;
    } else {
      assert (a + b)[1..] == a[1..] + b;
      FirstAppend(tab, a[1..], b, s);
    }
  }

  function Range(lo: nat, hi: nat): seq<nat>
    requires lo <= hi
  {
    seq(hi - lo, k requires 0 <= k < hi - lo => lo + k)
  }

  // ---------------------------------------------------------------- GNU tables

  const WORD_BITS: nat := 64

  predicate Bit(f: nat, k: nat) {
    f / Pow2(k) % 2 == 1
  }

  /** The header, then the Bloom words (two 32-bit halves each), the buckets and the chains. */
  predicate GnuSized(t: seq<nat>) {
    |t| >= 4 && t[0] > 0 && t[2] > 0 && |t| >= 4 + 2 * t[2] + t[0]
  }

  function BloomWord(t: seq<nat>, k: nat): nat
    requires GnuSized(t) && k < t[2]
  {
    t[4 + 2 * k] + WORD * t[5 + 2 * k]
  }

  /** A word of two parts, halved. */
  lemma HalfWord(lo: nat, p: nat, hi: nat)
    ensures (lo + 2 * p * hi) / 2 == lo / 2 + p * hi && (lo + 2 * p * hi) % 2 == lo % 2
  {
    assert lo + 2 * p * hi == lo + 2 * (p * hi);
  }

  lemma BitZero(f: nat)
    ensures Bit(f, 0) == (f % 2 == 1)
  {
  }

  lemma BitNext(f: nat, k: nat)
    ensures Bit(f, k + 1) == Bit(f / 2, k)
  {
    DivHalves(f, Pow2(k));
  }

  lemma {:induction false} BitOfLow(lo: nat, hi: nat, m: nat, j: nat)
    requires j < m
    ensures Bit(lo + Pow2(m) * hi, j) == Bit(lo, j)
    decreases j
  {
    hide Bit;
    var p := Pow2(m - 1);
    assert Pow2(m) == 2 * p;
    hide Pow2;
    HalfWord(lo, p, hi);
    if j == 0 {
      BitZero(lo + 2 * p * hi);
      BitZero(lo);
    } else {
      BitNext(lo + 2 * p * hi, j - 1);
      BitNext(lo, j - 1);
      BitOfLow(lo / 2, hi, m - 1, j - 1);
    }
  }

  lemma {:induction false} BitOfHigh(lo: nat, hi: nat, m: nat, j: nat)
    requires lo < Pow2(m)
    ensures Bit(lo + Pow2(m) * hi, m + j) == Bit(hi, j)
    decreases m
  {
    hide Bit;
    if m == 0 {
    } else {
      var p := Pow2(m - 1);
      assert Pow2(m) == 2 * p;
      hide Pow2;
      HalfWord(lo, p, hi);
      BitNext(lo + 2 * p * hi, m - 1 + j);
      BitOfHigh(lo / 2, hi, m - 1, j);
    }
  }

  /** Bits 0 to 31 of a Bloom word are those of its first half, bits 32 to 63 those of its second. */
  lemma BloomBits(t: seq<nat>, k: nat, j: nat)
    requires GnuSized(t) && k < t[2] && j < 32 && t[4 + 2 * k] < WORD
    ensures Bit(BloomWord(t, k), j) == Bit(t[4 + 2 * k], j)
    ensures Bit(BloomWord(t, k), 32 + j) == Bit(t[5 + 2 * k], j)
  {
    Pow2Constants();
    hide Pow2, Bit;
    BitOfLow(t[4 + 2 * k], t[5 + 2 * k], 32, j);
    BitOfHigh(t[4 + 2 * k], t[5 + 2 * k], 32, j);
  }

  function Buckets(t: seq<nat>): nat
    requires GnuSized(t)
  {
    4 + 2 * t[2]
  }

  function Bucket(t: seq<nat>, b: nat): nat
    requires GnuSized(t) && b < t[0]
  {
    t[Buckets(t) + b]
  }

  /** The position of the hash value of symbol `i`. */
  function HashValue(t: seq<nat>, i: nat): int
    requires GnuSized(t)
  {
    Buckets(t) + t[0] + i - t[1]
  }

  /** A table that indexes every symbol from `t[1]` up: each has its hash stored, both its Bloom
      bits set, and is reached from its bucket before any end of chain; the last chain ends. */
  ghost predicate GnuTable(tab: SymTab) {
    tab.gnu.Some? && tab.WellSized() &&
    var t, n := tab.gnu.value, |tab.syms|;
    && GnuSized(t) && (exists k: nat :: t[2] == Pow2(k)) && 1 <= t[1] <= n && |t| == Buckets(t) + t[0] + n - t[1]
    && (t[1] < n ==> t[|t| - 1] % 2 == 1)
    && (forall b :: 0 <= b < t[0] ==> Bucket(t, b) == 0 || t[1] <= Bucket(t, b) < n)
    && forall i :: t[1] <= i < n ==> GnuIndexed(tab, i)
  }

  ghost predicate GnuIndexed(tab: SymTab, i: nat)
    requires tab.gnu.Some? && GnuSized(tab.gnu.value)
    requires var t := tab.gnu.value; 1 <= t[1] <= i < |tab.syms| && |t| == Buckets(t) + t[0] + |tab.syms| - t[1]
  {
    var t := tab.gnu.value;
    var h := GnuHash(tab.syms[i].name);
    var start := Bucket(t, h % t[0]);
    && t[HashValue(t, i)] / 2 == h / 2
    && t[1] <= start <= i && (forall j :: start <= j < i ==> t[HashValue(t, j)] % 2 == 0)
    && BloomAdmits(t, h)
  }

  /** The filter of the table format: of the word picked by the hash over the word size, the
      bits at the hash and at the shifted hash, modulo the word size, are set. */
  predicate BloomAdmits(t: seq<nat>, h: nat)
    requires GnuSized(t)
  {
    var f := BloomWord(t, h / 64 % t[2]);
    Bit(f, h % 64) && Bit(f, h / Pow2(t[3]) % 64)
  }

  lemma {:induction false} FirstInRange(tab: SymTab, lo: nat, hi: nat, s: Name, i: nat)
    requires lo <= i < hi && tab.Matches(i, s) && forall j :: lo <= j < i ==> !tab.Matches(j, s)
    ensures First(tab, Range(lo, hi), s) == Some(i)
    decreases i - lo
  {
    if lo >= i {
    } else {
      assert Range(lo, hi)[1..] == Range(lo + 1, hi);
      FirstInRange(tab, lo + 1, hi, s, i);
    }
  }

  /** A match lies on the chain of its name's bucket, ahead of the chain's end, and passes the
      Bloom test. */
  lemma GnuMatchOnChain(tab: SymTab, s: Name, m: nat)
    requires GnuTable(tab) && tab.gnu.value[1] <= m && tab.Matches(m, s)
    ensures var t, h := tab.gnu.value, GnuHash(s);
      && t[1] <= Bucket(t, h % t[0]) <= m && t[HashValue(t, m)] / 2 == h / 2 && BloomAdmits(t, h)
      && forall j :: Bucket(t, h % t[0]) <= j < m ==> t[HashValue(t, j)] % 2 == 0
  {
    assert GnuIndexed(tab, m);
  }

  /** `h | 1`. */
  function SetLow(h: nat): nat {
    h + 1 - h % 2
  }

  /** Where matches can be: on the chain of bucket `start`, before its end. */
  ghost predicate OnChain(tab: SymTab, start: nat, h: nat, s: Name)
    requires GnuTable(tab)
  {
    var t := tab.gnu.value;
    forall m :: t[1] <= m < |tab.syms| && tab.Matches(m, s) ==>
      && t[1] <= start <= m && SetLow(t[HashValue(t, m)]) == SetLow(h)
      && forall j :: start <= j < m ==> t[HashValue(t, j)] % 2 == 0
  }

  lemma MatchesOnChain(tab: SymTab, s: Name)
    requires GnuTable(tab)
    ensures OnChain(tab, Bucket(tab.gnu.value, GnuHash(s) % tab.gnu.value[0]), GnuHash(s), s)
  {
    hide BloomAdmits, GnuHash;
    forall m | tab.gnu.value[1] <= m < |tab.syms| && tab.Matches(m, s) {
      GnuMatchOnChain(tab, s, m);
    }
  }

  /** The chain walk, which ends at a hash value whose low bit is set. */
  method GnuLookup(tab: SymTab, h: nat, s: Name) returns (r: Option<nat>)
    requires GnuTable(tab) && h == GnuHash(s)
    ensures r == First(tab, Range(tab.gnu.value[1], |tab.syms|), s)
  {
    hide BloomAdmits, GnuHash, GnuIndexed, First;
    MatchesOnChain(tab, s);
    var t := tab.gnu.value;
    var i := Bucket(t, h % t[0]);
    if i == 0 {
      FirstNone(tab, t[1], s);
      return None;
    }
    ghost var start := i;
    var h1 := SetLow(h);
    while true
      invariant t[1] <= start <= i < |tab.syms|
      invariant forall j :: start <= j < i ==> !tab.Matches(j, s)
      decreases |tab.syms| - i
    {
      var h2 := t[HashValue(t, i)];
      if h1 == SetLow(h2) && tab.Visible(i) && tab.syms[i].name == s {
        FirstInRange(tab, t[1], |tab.syms|, s, i);
        return Some(i);
      }
      if h2 % 2 == 1 {
        break;
      }
      i := i + 1;
    }
    FirstNone(tab, t[1], s);
    r := None;
  }

  lemma FirstNone(tab: SymTab, lo: nat, s: Name)
    requires lo <= |tab.syms| && forall m :: lo <= m < |tab.syms| ==> !tab.Matches(m, s)
    ensures First(tab, Range(lo, |tab.syms|), s) == None
  {
  }

  /** The lookup behind the Bloom filter; `fofs` and `fmask` come from the hash, over and below the
      word size. */
  method GnuLookupFiltered(tab: SymTab, h: nat, s: Name, fofs: nat, fmask: nat) returns (r: Option<nat>)
    requires GnuTable(tab) && h == GnuHash(s)
    requires fofs == h / WORD_BITS && fmask == Pow2(h % WORD_BITS)
    ensures r == First(tab, Range(tab.gnu.value[1], |tab.syms|), s)
  {
    hide GnuHash, GnuIndexed, Pow2, And;
    var t := tab.gnu.value;
    SizeMask(fofs, t[2]);
    var f := BloomWord(t, And(fofs, t[2] - 1));
    AndBit(f, h % WORD_BITS);
    if And(f, fmask) == 0 {
      FilteredOut(tab, s);
      return None;
    }
    f := f / Pow2(h / Pow2(t[3]) % WORD_BITS);
    if f % 2 == 0 {
      FilteredOut(tab, s);
      return None;
    }
    r := GnuLookup(tab, h, s);
  }

  lemma SizeMask(a: nat, size: nat)
    requires exists k: nat :: size == Pow2(k)
    ensures size > 0 && And(a, size - 1) == a % size
  {
    var k: nat :| size == Pow2(k);
    AndMask(a, k);
  }

  /** The filter never turns away a name that is present. */
  lemma FilteredOut(tab: SymTab, s: Name)
    requires GnuTable(tab) && !BloomAdmits(tab.gnu.value, GnuHash(s))
    ensures First(tab, Range(tab.gnu.value[1], |tab.syms|), s) == None
  {
    hide GnuHash, BloomAdmits, GnuIndexed;
    forall m | tab.gnu.value[1] <= m < |tab.syms| ensures !tab.Matches(m, s) {
      if tab.Matches(m, s) { GnuMatchOnChain(tab, s, m); }
    }
    FirstNone(tab, tab.gnu.value[1], s);
  }

  // ---------------------------------------------------------------- SysV tables

  /** The bucket count, the chain count, the buckets and one link for each symbol. */
  predicate SysvSized(tab: SymTab) {
    var t := tab.sysv;
    |t| >= 2 && t[0] > 0 && |t| == 2 + t[0] + |tab.syms|
  }

  function Link(tab: SymTab, i: nat): nat
    requires SysvSized(tab) && i < |tab.syms|
  {
    tab.sysv[2 + tab.sysv[0] + i]
  }

  /** `chain` follows the links from `i` to their end. */
  ghost predicate Follows(tab: SymTab, i: nat, chain: seq<nat>)
    requires SysvSized(tab)
    decreases chain
  {
    if chain == [] then i == 0
    else i == chain[0] && 0 < i < |tab.syms| && Follows(tab, tab.sysv[2 + tab.sysv[0] + i], chain[1..])
  }

  /** `chains` lists the symbols of each bucket, which are those whose names hash to it. */
  ghost predicate SysvTable(tab: SymTab, chains: seq<seq<nat>>) {
    && tab.WellSized() && SysvSized(tab) && |chains| == tab.sysv[0]
    && (forall b :: 0 <= b < |chains| ==> Follows(tab, tab.sysv[2 + b], chains[b]))
    && (forall b, i :: 0 <= b < |chains| && i in chains[b] && i < |tab.syms| ==>
          SysvHash(tab.syms[i].name) % |chains| == b)
  }

  method SysvLookup(tab: SymTab, s: Name, h: nat, ghost chains: seq<seq<nat>>) returns (r: Option<nat>)
    requires SysvTable(tab, chains) && h == SysvHash(s)
    ensures r == First(tab, chains[h % |chains|], s)
  {
    hide SysvHash;
    var t := tab.sysv;
    ghost var rest := chains[h % |chains|];
    var i := t[2 + h % t[0]];
    while i != 0
      invariant Follows(tab, i, rest)
      invariant First(tab, rest, s) == First(tab, chains[h % |chains|], s)
      decreases rest
    {
      if tab.Visible(i) && tab.syms[i].name == s {
        return Some(i);
      }
      i, rest := Link(tab, i), rest[1..];
    }
    r := None;
  }

  // ---------------------------------------------------------------- search over objects

  /** An object's table, of either kind; `chains` is used for the SysV kind only. */
  ghost predicate Indexed(tab: SymTab, chains: seq<seq<nat>>) {
    if tab.gnu.Some? then GnuTable(tab) else SysvTable(tab, chains)
  }

  function Flatten(chains: seq<seq<nat>>): seq<nat> {
    if chains == [] then [] else chains[0] + Flatten(chains[1..])
  }

  /** The indexed symbols of an object, in index order, or bucket by bucket. */
  ghost function IndexOrder(tab: SymTab, chains: seq<seq<nat>>): seq<nat>
    requires Indexed(tab, chains)
  {
    if tab.gnu.Some? then Range(tab.gnu.value[1], |tab.syms|) else Flatten(chains)
  }

  /** Only the bucket of the name's hash can hold a match. */
  lemma {:induction false} FirstInBucket(tab: SymTab, chains: seq<seq<nat>>, s: Name, b: nat)
    requires b < |chains|
    requires forall c, i :: 0 <= c < |chains| && c != b && i in chains[c] ==> !tab.Matches(i, s)
    ensures First(tab, Flatten(chains), s) == First(tab, chains[b], s)
  {
    FirstAppend(tab, chains[0], Flatten(chains[1..]), s);
    if b == 0 {
      NoneElsewhere(tab, chains[1..], s);
    } else {
      FirstInBucket(tab, chains[1..], s, b - 1);
    }
  }

  lemma {:induction false} NoneElsewhere(tab: SymTab, chains: seq<seq<nat>>, s: Name)
    requires forall c, i :: 0 <= c < |chains| && i in chains[c] ==> !tab.Matches(i, s)
    ensures First(tab, Flatten(chains), s) == None
  {
    if chains == [] {
    } else {
      FirstAppend(tab, chains[0], Flatten(chains[1..]), s);
      NoneElsewhere(tab, chains[1..], s);
    }
  }

  const STT_TLS: nat := 6
  const OK_TYPES: nat := 0x67
  const OK_BINDS: nat := 0x406

  /** Whether a definition found by name may be bound to. */
  predicate Acceptable(sym: Sym, needDef: bool) {
    && !(sym.shndx == 0 && (needDef || sym.info % 16 == STT_TLS))
    && !(sym.value == 0 && sym.info % 16 != STT_TLS)
    && And(Pow2(sym.info % 16), OK_TYPES) != 0 && And(Pow2(sym.info / 16), OK_BINDS) != 0
  }

  /** What a definition must be, in the terms of the ELF specification: a symbol without a type, an object, a
      function, a common block or thread-local storage; global, weak or unique; with an address, unless it is
      thread-local; and defined in a section, where that is asked for or it is thread-local. */
  ghost predicate MayBind(sym: Sym, needDef: bool) {
    var kind, binding := sym.info % 16, sym.info / 16;
    && kind in {0, 1, 2, 5, 6} && binding in {1, 2, 10}
    && (sym.value != 0 || kind == 6) && (sym.shndx != 0 || (!needDef && kind != 6))
  }

  /** A bit of a word, picked by a mask. */
  lemma MaskPicks(word: nat, k: nat)
    ensures And(Pow2(k), word) != 0 <==> word / Pow2(k) % 2 == 1
  {
    hide And, Pow2;
    AndBit(word, k);
    AndCommutes(word, Pow2(k));
  }

  lemma Powers()
    ensures Pow2(0) == 1 && Pow2(1) == 2 && Pow2(2) == 4 && Pow2(3) == 8 && Pow2(4) == 16 && Pow2(5) == 32
    ensures Pow2(6) == 64 && Pow2(7) == 128 && Pow2(8) == 256 && Pow2(9) == 512 && Pow2(10) == 1024 && Pow2(11) == 2048
  {
    assert Pow2(4) == 4 * Pow2(2) && Pow2(6) == 4 * Pow2(4) && Pow2(8) == 4 * Pow2(6) && Pow2(10) == 4 * Pow2(8);
  }

  /** No bit of a small word is that high. */
  lemma NoHighBit(word: nat, k: nat)
    requires word < 2048 && k >= 11
    ensures word / Pow2(k) == 0
  {
    Powers();
    hide Pow2;
    Pow2Monotonic(11, k);
  }

  lemma TypeBits(k: nat)
    ensures OK_TYPES / Pow2(k) % 2 == 1 <==> k in {0, 1, 2, 5, 6}
  {
    hide Pow2;
    if k >= 11 {
      NoHighBit(OK_TYPES, k);
    } else {
      Powers();
    }
  }

  lemma BindingBits(k: nat)
    ensures OK_BINDS / Pow2(k) % 2 == 1 <==> k in {1, 2, 10}
  {
    hide Pow2;
    if k >= 11 {
      NoHighBit(OK_BINDS, k);
    } else {
      Powers();
    }
  }

  /** The masks pick just those. */
  lemma AcceptableMeaning(sym: Sym, needDef: bool)
    ensures Acceptable(sym, needDef) <==> MayBind(sym, needDef)
  {
    hide And, Pow2;
    MaskPicks(OK_TYPES, sym.info % 16);
    MaskPicks(OK_BINDS, sym.info / 16);
    TypeBits(sym.info % 16);
    BindingBits(sym.info / 16);
  }

  datatype SymDef = SymDef(dso: nat, sym: nat)

  /** One object of the search path with the chains of its table. */
  datatype Entry = Entry(tab: SymTab, chains: seq<seq<nat>>)

  /** The linear scan: the first object whose first match by name is acceptable. */
  ghost function Scan(path: seq<Entry>, s: Name, needDef: bool): Option<SymDef>
    requires forall e :: e in path ==> Indexed(e.tab, e.chains)
  {
    if path == [] then None
    else
      var e := path[|path| - 1];
      var before := Scan(path[..|path| - 1], s, needDef);
      if before.Some? then before
      else
        var m := First(e.tab, IndexOrder(e.tab, e.chains), s);
        if m.Some? && Acceptable(e.tab.syms[m.value], needDef) then Some(SymDef(|path| - 1, m.value)) else None
  }

  method Lookup(tab: SymTab, s: Name, gh: nat, h: nat, ghost chains: seq<seq<nat>>)
    returns (r: Option<nat>, h': nat)
    requires Indexed(tab, chains) && gh == GnuHash(s) && (h == 0 || h == SysvHash(s))
    ensures r == First(tab, IndexOrder(tab, chains), s)
    ensures h' == 0 || h' == SysvHash(s)
  {
    hide GnuHash, SysvHash;
    h' := h;
    if tab.gnu.Some? {
      r := GnuLookupFiltered(tab, gh, s, gh / WORD_BITS, Pow2(gh % WORD_BITS));
    } else {
      if h' == 0 { h' := SysvHash(s); }
      r := SysvLookup(tab, s, h', chains);
      FirstInBucket(tab, chains, s, h' % |chains|);
    }
  }

  /** The search along a path of objects, with each hash computed once. */
  method FindSym(tabs: seq<SymTab>, s: Name, needDef: bool, ghost chains: seq<seq<seq<nat>>>)
    returns (def: Option<SymDef>)
    requires |chains| == |tabs| && forall k :: 0 <= k < |tabs| ==> Indexed(tabs[k], chains[k])
    ensures def == Scan(Path(tabs, chains), s, needDef)
  {
    hide GnuHash, SysvHash, Indexed, First, IndexOrder;
    var h, gh := 0, GnuHash(s);
    var k := 0;
    ghost var path := Path(tabs, chains);
    while k < |tabs|
      invariant 0 <= k <= |tabs| && (h == 0 || h == SysvHash(s))
      invariant Scan(path[..k], s, needDef) == None
    {
      assert path[..k + 1][..k] == path[..k];
      var sym;
      sym, h := Lookup(tabs[k], s, gh, h, chains[k]);
      if sym.Some? && Acceptable(tabs[k].syms[sym.value], needDef) {
        def := Some(SymDef(k, sym.value));
        ScanStops(path, k + 1, s, needDef);
        return;
      }
      k := k + 1;
    }
    assert path[..k] == path;
    def := None;
  }

  ghost function Path(tabs: seq<SymTab>, chains: seq<seq<seq<nat>>>): (path: seq<Entry>)
    requires |chains| == |tabs|
    requires forall k :: 0 <= k < |tabs| ==> Indexed(tabs[k], chains[k])
    ensures |path| == |tabs|
    ensures forall k :: 0 <= k < |tabs| ==> path[k] == Entry(tabs[k], chains[k])
    ensures forall e :: e in path ==> Indexed(e.tab, e.chains)
  {
    seq(|tabs|, k requires 0 <= k < |tabs| => Entry(tabs[k], chains[k]))
  }

  /** What an initial part of the path defines, the whole path defines. */
  lemma {:induction false} ScanStops(path: seq<Entry>, k: nat, s: Name, needDef: bool)
    requires k <= |path| && forall e :: e in path ==> Indexed(e.tab, e.chains)
    requires Scan(path[..k], s, needDef).Some?
    ensures Scan(path, s, needDef) == Scan(path[..k], s, needDef)
  {
    if k < |path| {
      assert path[..|path| - 1][..k] == path[..k];
      ScanStops(path[..|path| - 1], k, s, needDef);
    } else {
      assert path[..k] == path;
    }
  }

  /** The first visible match by name in one object. */
  ghost function FirstIn(e: Entry, s: Name): Option<nat>
    requires Indexed(e.tab, e.chains)
  {
    First(e.tab, IndexOrder(e.tab, e.chains), s)
  }

  /** What the search finds may be bound to; and it passes over no object whose first match may be. */
  lemma {:induction false} ScanMeaning(path: seq<Entry>, s: Name, needDef: bool)
    requires forall e :: e in path ==> Indexed(e.tab, e.chains)
    ensures var r := Scan(path, s, needDef);
      r.Some? ==>
        && r.value.dso < |path|
        && var e := path[r.value.dso];
        FirstIn(e, s) == Some(r.value.sym) && r.value.sym < |e.tab.syms| && MayBind(e.tab.syms[r.value.sym], needDef)
    ensures forall k :: 0 <= k < |path| && Binds(path[k], s, needDef) ==>
      Scan(path, s, needDef).Some? && Scan(path, s, needDef).value.dso <= k
  {
    hide Acceptable, MayBind, Indexed, IndexOrder;
    if path == [] {
    } else {
      var n := |path| - 1;
      assert path[n] in path;
      ScanMeaning(path[..n], s, needDef);
      var m := FirstIn(path[n], s);
      if m.Some? { AcceptableMeaning(path[n].tab.syms[m.value], needDef); }
      assert forall k :: 0 <= k < n ==> path[..n][k] == path[k];
    }
  }

  ghost predicate Binds(e: Entry, s: Name, needDef: bool)
    requires Indexed(e.tab, e.chains)
  {
    FirstIn(e, s).Some? && MayBind(e.tab.syms[FirstIn(e, s).value], needDef)
  }
}
