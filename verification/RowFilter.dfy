/** What the channel and rank filters leave of a bank row, and exactly when the shim's table of pages overflows. */
module RowFilter {
  import opened Common
  import opened Imc
  import opened Counting
  import TesterDecoder
  import opened ShimDecoder
  import opened RowEnumeration
  import RowMode

  // ------------------------------------------------------------ flipping bits

  /** The number with bit `i` flipped. */
  function Flip(k: nat, i: nat): nat {
    if i == 0 then if k % 2 == 0 then k + 1 else k - 1
    else 2 * Flip(k / 2, i - 1) + k % 2
  }

  lemma HalfOfDouble(a: nat, b: nat)
    requires b < 2
    ensures (2 * a + b) / 2 == a && (2 * a + b) % 2 == b
  {
  }

  lemma {:induction false} FlipParts(k: nat, i: nat)
    ensures i > 0 ==> Flip(k, i) / 2 == Flip(k / 2, i - 1) && Flip(k, i) % 2 == k % 2
    ensures i == 0 ==> Flip(k, i) / 2 == k / 2 && Flip(k, i) % 2 == 1 - k % 2
  {
    if i > 0 {
      HalfOfDouble(Flip(k / 2, i - 1), k % 2);
    }
  }

  lemma BitHalved(v: nat, j: nat)
    ensures Bit(v, j + 1) == Bit(v / 2, j) && Bit(v, 0) == v % 2
  {
    var p := Pow2(j);
    assert Pow2(j + 1) == 2 * p && Pow2(0) == 1;
    QuotientOfHalf(v, p);
    assert v / 1 == v;
  }

  lemma QuotientOfHalf(v: nat, p: nat)
    requires p > 0
    ensures v / (2 * p) == v / 2 / p
  {
    var q, m := v / 2 / p, v / 2 % p;
    assert v / 2 == p * q + m;
    assert v == (2 * p) * q + (2 * m + v % 2);
    Unique(v, 2 * p, q, 2 * m + v % 2);
  }

  /** Flipping one bit changes that bit and no other. */
  lemma {:induction false} FlipBit(k: nat, i: nat, j: nat)
    ensures Bit(Flip(k, i), j) == if i == j then 1 - Bit(k, j) else Bit(k, j)
    decreases j
  {
    hide Bit, Flip;
    FlipParts(k, i);
    if j == 0 {
      BitHalved(k, 0);
      BitHalved(Flip(k, i), 0);
    } else {
      BitHalved(k, j - 1);
      BitHalved(Flip(k, i), j - 1);
      if i > 0 {
        FlipBit(k / 2, i - 1, j - 1);
      }
    }
  }

  // ------------------------------------------------- counting under a flip

  lemma {:induction false} CountSame(p: nat -> bool, q: nat -> bool, n: nat)
    requires forall k: nat :: k < n ==> p(k) == q(k)
    ensures Count(p, n) == Count(q, n)
  {
    if n > 0 {
      CountSame(p, q, n - 1);
    }
  }

  ghost function Evens(p: nat -> bool): nat -> bool {
    (k: nat) => p(2 * k)
  }

  ghost function Odds(p: nat -> bool): nat -> bool {
    (k: nat) => p(2 * k + 1)
  }

  ghost function Flipped(p: nat -> bool, i: nat): nat -> bool {
    (k: nat) => p(Flip(k, i))
  }

  lemma {:induction false} CountParts(p: nat -> bool, n: nat)
    ensures Count(p, 2 * n) == Count(Evens(p), n) + Count(Odds(p), n)
  {
    if n > 0 {
      CountParts(p, n - 1);
      assert Count(p, 2 * n) == Count(p, 2 * n - 1) + if p(2 * n - 1) then 1 else 0;
      assert Count(p, 2 * n - 1) == Count(p, 2 * n - 2) + if p(2 * n - 2) then 1 else 0;
      assert Evens(p)(n - 1) == p(2 * n - 2) && Odds(p)(n - 1) == p(2 * n - 1);
    }
  }

  /** Over whole periods of a bit, flipping it only rearranges what is counted. */
  lemma {:induction false} CountFlipped(p: nat -> bool, i: nat, c: nat)
    ensures Count(Flipped(p, i), Pow2(i + 1) * c) == Count(p, Pow2(i + 1) * c)
    decreases i
  {
    hide Count, Flip;
    var m, f := Pow2(i) * c, Flipped(p, i);
    assert Pow2(i + 1) * c == 2 * m;
    CountParts(p, m);
    CountParts(f, m);
    if i == 0 {
      forall k: nat ensures Evens(f)(k) == Odds(p)(k) && Odds(f)(k) == Evens(p)(k) {
        FlipEnds(k);
      }
      CountSame(Evens(f), Odds(p), m);
      CountSame(Odds(f), Evens(p), m);
    } else {
      forall k: nat
        ensures Evens(f)(k) == Flipped(Evens(p), i - 1)(k) && Odds(f)(k) == Flipped(Odds(p), i - 1)(k)
      {
        FlipInside(k, i);
      }
      CountSame(Evens(f), Flipped(Evens(p), i - 1), m);
      CountSame(Odds(f), Flipped(Odds(p), i - 1), m);
      CountFlipped(Evens(p), i - 1, c);
      CountFlipped(Odds(p), i - 1, c);
    }
  }

  lemma FlipEnds(k: nat)
    ensures Flip(2 * k, 0) == 2 * k + 1 && Flip(2 * k + 1, 0) == 2 * k
  {
  }

  lemma {:induction false} FlipInside(k: nat, i: nat)
    requires i > 0
    ensures Flip(2 * k, i) == 2 * Flip(k, i - 1) && Flip(2 * k + 1, i) == 2 * Flip(k, i - 1) + 1
  {
    hide Flip;
    FlipAbove(2 * k, i);
    FlipAbove(2 * k + 1, i);
    HalfOfDouble(k, 0);
    HalfOfDouble(k, 1);
  }

  lemma {:induction false} FlipAbove(k: nat, i: nat)
    requires i > 0
    ensures Flip(k, i) == 2 * Flip(k / 2, i - 1) + k % 2
  {
  }

  /** Two sets of equal size, disjoint and inside a third, each hold at most half of it. */
  lemma {:induction false} CountHalf(p: nat -> bool, q: nat -> bool, s: nat -> bool, n: nat)
    requires forall k: nat :: k < n ==> !(p(k) && q(k)) && (p(k) ==> s(k)) && (q(k) ==> s(k))
    ensures Count(p, n) + Count(q, n) <= Count(s, n)
  {
    if n > 0 {
      CountHalf(p, q, s, n - 1);
    }
  }

  // --------------------------------------------------------- the channel hash

  /** Parity of the address bits a mask selects. */
  function HashParity(k: nat, m: nat): (b: nat)
    ensures b < 2
  {
    if m == 0 then 0 else Xor(LowAnd(k, m), HashParity(k / 2, m / 2))
  }

  function LowAnd(k: nat, m: nat): (b: nat)
    ensures b < 2 && b == (k % 2) * (m % 2)
  {
    if k % 2 == 1 && m % 2 == 1 then 1 else 0
  }

  lemma {:induction false} ZeroHash(m: nat)
    ensures HashParity(0, m) == 0
  {
    if m > 0 {
      ZeroHash(m / 2);
    }
  }

  lemma {:induction false} HashParityIs(v: nat, m: nat)
    ensures Parity(And(v, m)) == HashParity(v, m)
    decreases v
  {
    if v == 0 {
      ZeroHash(m);
    } else if m > 0 {
      HashParityIs(v / 2, m / 2);
      var low, high := LowAnd(v, m), And(v / 2, m / 2);
      HalfOfDouble(high, low);
      assert And(v, m) == 2 * high + low;
      assert Parity(0) == 0 && Xor(0, 0) == 0;
    }
  }

  lemma DoubledHash(a: nat, m: nat)
    ensures HashParity(2 * a, m) == HashParity(a, m / 2)
  {
    assert 2 * a / 2 == a && (2 * a) % 2 == 0;
  }

  /** The hash of a page base, from its page number and the page part of the mask. */
  lemma PageHash(k: nat, m: nat)
    ensures HashParity(64 * k, m) == HashParity(k, m / 64)
  {
    hide HashParity;
    DoubledHash(32 * k, m);
    DoubledHash(16 * k, m / 2);
    DoubledHash(8 * k, m / 4);
    DoubledHash(4 * k, m / 8);
    DoubledHash(2 * k, m / 16);
    DoubledHash(k, m / 32);
    assert m / 2 / 2 == m / 4 && m / 4 / 2 == m / 8 && m / 8 / 2 == m / 16;
    assert m / 16 / 2 == m / 32 && m / 32 / 2 == m / 64;
  }

  /** Flipping a bit changes the parity exactly when the mask selects it. */
  lemma {:induction false} FlippedHash(k: nat, m: nat, i: nat)
    ensures HashParity(Flip(k, i), m) == Xor(HashParity(k, m), Bit(m, i))
    decreases m
  {
    hide Flip, Bit, Xor, LowAnd;
    FlipParts(k, i);
    if m == 0 {
      ZeroBit(i);
      XorAssoc(0, 0, 0);
    } else if i == 0 {
      BitHalved(m, 0);
      LowFlip(k, m, HashParity(k / 2, m / 2));
      SameLow(Flip(k, 0), 1 - k % 2, m);
    } else {
      BitHalved(m, i - 1);
      FlippedHash(k / 2, m / 2, i - 1);
      SameLow(k, Flip(k, i), m);
      XorMoves(LowAnd(k, m), HashParity(k / 2, m / 2), Bit(m, i));
    }
  }

  lemma SameLow(a: nat, b: nat, m: nat)
    requires a % 2 == b % 2
    ensures LowAnd(a, m) == LowAnd(b, m)
  {
  }

  lemma LowFlip(x: nat, m: nat, h: nat)
    requires h < 2
    ensures Xor(LowAnd(1 - x % 2, m), h) == Xor(Xor(LowAnd(x, m), h), m % 2)
  {
  }

  lemma ZeroBit(i: nat)
    ensures Bit(0, i) == 0
  {
    assert 0 / Pow2(i) == 0;
  }

  lemma XorMoves(a: nat, b: nat, c: nat)
    requires b < 2 && c < 2 && a < 2
    ensures Xor(a, Xor(b, c)) == Xor(Xor(a, b), c)
  {
  }

  // --------------------------------------- the filters, read off the registers

  /** Both channels are populated and the channel is a parity of address bits. */
  predicate HashOn(r: Regs) {
    Populated(ReadConfig(r)) == 2 && r.chanHash % 2 == 1
  }

  /** The page number bits that the channel hash takes in. */
  function PageMask(r: Regs): (m: nat)
    ensures m < 256
  {
    (r.chanHash / 64) % 0x4000 / 64
  }

  /** The pages of every bank row lie half on either channel: the hash takes in just one of the two lowest page bits, or
      the sixth, none of which the bank and row determine. */
  predicate ChannelSplits(r: Regs) {
    HashOn(r) && (Bit(PageMask(r), 0) != Bit(PageMask(r), 1) || Bit(PageMask(r), 5) == 1)
  }

  function Intra(r: Regs, c: nat): nat {
    if c == 0 then r.madIntra0 else r.madIntra1
  }

  /** The channel's rank is read from an address bit. */
  predicate RankKnown(r: Regs, c: nat) {
    && TesterDecoder.MaxRanks(ChannelOf(ReadConfig(r), c)) > 1
    && Bit(Intra(r, c), 8) == 1 && Intra(r, c) % 32 >= 6
  }

  /** That bit is one of those that the bank and row do not determine. */
  predicate RankSplits(r: Regs, c: nat) {
    && RankKnown(r, c)
    && (Intra(r, c) % 32 in {12, 13, 17} || Intra(r, c) % 32 >= 18 + RowBits(ReadConfig(r)))
  }

  /** Some page base lies on the channel. */
  predicate Reaches(r: Regs, c: nat) {
    var mc := ReadConfig(r);
    if Populated(mc) == 1 then c == if mc.ch0.populated then 0 else 1
    else Populated(mc) == 2 && (c == 0 || (c == 1 && HashOn(r) && PageMask(r) != 0))
  }

  /** Channel and rank filters drop no page of any bank row that lies on the channel. */
  predicate Undivided(r: Regs, c: nat) {
    Reaches(r, c) && !ChannelSplits(r) && !RankSplits(r, c)
  }

  /** The channel of a page base. */
  lemma PageChannel(r: Regs, k: nat)
    requires Populated(ReadConfig(r)) > 0
    ensures DecodeChannel(PAGE * k, ReadConfig(r))
         == if Populated(ReadConfig(r)) == 1 then if ReadConfig(r).ch0.populated then 0 else 1
            else if HashOn(r) then HashParity(k, PageMask(r)) else 0
  {
    hide HashParity, And, Parity, DecodeMadDimm;
    assert (PAGE * k) / 64 == 64 * k;
    HashParityIs(64 * k, (r.chanHash / 64) % 0x4000);
    PageHash(k, (r.chanHash / 64) % 0x4000);
  }

  function RankBit(r: Regs, c: nat, k: nat): nat {
    if Intra(r, c) % 32 < 12 then 0 else Bit(k, Intra(r, c) % 32 - 12)
  }

  /** The rank of a page base. */
  lemma PageRank(r: Regs, c: nat, k: nat)
    ensures RankKnown(r, c) ==> DecodeRank(PAGE * k, c, ReadConfig(r)) == Rank(RankBit(r, c, k), true)
    ensures !RankKnown(r, c) ==> DecodeRank(PAGE * k, c, ReadConfig(r)).value == 0
    ensures !RankKnown(r, c) ==>
              (DecodeRank(PAGE * k, c, ReadConfig(r)).valid <==>
                 TesterDecoder.MaxRanks(ChannelOf(ReadConfig(r), c)) <= 1)
  {
    hide Bit, Pow2, DecodeMadDimm;
    BitOfPage(k, Intra(r, c) % 32);
  }

  lemma BitOfPage(k: nat, n: nat)
    ensures Bit(PAGE * k, n) == if n < 12 then 0 else Bit(k, n - 12)
  {
    hide Pow2;
    Powers();
    if n < 12 {
      Pow2Add(n, 12 - n);
      Pow2Add(1, 11 - n);
      TesterDecoder.SmallPowers();
      var p, m := Pow2(n), Pow2(11 - n);
      assert p * (2 * m) == 4096;
      LowBit(k, n, p, m);
    } else {
      Pow2Add(12, n - 12);
      PageBit(k, n, Pow2(n - 12));
    }
  }

  // ------------------------------------------ what the bank and row determine

  lemma ScaledQuotient(s: nat, p: nat, w: nat)
    requires s > 0 && p > 0
    ensures s * w == (s * p) * (w / p) + s * (w % p) && s * (w % p) + s <= s * p && s * p > 0
  {
    var q, m := w / p, w % p;
    assert w == p * q + m;
    ScaledSum(s, p, q, m);
    Multiples(s, m, p);
  }

  lemma QuotientTwice(v: nat, s: nat, p: nat)
    requires s > 0 && p > 0
    ensures s * p > 0 && v / (s * p) == v / s / p
  {
    var w := v / s;
    ScaledQuotient(s, p, w);
    TwoQuotients(v, s, w, s * p, w / p, s * (w % p));
  }

  lemma TwoQuotients(v: nat, s: nat, w: nat, n: nat, q: nat, m: nat)
    requires s > 0 && w == v / s && s * w == n * q + m && m + s <= n
    ensures v / n == q
  {
    var e := v % s;
    assert v == s * w + e;
    Unique(v, n, q, m + e);
  }

  lemma BitShifted(v: nat, i: nat)
    ensures Bit(v, i + 6) == Bit(v / 64, i) && Bit(v, i + 2) == Bit(v / 4, i)
  {
    hide Pow2;
    TesterDecoder.SmallPowers();
    Pow2Add(3, 3);
    Pow2Add(6, i);
    Pow2Add(2, i);
    QuotientTwice(v, 64, Pow2(i));
    QuotientTwice(v, 4, Pow2(i));
  }

  lemma ModHalved(v: nat, p: nat)
    requires p > 0
    ensures v % (2 * p) == 2 * ((v / 2) % p) + v % 2
  {
    var q, m := v / 2 / p, v / 2 % p;
    assert v / 2 == p * q + m;
    assert v == (2 * p) * q + (2 * m + v % 2);
    Unique(v, 2 * p, q, 2 * m + v % 2);
  }

  lemma {:induction false} BitOfMod(v: nat, n: nat, i: nat)
    requires i < n
    ensures Bit(v % Pow2(n), i) == Bit(v, i)
    decreases i
  {
    hide Bit;
    var p := Pow2(n - 1);
    ModHalved(v, p);
    HalfOfDouble((v / 2) % p, v % 2);
    if i == 0 {
      BitHalved(v, 0);
      BitHalved(v % Pow2(n), 0);
    } else {
      BitHalved(v, i - 1);
      BitHalved(v % Pow2(n), i - 1);
      BitOfMod(v / 2, n - 1, i - 1);
    }
  }

  lemma FirstBits(v: nat)
    ensures Bit(v, 0) == v % 2 && Bit(v, 1) == (v / 2) % 2 && Bit(v, 2) == (v / 4) % 2
    ensures Bit(v, 3) == (v / 8) % 2 && Bit(v, 4) == (v / 16) % 2
  {
    TesterDecoder.SmallPowers();
    assert Pow2(4) == 16;
  }

  /** Page number bits that all pages of a bank row share. */
  predicate Shared(bits: nat, j: nat) {
    2 <= j <= 4 || 6 <= j < 6 + bits
  }

  lemma RowDetermines(r: Regs, t: RowTuple, a: nat, b: nat)
    requires SameBankRow(r, t, a) && SameBankRow(r, t, b) && 10 <= RowBits(ReadConfig(r)) <= 18
    ensures Xor(a % 2, (a / 2) % 2) == Xor(b % 2, (b / 2) % 2)
    ensures forall j :: Shared(RowBits(ReadConfig(r)), j) ==> Bit(a, j) == Bit(b, j)
  {
    hide Xor, Pow2, Bit, BankGroup, Bank, RowBits, ReadConfig;
    var n := RowBits(ReadConfig(r));
    PageBits(a);
    PageBits(b);
    assert (a / 64) % Pow2(n) == (b / 64) % Pow2(n);
    RowBitsShared(a, b, n);
    BitShifted(a, 0);
    BitShifted(b, 0);
    BitShifted(a, 1);
    BitShifted(b, 1);
    FirstBits(a / 64);
    FirstBits(b / 64);
    assert a / 64 / 2 == a / 128 && b / 64 / 2 == b / 128;
    var x, y := Xor((a / 64) % 2, (a / 128) % 2), Xor(a % 2, (a / 2) % 2);
    LowDetermined(a, b);
  }

  lemma RowBitsShared(a: nat, b: nat, n: nat)
    requires (a / 64) % Pow2(n) == (b / 64) % Pow2(n)
    ensures forall j :: 6 <= j < 6 + n ==> Bit(a, j) == Bit(b, j)
  {
    hide Pow2, Bit;
    forall j | 6 <= j < 6 + n ensures Bit(a, j) == Bit(b, j) {
      BitShifted(a, j - 6);
      BitShifted(b, j - 6);
      BitOfMod(a / 64, n, j - 6);
      BitOfMod(b / 64, n, j - 6);
    }
  }

  /** The low page bits follow from the bank group and bank once the two lowest row bits agree. */
  lemma LowDetermined(a: nat, b: nat)
    requires (a / 64) % 2 == (b / 64) % 2 && (a / 128) % 2 == (b / 128) % 2
    requires BankGroup(PAGE * a) == BankGroup(PAGE * b) && Bank(PAGE * a) == Bank(PAGE * b)
    ensures Xor(a % 2, (a / 2) % 2) == Xor(b % 2, (b / 2) % 2)
    ensures forall j :: 2 <= j <= 4 ==> Bit(a, j) == Bit(b, j)
  {
    hide Xor, Bit, BankGroup, Bank;
    PageBits(a);
    PageBits(b);
    FirstBits(a);
    FirstBits(b);
    var p, q := (a / 64) % 2, (a / 128) % 2;
    XorCancels(Xor(a % 2, (a / 2) % 2), Xor(b % 2, (b / 2) % 2), Xor(p, q));
    XorCancels((a / 8) % 2, (b / 8) % 2, p);
    XorCancels((a / 16) % 2, (b / 16) % 2, q);
  }

  lemma XorCancels(x: nat, y: nat, c: nat)
    requires x < 2 && y < 2 && c < 2
    ensures Xor(x, c) == Xor(y, c) <==> x == y
  {
  }

  lemma {:induction false} EqualHash(a: nat, b: nat, m: nat)
    requires forall j: nat :: Bit(m, j) == 1 ==> Bit(a, j) == Bit(b, j)
    ensures HashParity(a, m) == HashParity(b, m)
    decreases m
  {
    hide Bit, Xor;
    if m > 0 {
      forall j: nat | Bit(m / 2, j) == 1 ensures Bit(a / 2, j) == Bit(b / 2, j) {
        BitHalved(m, j);
        BitHalved(a, j);
        BitHalved(b, j);
      }
      EqualHash(a / 2, b / 2, m / 2);
      BitHalved(m, 0);
      BitHalved(a, 0);
      BitHalved(b, 0);
      assert LowAnd(a, m) == LowAnd(b, m);
    }
  }

  /** A mask that treats the two lowest bits alike. */
  lemma PairHash(k: nat, m: nat)
    requires m % 2 == (m / 2) % 2
    ensures HashParity(k, m)
         == Xor(if m % 2 == 1 then Xor(k % 2, (k / 2) % 2) else 0, HashParity(k / 4, m / 4))
  {
    hide Xor;
    if m == 0 {
      XorAssoc(0, 0, 0);
    } else {
      var h := HashParity(k / 4, m / 4);
      assert k / 2 / 2 == k / 4 && m / 2 / 2 == m / 4;
      assert HashParity(k / 2, m / 2) == Xor(LowAnd(k / 2, m / 2), h);
      XorAssoc(k % 2, (k / 2) % 2, h);
      XorAssoc(h, 0, 0);
    }
  }

  lemma NoHighBit(m: nat, j: nat)
    requires m < 256 && j >= 8
    ensures Bit(m, j) == 0
  {
    hide Pow2;
    Powers();
    Pow2Monotone(8, j);
    assert m / Pow2(j) == 0 by { Unique(m, Pow2(j), 0, m); }
  }

  /** Unless the hash splits rows, the pages of a bank row share their channel. */
  lemma SameRowSameChannel(r: Regs, t: RowTuple, a: nat, b: nat)
    requires TotalGib(r) > 0 && SameBankRow(r, t, a) && SameBankRow(r, t, b) && !ChannelSplits(r)
    ensures Populated(ReadConfig(r)) > 0
    ensures DecodeChannel(PAGE * a, ReadConfig(r)) == DecodeChannel(PAGE * b, ReadConfig(r))
  {
    hide Bit, Pow2, RowBits, SameBankRow, DecodeChannel, HashParity, PageMask, Xor;
    MemoryIsPopulated(r);
    PageChannel(r, a);
    PageChannel(r, b);
    if HashOn(r) {
      RowBitsInRange(r);
      RowDetermines(r, t, a, b);
      SameHash(a, b, PageMask(r));
    }
  }

  lemma SameHash(a: nat, b: nat, m: nat)
    requires Xor(a % 2, (a / 2) % 2) == Xor(b % 2, (b / 2) % 2)
    requires forall j :: Shared(10, j) ==> Bit(a, j) == Bit(b, j)
    requires m < 256 && Bit(m, 0) == Bit(m, 1) && Bit(m, 5) == 0
    ensures HashParity(a, m) == HashParity(b, m)
  {
    hide Bit, Xor, HashParity;
    FirstBits(m);
    PairHash(a, m);
    PairHash(b, m);
    forall j: nat | Bit(m / 4, j) == 1 ensures Bit(a / 4, j) == Bit(b / 4, j) {
      BitShifted(m, j);
      BitShifted(a, j);
      BitShifted(b, j);
      if j + 2 >= 8 {
        NoHighBit(m, j + 2);
      }
      assert Shared(10, j + 2);
    }
    EqualHash(a / 4, b / 4, m / 4);
  }

  lemma MemoryIsPopulated(r: Regs)
    ensures TotalGib(r) > 0 <==> Populated(ReadConfig(r)) > 0
  {
    hide Bit, Pow2;
  }

  /** Unless its bit is a free one, they share their rank. */
  lemma SameRowSameRank(r: Regs, t: RowTuple, c: nat, a: nat, b: nat)
    requires TotalGib(r) > 0 && SameBankRow(r, t, a) && SameBankRow(r, t, b) && !RankSplits(r, c)
    ensures DecodeRank(PAGE * a, c, ReadConfig(r)) == DecodeRank(PAGE * b, c, ReadConfig(r))
  {
    hide Bit, Pow2, RowBits, SameBankRow, DecodeRank, ReadConfig, Xor;
    PageRank(r, c, a);
    PageRank(r, c, b);
    RowBitsInRange(r);
    RowDetermines(r, t, a, b);
    var n := Intra(r, c) % 32;
    if RankKnown(r, c) && n >= 12 {
      assert Shared(RowBits(ReadConfig(r)), n - 12);
    }
  }

  // ------------------------------------------------------- undivided bank rows

  /** The tuple that the tester records for a page. */
  function TupleOfPage(r: Regs, k: nat): RowTuple {
    RowMode.TupleOf(DecodePa(PAGE * k, r))
  }

  lemma WholeRowMatches(r: Regs, k: nat, x: nat)
    requires TotalGib(r) > 0 && Undivided(r, TupleOfPage(r, k).channel) && SameBankRow(r, TupleOfPage(r, k), x)
    ensures Matches(DecodePa(PAGE * x, r), TupleOfPage(r, k))
  {
    hide Bit, Pow2, RowBits, BankGroup, Bank, DecodeRow, DecodeChannel, DecodeRank, ReadConfig, ChannelSplits,
      RankSplits, Reaches;
    var t := TupleOfPage(r, k);
    MemoryIsPopulated(r);
    assert SameBankRow(r, t, k);
    SameRowSameChannel(r, t, k, x);
    SameRowSameRank(r, t, t.channel, k, x);
  }

  lemma RemainderOfScaled(s: nat, v: nat, p: nat)
    requires s > 0 && p > 0
    ensures s * p > 0 && (s * v) % (s * p) == s * (v % p)
  {
    ScaledQuotient(s, p, v);
    Unique(s * v, s * p, v / p, s * (v % p));
  }

  lemma WholeGroups(total: nat)
    ensures (0x1000 * total) % 1024 == 0 && (0x1000 * total) % 2048 == 0
  {
    Unique(0x1000 * total, 1024, 4 * total, 0);
    Unique(0x1000 * total, 2048, 2 * total, 0);
  }

  /** The blocks of a whole number of GiB end inside a row only past its first rows. */
  lemma LastBlocks(total: nat, n: nat, row: nat)
    requires 10 <= n && row < 4
    ensures (0x1000 * total) % Pow2(n) == 0 || row < (0x1000 * total) % Pow2(n)
  {
    hide Pow2;
    TesterDecoder.SmallPowers();
    if n == 10 || n == 11 {
      WholeGroups(total);
    } else {
      Pow2Add(12, n - 12);
      RemainderOfScaled(0x1000, total, Pow2(n - 12));
    }
  }

  /** On an undivided channel the row of each of the first 256 pages that lie there attains the bound. */
  lemma AttainsBound(r: Regs, k: nat)
    requires TotalGib(r) > 0 && k < 256 && Undivided(r, TupleOfPage(r, k).channel)
    ensures |RowPages(r, TupleOfPage(r, k), Pages(r))| == 4 * CeilDiv(TotalMemory(r), RowSpan(r))
  {
    hide SameBankRow, PageTest, Count, RowBits, ReadConfig, Pow2, RowPages, Pages, TotalMemory, DecodePa, Undivided;
    var t, rows, blocks := TupleOfPage(r, k), Pow2(RowBits(ReadConfig(r))), 0x1000 * TotalGib(r);
    TotalIs(r);
    RowBitsInRange(r);
    forall x: nat | SameBankRow(r, t, x) ensures Matches(DecodePa(PAGE * x, r), t) {
      WholeRowMatches(r, k, x);
    }
    WalkCounted(r, t, Pages(r));
    EarlyRow(r, k);
    DecodedRanges(r, t, k);
    PagesOfBankRow(r, t, rows, blocks);
    CeilScaled(0x4_0000, blocks, rows);
    LastBlocks(TotalGib(r), RowBits(ReadConfig(r)), t.row);
  }

  lemma EarlyRow(r: Regs, k: nat)
    requires TotalGib(r) > 0 && k < 256
    ensures SameBankRow(r, TupleOfPage(r, k), k) && TupleOfPage(r, k).row < 4
  {
    hide Bit, Pow2, RowBits, BankGroup, Bank, DecodeChannel, DecodeRank, ReadConfig;
    MemoryIsPopulated(r);
    RowBitsInRange(r);
    assert (PAGE * k) / 0x4_0000 == k / 64 < 4;
    var n := RowBits(ReadConfig(r));
    assert (k / 64) % Pow2(n) == k / 64 by {
      TesterDecoder.SmallPowers();
      Pow2Monotone(2, n);
      Unique(k / 64, Pow2(n), 0, k / 64);
    }
  }

  /** A page among the first 256 on the channel. */
  lemma ChannelReached(r: Regs, c: nat) returns (k: nat)
    requires TotalGib(r) > 0 && Reaches(r, c)
    ensures k < 256 && TupleOfPage(r, k).channel == c
  {
    hide Bit, Pow2, RowBits, BankGroup, Bank, DecodeRow, DecodeChannel, DecodeRank, ReadConfig, HashParity, PageMask;
    MemoryIsPopulated(r);
    if Populated(ReadConfig(r)) == 2 && c == 1 {
      k := HashedPage(PageMask(r));
    } else {
      k := 0;
      ZeroHash(PageMask(r));
    }
    PageChannel(r, k);
  }

  lemma {:induction false} HashedPage(m: nat) returns (k: nat)
    requires m > 0
    ensures 0 < k <= m && HashParity(k, m) == 1
  {
    hide Xor;
    if m % 2 == 1 {
      k := 1;
      ZeroHash(m / 2);
      XorAssoc(1, 0, 0);
    } else {
      var h := HashedPage(m / 2);
      k := 2 * h;
      HalfOfDouble(h, 0);
      XorAssoc(1, 0, 0);
    }
  }

  /** Where a channel is undivided, a table of any size is long enough for every row exactly when the bound fits. */
  lemma CapSufficesIff(r: Regs, c: nat, cap: nat)
    requires TotalGib(r) > 0 && Undivided(r, c)
    ensures (forall t :: |RowPages(r, t, Pages(r))| <= cap) <==> 4 * CeilDiv(TotalMemory(r), RowSpan(r)) <= cap
  {
    hide RowPages, Pages, TotalMemory, RowSpan, CeilDiv, TupleOfPage, ChannelSplits, RankSplits, Reaches;
    if 4 * CeilDiv(TotalMemory(r), RowSpan(r)) <= cap {
      forall t ensures |RowPages(r, t, Pages(r))| <= cap {
        RowCountBound(r, t);
      }
    } else {
      var k := ChannelReached(r, c);
      AttainsBound(r, k);
      assert |RowPages(r, TupleOfPage(r, k), Pages(r))| > cap;
    }
  }

  // --------------------------------------------------------- divided bank rows

  /** The page with the bits exchanged that leave bank and row alone: bit `i`, or for 0 the two lowest together. */
  function Turn(k: nat, i: nat): nat {
    if i == 0 then Flip(Flip(k, 0), 1) else Flip(k, i)
  }

  /** With the narrowest rows: the bits that bank and row do not determine, as far as memory reaches. */
  predicate Free(i: nat) {
    i == 0 || i == 5 || 16 <= i <= 19
  }

  lemma {:induction false} FlipKeepsLow(k: nat, i: nat, j: nat)
    requires j <= i
    ensures Flip(k, i) % Pow2(j) == k % Pow2(j)
    decreases j
  {
    hide Flip;
    if j > 0 {
      FlipParts(k, i);
      FlipKeepsLow(k / 2, i - 1, j - 1);
      ModHalved(k, Pow2(j - 1));
      ModHalved(Flip(k, i), Pow2(j - 1));
    }
  }

  lemma {:induction false} FlipKeepsHigh(k: nat, i: nat, j: nat)
    requires i < j
    ensures Flip(k, i) / Pow2(j) == k / Pow2(j)
    decreases j
  {
    hide Flip;
    FlipParts(k, i);
    QuotientOfHalf(k, Pow2(j - 1));
    QuotientOfHalf(Flip(k, i), Pow2(j - 1));
    if i > 0 {
      FlipKeepsHigh(k / 2, i - 1, j - 1);
    }
  }

  /** What a page's bank and row depend on. */
  predicate SameLayout(a: nat, b: nat) {
    && (a / 64) % 1024 == (b / 64) % 1024 && Xor(a % 2, (a / 2) % 2) == Xor(b % 2, (b / 2) % 2)
    && (a / 4) % 8 == (b / 4) % 8
  }

  lemma LayoutDecides(r: Regs, t: RowTuple, a: nat, b: nat)
    requires RowBits(ReadConfig(r)) == 10 && SameLayout(a, b)
    ensures SameBankRow(r, t, a) <==> SameBankRow(r, t, b)
  {
    hide Xor, Pow2, Bit, BankGroup, Bank, RowBits, ReadConfig;
    TesterDecoder.SmallPowers();
    PageBits(a);
    PageBits(b);
    LayoutBits(a);
    LayoutBits(b);
  }

  lemma LayoutBits(a: nat)
    ensures (a / 64) % 2 == (a / 64) % 1024 % 2 && (a / 128) % 2 == (a / 64) % 1024 / 2 % 2
    ensures (a / 4) % 2 == (a / 4) % 8 % 2 && (a / 8) % 2 == (a / 4) % 8 / 2 % 2 && (a / 16) % 2 == (a / 4) % 8 / 4
  {
    assert a / 64 / 2 == a / 128 && a / 4 / 2 == a / 8 && a / 4 / 4 == a / 16;
    ModSplit(a / 64, 2, 512);
    ModSplit(a / 128, 2, 256);
    ModSplit(a / 4, 2, 4);
    ModSplit(a / 8, 2, 2);
    ModSplit(a / 4, 4, 2);
  }

  lemma ModSplit(v: nat, s: nat, p: nat)
    requires s > 0 && p > 0
    ensures s * p > 0 && v % (s * p) / s == (v / s) % p && v % (s * p) % s == v % s
  {
    var w := v / s;
    ScaledQuotient(s, p, w);
    SplitUnique(v, s, w, v % s, s * p, w / p, w % p);
  }

  lemma SplitUnique(v: nat, s: nat, w: nat, e: nat, n: nat, q: nat, m: nat)
    requires v == s * w + e && e < s && s * w == n * q + s * m && s * m + s <= n
    ensures v % n / s == m && v % n % s == e
  {
    Unique(v, n, q, s * m + e);
    Unique(s * m + e, s, m, e);
  }

  lemma TurnKeepsLayout(k: nat, i: nat)
    requires Free(i)
    ensures SameLayout(k, Turn(k, i))
  {
    hide Flip, Pow2, Bit;
    Powers();
    TesterDecoder.SmallPowers();
    if i == 0 {
      var a := Flip(k, 0);
      FlipKeepsHigh(k, 0, 2);
      FlipKeepsHigh(a, 1, 2);
      FlipParts(k, 0);
      FlipParts(a, 1);
      FlipParts(a / 2, 0);
      BothFlipped(k % 2, (k / 2) % 2);
      QuarterKept(k, Flip(a, 1));
    } else if i == 5 {
      assert Pow2(5) == 32 && Pow2(6) == 64 by { FifthPower(); }
      FlipKeepsHigh(k, 5, 6);
      FlipKeepsLow(k, 5, 5);
      LowKept(k, Flip(k, 5));
    } else {
      FlipKeepsLow(k, i, 16);
      LowerKept(k, Flip(k, i));
    }
  }

  lemma FifthPower()
    ensures Pow2(5) == 32 && Pow2(6) == 64
  {
    TesterDecoder.SmallPowers();
    assert Pow2(4) == 16;
  }

  lemma BothFlipped(x: nat, y: nat)
    requires x < 2 && y < 2
    ensures Xor(1 - x, 1 - y) == Xor(x, y)
  {
  }

  lemma QuarterKept(a: nat, b: nat)
    requires a / 4 == b / 4
    ensures a / 64 == b / 64
  {
    assert a / 64 == a / 4 / 16 && b / 64 == b / 4 / 16;
  }

  lemma LowKept(a: nat, b: nat)
    requires a % 32 == b % 32
    ensures a % 2 == b % 2 && (a / 2) % 2 == (b / 2) % 2 && (a / 4) % 8 == (b / 4) % 8
  {
    ModSplit(a, 2, 16);
    ModSplit(b, 2, 16);
    ModSplit(a / 2, 2, 8);
    ModSplit(b / 2, 2, 8);
    ModSplit(a, 4, 8);
    ModSplit(b, 4, 8);
  }

  lemma LowerKept(a: nat, b: nat)
    requires a % 0x1_0000 == b % 0x1_0000
    ensures a % 32 == b % 32 && (a / 64) % 1024 == (b / 64) % 1024
    ensures a % 2 == b % 2 && (a / 2) % 2 == (b / 2) % 2 && (a / 4) % 8 == (b / 4) % 8
  {
    ModSplit(a, 64, 1024);
    ModSplit(b, 64, 1024);
    ModSplit(a, 32, 2048);
    ModSplit(b, 32, 2048);
    LowKept(a, b);
  }

  /** The free bit by which the filters halve a bank row of the channel. */
  function Divider(r: Regs, c: nat): nat {
    var n := Intra(r, c) % 32;
    if ChannelSplits(r) then if Bit(PageMask(r), 5) == 1 then 5 else 0
    else if n < 14 then 0 else if n < 28 then 5 else n - 12
  }

  lemma DividerIsFree(r: Regs, c: nat)
    requires RowBits(ReadConfig(r)) == 10 && (ChannelSplits(r) || RankSplits(r, c))
    ensures Free(Divider(r, c))
  {
    hide RowBits, ReadConfig, Bit, PageMask;
  }

  /** Of two pages that differ in that bit at most one passes the filters. */
  lemma OneOfTwo(r: Regs, t: RowTuple, k: nat)
    requires TotalGib(r) > 0 && RowBits(ReadConfig(r)) == 10 && (ChannelSplits(r) || RankSplits(r, t.channel))
    ensures !(Matches(DecodePa(PAGE * k, r), t) && Matches(DecodePa(PAGE * Turn(k, Divider(r, t.channel)), r), t))
  {
    hide Bit, Pow2, RowBits, BankGroup, Bank, DecodeRow, DecodeChannel, DecodeRank, ReadConfig, Turn, PageMask;
    MemoryIsPopulated(r);
    var x := Turn(k, Divider(r, t.channel));
    if ChannelSplits(r) {
      PageChannel(r, k);
      PageChannel(r, x);
      TurnedHash(k, PageMask(r));
    } else {
      PageRank(r, t.channel, k);
      PageRank(r, t.channel, x);
      TurnedBit(k, Intra(r, t.channel) % 32 - 12);
    }
  }

  lemma TurnedHash(k: nat, m: nat)
    ensures Bit(m, 5) == 1 ==> HashParity(Turn(k, 5), m) != HashParity(k, m)
    ensures Bit(m, 0) != Bit(m, 1) ==> HashParity(Turn(k, 0), m) != HashParity(k, m)
  {
    hide Bit, Flip, HashParity;
    FlippedHash(k, m, 5);
    FlippedHash(k, m, 0);
    FlippedHash(Flip(k, 0), m, 1);
  }

  lemma TurnedBit(k: nat, j: nat)
    ensures Bit(Turn(k, if j <= 1 then 0 else j), j) == 1 - Bit(k, j)
  {
    hide Bit, Flip;
    if j <= 1 {
      FlipBit(k, 0, j);
      FlipBit(Flip(k, 0), 1, j);
    } else {
      FlipBit(k, j, j);
    }
  }

  ghost function MatchTest(r: Regs, t: RowTuple): nat -> bool {
    (k: nat) => Matches(DecodePa(PAGE * k, r), t)
  }

  ghost function Turned(p: nat -> bool, i: nat): nat -> bool {
    (k: nat) => p(Turn(k, i))
  }

  lemma {:induction false} WalkIsCount(r: Regs, t: RowTuple, n: nat)
    ensures |RowPages(r, t, n)| == Count(MatchTest(r, t), n)
  {
    hide DecodePa, Matches;
    if n > 0 {
      WalkIsCount(r, t, n - 1);
    }
  }

  lemma {:induction false} CountMonotone(p: nat -> bool, n: nat, m: nat)
    requires n <= m
    ensures Count(p, n) <= Count(p, m)
  {
    if n < m {
      CountMonotone(p, n, m - 1);
    }
  }

  /** Pages of the largest machine. */
  const MOST_PAGES: nat := 0x10_0000 * 63

  lemma {:induction false} TurnIs(k: nat, i: nat)
    ensures Turn(k, i) == if i == 0 then Flip(Flip(k, 0), 1) else Flip(k, i)
  {
  }

  lemma CountTurned(p: nat -> bool, i: nat)
    requires Free(i)
    ensures Count(Turned(p, i), MOST_PAGES) == Count(p, MOST_PAGES)
  {
    hide Count, Flip, Turn, Pow2;
    WholePeriods(0);
    WholePeriods(1);
    WholePeriods(i);
    if i == 0 {
      CountFlipped(p, 1, Pow2(18) * 63);
      CountFlipped(Flipped(p, 1), 0, Pow2(19) * 63);
      var f := Flipped(p, 1);
      forall k: nat ensures Turned(p, 0)(k) == Flipped(f, 0)(k) {
        TurnIs(k, 0);
      }
      CountSame(Turned(p, 0), Flipped(f, 0), MOST_PAGES);
    } else {
      CountFlipped(p, i, Pow2(19 - i) * 63);
      forall k: nat ensures Turned(p, i)(k) == Flipped(p, i)(k) {
        TurnIs(k, i);
      }
      CountSame(Turned(p, i), Flipped(p, i), MOST_PAGES);
    }
  }

  lemma WholePeriods(i: nat)
    requires i <= 19
    ensures Pow2(i + 1) * (Pow2(19 - i) * 63) == MOST_PAGES
  {
    hide Pow2;
    Powers();
    Pow2Add(10, 10);
    TesterDecoder.SmallPowers();
    Pow2Add(i + 1, 19 - i);
    var a, b := Pow2(i + 1), Pow2(19 - i);
    assert a * (b * 63) == (a * b) * 63;
  }

  lemma NarrowRowCount(r: Regs, t: RowTuple)
    requires RowBits(ReadConfig(r)) == 10
    ensures Count(PageTest(r, t), MOST_PAGES) <= 4032
  {
    hide SameBankRow, PageTest, Count, RowBits, ReadConfig, Pow2;
    TesterDecoder.SmallPowers();
    if k: nat :| SameBankRow(r, t, k) {
      DecodedRanges(r, t, k);
      PagesOfBankRow(r, t, 1024, 0x1000 * 252);
    } else {
      NoneCounted(r, t, MOST_PAGES);
    }
  }

  /** So where the filters divide bank rows the walk finds at most half of the largest bank row; wider rows have no more
      pages anyway. */
  lemma DividedRowsFit(r: Regs, t: RowTuple)
    requires ChannelSplits(r) || RankSplits(r, t.channel)
    ensures |RowPages(r, t, Pages(r))| <= 2016
  {
    hide RowPages, Pages, TotalGib, RowBits, ReadConfig, TotalMemory, ChannelSplits, RankSplits;
    TotalIs(r);
    if TotalGib(r) > 0 {
      RowBitsInRange(r);
      if RowBits(ReadConfig(r)) == 10 {
        NarrowDividedRowsFit(r, t);
      } else {
        WideRowsFit(r, t);
      }
    }
  }

  lemma NarrowDividedRowsFit(r: Regs, t: RowTuple)
    requires TotalGib(r) > 0 && RowBits(ReadConfig(r)) == 10 && (ChannelSplits(r) || RankSplits(r, t.channel))
    ensures |RowPages(r, t, Pages(r))| <= 2016
  {
    hide SameBankRow, Count, RowBits, ReadConfig, RowPages, Pages, TotalMemory, DecodePa, Matches, Turn,
      ChannelSplits, RankSplits, Divider, TotalGib;
    var i, p, s := Divider(r, t.channel), MatchTest(r, t), PageTest(r, t);
    DividerIsFree(r, t.channel);
    var q := Turned(p, i);
    forall k: nat ensures !(p(k) && q(k)) && (p(k) ==> s(k)) && (q(k) ==> s(k)) {
      OneOfTwo(r, t, k);
      MatchHasBankRow(r, t, k);
      MatchHasBankRow(r, t, Turn(k, i));
      TurnKeepsLayout(k, i);
      LayoutDecides(r, t, k, Turn(k, i));
    }
    CountHalf(p, q, s, MOST_PAGES);
    CountTurned(p, i);
    NarrowRowCount(r, t);
    WalkIsCount(r, t, Pages(r));
    TotalIs(r);
    AtMost252(r);
    CountMonotone(p, Pages(r), MOST_PAGES);
  }

  /** No page lies on a channel out of reach. */
  lemma {:induction false} NothingOutOfReach(r: Regs, t: RowTuple, n: nat)
    requires !Reaches(r, t.channel)
    ensures RowPages(r, t, n) == []
  {
    hide Bit, Pow2, RowBits, BankGroup, Bank, DecodeRow, DecodeChannel, DecodeRank, ReadConfig, PageMask, HashParity;
    if n > 0 {
      NothingOutOfReach(r, t, n - 1);
      if Populated(ReadConfig(r)) > 0 {
        PageChannel(r, n - 1);
        NoHash(n - 1);
      }
    }
  }

  lemma NoHash(k: nat)
    ensures HashParity(k, 0) == 0
  {
  }

  // --------------------------------------------------------- the table's limit

  /** The machines on which some row has more pages than the shim's table: more than 128 GiB, the first slot of
      1 GiB in eight ranks, and a channel whose bank rows neither the hash nor the rank bit divides. */
  predicate Overflows(r: Regs) {
    && TotalGib(r) > 128
    && TesterDecoder.FirstSlot(r).Some?
    && TesterDecoder.SizeGib(TesterDecoder.FirstSlot(r).value.0, TesterDecoder.FirstSlot(r).value.1) == 1
    && TesterDecoder.RankCode(TesterDecoder.FirstSlot(r).value.0, TesterDecoder.FirstSlot(r).value.1) == 3
    && (Undivided(r, 0) || Undivided(r, 1))
  }

  /** For every register value: the table holds the pages of every row unless the machine is one of those. */
  lemma TableSufficesIff(r: Regs)
    ensures (forall t :: |RowPages(r, t, Pages(r))| <= ROW_ENUM_CAP) <==> !Overflows(r)
  {
    hide RowPages, Pages, Undivided, TotalGib, RowBits, ReadConfig, TotalMemory, RowSpan, CeilDiv;
    if Overflows(r) {
      NarrowRowsIff(r);
      var c := if Undivided(r, 0) then 0 else 1;
      CapSufficesIff(r, c, ROW_ENUM_CAP);
      NarrowBound(r);
    } else {
      forall t ensures |RowPages(r, t, Pages(r))| <= ROW_ENUM_CAP {
        RowsFit(r, t);
      }
    }
  }

  lemma NarrowBound(r: Regs)
    requires TotalGib(r) > 0 && RowBits(ReadConfig(r)) == 10
    ensures 4 * CeilDiv(TotalMemory(r), RowSpan(r)) == 16 * TotalGib(r)
  {
    hide RowBits, ReadConfig, TotalMemory, TotalGib, Pow2;
    TotalIs(r);
    TesterDecoder.SmallPowers();
    CeilScaled(0x4_0000, 0x1000 * TotalGib(r), 1024);
    Unique(0x1000 * TotalGib(r), 1024, 4 * TotalGib(r), 0);
  }

  lemma RowsFit(r: Regs, t: RowTuple)
    requires !Overflows(r)
    ensures |RowPages(r, t, Pages(r))| <= ROW_ENUM_CAP
  {
    hide RowPages, Pages, TotalGib, Reaches, ChannelSplits, RankSplits, RowBits, ReadConfig, TotalMemory;
    TotalIs(r);
    if TotalGib(r) > 0 {
      SlotFound(r);
      RowBitsInRange(r);
      NarrowRowsIff(r);
      if RowBits(ReadConfig(r)) >= 11 || TotalGib(r) <= 128 {
        WideRowsFit(r, t);
      } else if !Reaches(r, t.channel) {
        NothingOutOfReach(r, t, Pages(r));
      } else {
        TwoChannels(r, t.channel);
        DividedRowsFit(r, t);
      }
    }
  }

  lemma SlotFound(r: Regs)
    ensures TotalGib(r) > 0 <==> TesterDecoder.FirstSlot(r).Some?
  {
  }

  lemma TwoChannels(r: Regs, c: nat)
    requires Reaches(r, c)
    ensures c < 2
  {
    hide ReadConfig, PageMask;
  }

  /** On every other machine row mode is exact: the shim reserves a page for the rows of a run exactly when the page
      lies below the total and decodes to a recorded row. */
  lemma ReservedIffRecorded(pages: seq<nat>, r: Regs, pa: nat)
    requires !Overflows(r)
    ensures pa in RowMode.MaskedPages(r, RowMode.ParseRows(RowMode.RowBlob(RowMode.DecodeAll(pages, r))))
       <==> && pa % PAGE == 0 && pa < PAGE * Pages(r)
            && exists t :: t in RowMode.DecodeAll(pages, r) && Matches(DecodePa(pa, r), t)
  {
    hide RowMode.DecodeAll, RowMode.ParseRows, RowMode.RowBlob, RowMode.MaskedPages, DecodePa, Matches, Pages, RowPages,
      Overflows;
    var rows := RowMode.DecodeAll(pages, r);
    RowMode.RowLogStored(pages, r);
    RowMode.MaskedPagesIff(r, rows, pa);
    forall t | t in rows
      ensures pa in RowMode.Enumerated(r, t) <==> pa % PAGE == 0 && pa < PAGE * Pages(r) && Matches(DecodePa(pa, r), t)
    {
      RowsFit(r, t);
      RowPagesExact(r, t, Pages(r), pa);
    }
  }

  /** One such machine: 1 GiB of eight ranks in the first slot, 63 GiB in the others, no channel hash and no rank
      interleave put 3040 pages on one row. */
  lemma UnequalSlotsOverflow()
    ensures var r := Regs(63 * 0x1_0000 + 0x301, 63 * 0x1_0000 + 63, 0, 0, 0);
            |RowPages(r, RowTuple(0, 0, 0, 0, 0), Pages(r))| == 3040 > ROW_ENUM_CAP
  {
    var r := Regs(63 * 0x1_0000 + 0x301, 63 * 0x1_0000 + 63, 0, 0, 0);
    hide RowPages, Pages, RowBits, ReadConfig, TotalMemory, TupleOfPage, Reaches, ChannelSplits, RankSplits;
    Slots(r);
    hide TesterDecoder.SizeGib, TesterDecoder.RankCode, TesterDecoder.FirstSlot, TotalGib, RowSpan;
    NarrowRowsIff(r);
    BothPopulated(r);
    PlainMachine(r);
    AttainsBound(r, 0);
    NarrowBound(r);
  }

  lemma Slots(r: Regs)
    requires r.madDimm0 == 63 * 0x1_0000 + 0x301 && r.madDimm1 == 63 * 0x1_0000 + 63
    ensures TotalGib(r) == 190 && TesterDecoder.FirstSlot(r) == Some((r.madDimm0, 0))
    ensures TesterDecoder.SizeGib(r.madDimm0, 0) == 1 && TesterDecoder.RankCode(r.madDimm0, 0) == 3
    ensures TesterDecoder.SizeGib(r.madDimm1, 0) == 63
  {
  }

  lemma BothPopulated(r: Regs)
    requires TesterDecoder.SizeGib(r.madDimm0, 0) > 0 && TesterDecoder.SizeGib(r.madDimm1, 0) > 0
    ensures Populated(ReadConfig(r)) == 2
  {
    hide Pow2, Bit;
  }

  /** Two populated channels without hash and without rank interleave. */
  lemma PlainMachine(r: Regs)
    requires TotalGib(r) > 0 && Populated(ReadConfig(r)) == 2
    requires r.chanHash == 0 && r.madIntra0 == 0
    ensures Undivided(r, 0) && TupleOfPage(r, 0) == RowTuple(0, 0, 0, 0, 0)
  {
    hide Pow2, Xor, RowBits, ReadConfig, DecodeChannel, DecodeRank, BankGroup, Bank, HashParity, PageMask, Bit;
    ZeroBit(8);
    MemoryIsPopulated(r);
    PageChannel(r, 0);
    PageRank(r, 0, 0);
    PageBits(0);
    XorAssoc(0, 0, 0);
    RowBitsInRange(r);
    var n := RowBits(ReadConfig(r));
    Unique(0, Pow2(n), 0, 0);
  }
}
