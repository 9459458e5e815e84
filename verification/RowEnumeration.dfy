/** How many pages share a bank group, bank and row, and when the walk's table can overflow. */
module RowEnumeration {
  import opened Common
  import opened Imc
  import opened Counting
  import TesterDecoder
  import opened ShimDecoder

  const ROW_ENUM_CAP: nat := 2048

  /** The page's bank group, bank and row are those of the tuple, whatever its channel and rank. */
  predicate SameBankRow(r: Regs, t: RowTuple, k: nat) {
    && BankGroup(PAGE * k) == t.bankGroup && Bank(PAGE * k) == t.bank
    && DecodeRow(PAGE * k, RowBits(ReadConfig(r))) == t.row
  }

  /** Group of four pages 4g .. 4g + 3: its low address bits select the bank bits. */
  predicate GroupHit(t: RowTuple, rows: nat, g: nat)
    requires rows > 0
  {
    g % 8 == GroupResidue(t, g / 16) && (g / 16) % rows == t.row
  }

  function GroupResidue(t: RowTuple, q: nat): nat {
    t.bankGroup % 2 + 2 * Xor(t.bank % 2, q % 2) + 4 * Xor((t.bank / 2) % 2, (q / 2) % 2)
  }

  lemma Powers()
    ensures Pow2(7) == 128 && Pow2(8) == 256 && Pow2(9) == 512
    ensures Pow2(12) == 0x1000 && Pow2(13) == 0x2000 && Pow2(14) == 0x4000 && Pow2(15) == 0x8000
    ensures Pow2(16) == 0x1_0000 && Pow2(18) == 0x4_0000 && Pow2(19) == 0x8_0000
  {
    TesterDecoder.SmallPowers();
    assert Pow2(5) == 32 by { assert Pow2(4) == 16; }
    assert Pow2(7) == 128 by { assert Pow2(6) == 64; }
    assert Pow2(9) == 512 && Pow2(8) == 256;
    assert Pow2(15) == 0x8000 && Pow2(14) == 0x4000;
    assert Pow2(17) == 0x2_0000 && Pow2(16) == 0x1_0000;
    assert Pow2(19) == 0x8_0000 && Pow2(18) == 0x4_0000;
  }

  lemma PageBit(k: nat, n: nat, p: nat)
    requires p > 0 && Pow2(n) == 4096 * p
    ensures Bit(PAGE * k, n) == (k / p) % 2
  {
    QuotientBy4096(k, p);
  }

  lemma QuotientBy4096(k: nat, p: nat)
    requires p > 0
    ensures (4096 * k) / (4096 * p) == k / p
  {
    var q, m := k / p, k % p;
    assert k == p * q + m;
    assert 4096 * k == (4096 * p) * q + 4096 * m;
    Unique(4096 * k, 4096 * p, q, 4096 * m);
  }

  lemma LowBit(k: nat, n: nat, p: nat, m: nat)
    requires p > 0 && Pow2(n) == p && p * (2 * m) == 4096
    ensures Bit(PAGE * k, n) == 0
  {
    assert 4096 * k == p * (2 * (m * k)) + 0;
    Unique(4096 * k, p, 2 * (m * k), 0);
  }

  /** The decoded bits of a page base, from its page number. */
  lemma PageBits(k: nat)
    ensures BankGroup(PAGE * k) == (k / 4) % 2 + 2 * Xor(Xor(k % 2, (k / 2) % 2), Xor((k / 64) % 2, (k / 128) % 2))
    ensures Bank(PAGE * k) == Xor((k / 8) % 2, (k / 64) % 2) + 2 * Xor((k / 16) % 2, (k / 128) % 2)
    ensures (PAGE * k) / 0x4_0000 == k / 64
  {
    hide Bit, Xor, Pow2;
    Powers();
    LowBit(k, 7, 128, 16);
    LowBit(k, 8, 256, 8);
    LowBit(k, 9, 512, 4);
    PageBit(k, 12, 1);
    PageBit(k, 13, 2);
    PageBit(k, 14, 4);
    PageBit(k, 15, 8);
    PageBit(k, 16, 16);
    PageBit(k, 18, 64);
    PageBit(k, 19, 128);
    var a, b, c, d := k % 2, (k / 2) % 2, (k / 64) % 2, (k / 128) % 2;
    assert k / 1 == k;
    XorAssoc(0, 0, 0);
    XorAssoc((k / 4) % 2, 0, 0);
    XorAssoc(a, 0, 0);
    XorAssoc(Xor(a, b), c, d);
    QuotientBy4096(k, 64);
  }

  lemma LowPosition(g: nat, l: nat)
    requires l < 4
    ensures var k := 4 * g + l; k / 4 == g && k % 2 == l % 2 && (k / 2) % 2 == l / 2
  {
    assert (4 * g + l) / 2 == 2 * g + l / 2;
  }

  lemma Halved(k: nat)
    ensures k / 8 == k / 4 / 2 && k / 16 == k / 4 / 4 && k / 64 == k / 4 / 16 && k / 128 == k / 4 / 16 / 2
  {
  }

  lemma ThreeBits(g: nat)
    ensures g % 8 == g % 2 + 2 * ((g / 2) % 2) + 4 * ((g / 4) % 2)
  {
    var c, x, y, z := g / 8, g % 2, (g / 2) % 2, (g / 4) % 2;
    Halves(g);
    Unique(g, 8, c, x + 2 * y + 4 * z);
  }

  lemma Halves(g: nat)
    ensures g == 8 * (g / 8) + (g % 2 + 2 * ((g / 2) % 2) + 4 * ((g / 4) % 2))
  {
    var a, b, c := g / 2, g / 2 / 2, g / 2 / 2 / 2;
    assert g == 2 * a + g % 2 && a == 2 * b + a % 2 && b == 2 * c + b % 2;
    Unique(g, 4, b, 2 * (a % 2) + g % 2);
    Unique(g, 8, c, 4 * (b % 2) + 2 * (a % 2) + g % 2);
  }

  lemma XorSolve(x: nat, q: nat, b: nat)
    requires x < 2 && q < 2 && b < 2
    ensures Xor(x, q) == b <==> x == Xor(b, q)
  {
  }

  ghost predicate Sane(r: Regs, t: RowTuple, rows: nat) {
    && t.bankGroup < 4 && t.bank < 4 && 10 <= RowBits(ReadConfig(r)) <= 18 && rows == Pow2(RowBits(ReadConfig(r)))
  }

  lemma TwoDigits(a: nat, b: nat, v: nat)
    requires a < 2 && b < 2 && v < 4
    ensures a + 2 * b == v <==> a == v % 2 && b == v / 2
  {
  }

  lemma ThreeDigits(a: nat, b: nat, c: nat, x: nat, y: nat, z: nat)
    requires a < 2 && b < 2 && c < 2 && x < 2 && y < 2 && z < 2
    ensures a + 2 * b + 4 * c == x + 2 * y + 4 * z <==> a == x && b == y && c == z
  {
  }

  /** The parity that the two lowest page bits of a match must have with the low row bits. */
  function LowParity(l: nat, q: nat): (x: nat)
    ensures x < 2
  {
    Xor(Xor(l % 2, l / 2), Xor(q % 2, (q / 2) % 2))
  }

  /** A page of group g matches when the group does and the parity of its two lowest bits is right. */
  lemma HitSplit(r: Regs, t: RowTuple, rows: nat, g: nat, l: nat)
    requires Sane(r, t, rows) && l < 4
    ensures SameBankRow(r, t, 4 * g + l) <==> GroupHit(t, rows, g) && LowParity(l, g / 16) == t.bankGroup / 2
  {
    hide Bit, Xor, Pow2, BankGroup, Bank, RowBits, ReadConfig;
    var k, q := 4 * g + l, g / 16;
    var q0, q1, g0, g1, g2, b0, b1 := q % 2, (q / 2) % 2, g % 2, (g / 2) % 2, (g / 4) % 2, t.bank % 2, t.bank / 2;
    PageBits(k);
    LowPosition(g, l);
    Halved(k);
    ThreeBits(g);
    assert BankGroup(PAGE * k) == g0 + 2 * LowParity(l, q);
    assert Bank(PAGE * k) == Xor(g1, q0) + 2 * Xor(g2, q1);
    assert DecodeRow(PAGE * k, RowBits(ReadConfig(r))) == q % rows;
    TwoDigits(g0, LowParity(l, q), t.bankGroup);
    TwoDigits(Xor(g1, q0), Xor(g2, q1), t.bank);
    XorSolve(g1, q0, b0);
    XorSolve(g2, q1, b1);
    GroupDigits(t, rows, g, g0, g1, g2);
  }

  lemma GroupDigits(t: RowTuple, rows: nat, g: nat, g0: nat, g1: nat, g2: nat)
    requires rows > 0 && t.bankGroup < 4 && t.bank < 4 && g0 < 2 && g1 < 2 && g2 < 2 && g % 8 == g0 + 2 * g1 + 4 * g2
    ensures var q := g / 16;
            GroupHit(t, rows, g) <==> (&& q % rows == t.row && g0 == t.bankGroup % 2
                                       && g1 == Xor(t.bank % 2, q % 2) && g2 == Xor(t.bank / 2, (q / 2) % 2))
  {
    hide Xor;
    var q := g / 16;
    assert (t.bank / 2) % 2 == t.bank / 2;
    ThreeDigits(g0, g1, g2, t.bankGroup % 2, Xor(t.bank % 2, q % 2), Xor(t.bank / 2, (q / 2) % 2));
  }

  /** Of the four values of the two lowest bits two have either parity. */
  lemma LowParities(q: nat)
    ensures LowParity(0, q) == LowParity(3, q) && LowParity(1, q) == LowParity(2, q) == 1 - LowParity(0, q)
  {
    hide Xor, LowParity;
    SmallXors(Xor(q % 2, (q / 2) % 2));
    LowParityOf(0, 0, 0, q);
    LowParityOf(1, 1, 0, q);
    LowParityOf(2, 0, 1, q);
    LowParityOf(3, 1, 1, q);
  }

  lemma LowParityOf(l: nat, x: nat, y: nat, q: nat)
    requires l == x + 2 * y && x < 2
    ensures LowParity(l, q) == Xor(Xor(x, y), Xor(q % 2, (q / 2) % 2))
  {
    hide Xor;
    Unique(l, 2, y, x);
  }

  lemma SmallXors(c: nat)
    requires c < 2
    ensures Xor(0, 0) == Xor(1, 1) == 0 && Xor(0, 1) == Xor(1, 0) == 1 && Xor(0, c) == c && Xor(1, c) == 1 - c
  {
  }

  ghost function PageTest(r: Regs, t: RowTuple): nat -> bool {
    (k: nat) => SameBankRow(r, t, k)
  }

  ghost function GroupTest(t: RowTuple, rows: nat): nat -> bool
    requires rows > 0
  {
    (g: nat) => GroupHit(t, rows, g)
  }

  ghost function HalfTest(t: RowTuple, rows: nat): nat -> bool
    requires rows > 0
  {
    (u: nat) => (u / 2) % rows == t.row
  }

  ghost function BlockTest(t: RowTuple, rows: nat): nat -> bool
    requires rows > 0
  {
    (q: nat) => q % rows == t.row
  }

  lemma InGroupOfTwo(p: nat -> bool, a: nat)
    ensures InGroup(p, a, 2) == (if p(a) then 1 else 0) + (if p(a + 1) then 1 else 0)
  {
    assert InGroup(p, a, 1) == InGroup(p, a, 0) + if p(a + 0) then 1 else 0;
  }

  lemma InGroupOfFour(p: nat -> bool, a: nat)
    ensures InGroup(p, a, 4) == (if p(a) then 1 else 0) + (if p(a + 1) then 1 else 0)
                              + (if p(a + 2) then 1 else 0) + (if p(a + 3) then 1 else 0)
  {
    InGroupOfTwo(p, a);
    assert InGroup(p, a, 3) == InGroup(p, a, 2) + if p(a + 2) then 1 else 0;
  }

  /** So exactly two of its four pages do. */
  lemma TwoPerGroup(r: Regs, t: RowTuple, rows: nat, g: nat)
    requires Sane(r, t, rows)
    ensures InGroup(PageTest(r, t), 4 * g, 4) == if GroupTest(t, rows)(g) then 2 else 0
  {
    hide SameBankRow, GroupHit, RowBits, ReadConfig, Pow2, LowParity, InGroup;
    HitSplit(r, t, rows, g, 0);
    HitSplit(r, t, rows, g, 1);
    HitSplit(r, t, rows, g, 2);
    HitSplit(r, t, rows, g, 3);
    LowParities(g / 16);
    InGroupOfFour(PageTest(r, t), 4 * g);
  }

  lemma {:induction false} OneHit(p: nat -> bool, a: nat, n: nat, e: nat, b: bool)
    requires forall x: nat {:trigger p(x)} :: a <= x < a + n ==> (p(x) <==> x == a + e && b)
    ensures InGroup(p, a, n) == if b && e < n then 1 else 0
  {
    if n > 0 {
      OneHit(p, a, n - 1, e, b);
      assert p(a + n - 1) <==> a + n - 1 == a + e && b;
    }
  }

  /** Of eight consecutive groups exactly one has the right bank bits. */
  lemma OneGroupInEight(t: RowTuple, rows: nat, u: nat)
    requires rows > 0
    ensures InGroup(GroupTest(t, rows), 8 * u, 8) == if HalfTest(t, rows)(u) then 1 else 0
  {
    var p, e := GroupTest(t, rows), GroupResidue(t, u / 2);
    forall x: nat | 8 * u <= x < 8 * u + 8 ensures p(x) <==> x == 8 * u + e && (u / 2) % rows == t.row {
      assert x % 8 == x - 8 * u && x / 16 == u / 2;
    }
    OneHit(p, 8 * u, 8, e, (u / 2) % rows == t.row);
  }

  lemma BothHalves(t: RowTuple, rows: nat, q: nat)
    requires rows > 0
    ensures InGroup(HalfTest(t, rows), 2 * q, 2) == if BlockTest(t, rows)(q) then 2 else 0
  {
    InGroupOfTwo(HalfTest(t, rows), 2 * q);
    assert (2 * q) / 2 == q && (2 * q + 1) / 2 == q;
  }

  /** Four pages for every 256 KiB block whose number leaves the row as its remainder. */
  lemma PagesOfBankRow(r: Regs, t: RowTuple, rows: nat, blocks: nat)
    requires Sane(r, t, rows) && t.row < rows
    ensures Count(PageTest(r, t), 64 * blocks) == 4 * (blocks / rows + if t.row < blocks % rows then 1 else 0)
  {
    hide PageTest, GroupTest, HalfTest, BlockTest, Count, InGroup, RowBits, ReadConfig, Pow2;
    var p, g, u, q := PageTest(r, t), GroupTest(t, rows), HalfTest(t, rows), BlockTest(t, rows);
    forall n: nat ensures InGroup(p, 4 * n, 4) == if g(n) then 2 else 0 {
      TwoPerGroup(r, t, rows, n);
    }
    forall n: nat ensures InGroup(g, 8 * n, 8) == if u(n) then 1 else 0 {
      OneGroupInEight(t, rows, n);
    }
    forall n: nat ensures InGroup(u, 2 * n, 2) == if q(n) then 2 else 0 {
      BothHalves(t, rows, n);
    }
    CountByGroups(p, g, 4, 2, 16 * blocks);
    CountByGroups(g, u, 8, 1, 2 * blocks);
    CountByGroups(u, q, 2, 2, blocks);
    BlocksCounted(t, rows, blocks);
  }

  lemma BlocksCounted(t: RowTuple, rows: nat, blocks: nat)
    requires rows > 0 && t.row < rows
    ensures Count(BlockTest(t, rows), blocks) == blocks / rows + if t.row < blocks % rows then 1 else 0
  {
    CountResidue(BlockTest(t, rows), rows, t.row, blocks);
  }

  // ------------------------------------------------------- the walk's result

  function TotalGib(r: Regs): nat {
    TesterDecoder.SizeGib(r.madDimm0, 0) + TesterDecoder.SizeGib(r.madDimm0, 1) +
    TesterDecoder.SizeGib(r.madDimm1, 0) + TesterDecoder.SizeGib(r.madDimm1, 1)
  }

  lemma TotalIs(r: Regs)
    ensures TotalMemory(r) == 0x4_0000 * (0x1000 * TotalGib(r)) && Pages(r) == 64 * (0x1000 * TotalGib(r))
  {
    hide Bit, Pow2;
  }

  lemma CeilScaled(s: nat, a: nat, b: nat)
    requires s > 0 && b > 0
    ensures CeilDiv(s * a, s * b) == CeilDiv(a, b)
  {
    var q, m := a / b, a % b;
    assert a == b * q + m;
    ScaledSum(s, b, q, m);
    Multiples(s, m, b);
    Unique(s * a, s * b, q, s * m);
    assert s * m == 0 <==> m == 0 by { ZeroProduct(s, m); }
  }

  lemma ScaledSum(s: nat, b: nat, q: nat, m: nat)
    ensures s * (b * q + m) == (s * b) * q + s * m && s * b >= 0
  {
    assert s * (b * q + m) == s * (b * q) + s * m;
    assert s * (b * q) == (s * b) * q;
  }

  lemma ZeroProduct(s: nat, m: nat)
    requires s > 0
    ensures s * m == 0 <==> m == 0
  {
    if m > 0 {
      Multiples(s, 0, m);
    }
  }

  /** Every page the walk finds has the bank and row; whether all with the bank and row are found depends on the
      channel and rank filters. */
  lemma {:induction false} WalkCounted(r: Regs, t: RowTuple, n: nat)
    ensures |RowPages(r, t, n)| <= Count(PageTest(r, t), n)
    ensures (forall k: nat :: SameBankRow(r, t, k) ==> Matches(DecodePa(PAGE * k, r), t)) ==>
              |RowPages(r, t, n)| == Count(PageTest(r, t), n)
  {
    hide BankGroup, Bank, RowBits, DecodeRow, DecodeChannel, DecodeRank, ReadConfig;
    if n > 0 {
      WalkCounted(r, t, n - 1);
      MatchHasBankRow(r, t, n - 1);
    }
  }

  lemma MatchHasBankRow(r: Regs, t: RowTuple, k: nat)
    ensures Matches(DecodePa(PAGE * k, r), t) ==> SameBankRow(r, t, k)
  {
    hide BankGroup, Bank, RowBits, DecodeRow, DecodeChannel, DecodeRank, ReadConfig;
  }

  lemma DecodedRanges(r: Regs, t: RowTuple, k: nat)
    requires SameBankRow(r, t, k) && 0 < RowBits(ReadConfig(r)) <= 20
    ensures t.bankGroup < 4 && t.bank < 4 && t.row < Pow2(RowBits(ReadConfig(r)))
  {
    hide Bit, Pow2, RowBits, ReadConfig;
  }

  lemma {:induction false} NoneCounted(r: Regs, t: RowTuple, n: nat)
    requires forall k: nat :: !SameBankRow(r, t, k)
    ensures Count(PageTest(r, t), n) == 0
  {
    hide SameBankRow;
    if n > 0 {
      NoneCounted(r, t, n - 1);
    }
  }

  /** Bytes in which every row number occurs once in every bank. */
  function RowSpan(r: Regs): (b: nat)
    ensures b > 0
  {
    0x4_0000 * Pow2(RowBits(ReadConfig(r)))
  }

  lemma RowBitsInRange(r: Regs)
    requires TotalGib(r) > 0
    ensures 10 <= RowBits(ReadConfig(r)) <= 18
  {
    hide RowBits, ReadConfig, TesterDecoder.RowBits, TesterDecoder.ReadConfig;
    SameRowBits(r);
    TesterDecoder.RowBitsClosed(r);
  }

  /** At most 4 * ceil(total / 2^(18 + row bits)) pages share a bank group, a bank and a row. */
  lemma RowCountBound(r: Regs, t: RowTuple)
    requires TotalGib(r) > 0
    ensures |RowPages(r, t, Pages(r))| <= Count(PageTest(r, t), Pages(r)) <= 4 * CeilDiv(TotalMemory(r), RowSpan(r))
  {
    hide SameBankRow, PageTest, Count, RowBits, ReadConfig, Pow2, RowPages, Pages, TotalMemory;
    var rows, blocks := Pow2(RowBits(ReadConfig(r))), 0x1000 * TotalGib(r);
    TotalIs(r);
    RowBitsInRange(r);
    WalkCounted(r, t, Pages(r));
    CeilScaled(0x4_0000, blocks, rows);
    if k: nat :| SameBankRow(r, t, k) {
      DecodedRanges(r, t, k);
      PagesOfBankRow(r, t, rows, blocks);
    } else {
      NoneCounted(r, t, Pages(r));
    }
  }

  /** Every populated slot has the same size and the same number of ranks. */
  ghost predicate EqualSlots(r: Regs, gib: nat, code: nat) {
    forall raw, slot :: raw in {r.madDimm0, r.madDimm1} && slot in {0, 1} && TesterDecoder.SizeGib(raw, slot) > 0 ==>
      TesterDecoder.SizeGib(raw, slot) == gib && TesterDecoder.RankCode(raw, slot) == code
  }

  lemma EqualSlotsBound(r: Regs, gib: nat, code: nat)
    requires EqualSlots(r, gib, code) && TotalGib(r) > 0
    ensures 0 < gib < 64 && code < 4 && TotalGib(r) <= 4 * gib
    ensures RowBits(ReadConfig(r)) == 13 + Log2(gib) - code
  {
    hide RowBits, ReadConfig, TesterDecoder.RowBits, TesterDecoder.ReadConfig, Log2;
    SameRowBits(r);
    TesterDecoder.RowBitsClosed(r);
    var raw, slot := TesterDecoder.FirstSlot(r).value.0, TesterDecoder.FirstSlot(r).value.1;
    assert raw in {r.madDimm0, r.madDimm1} && slot in {0, 1};
    assert forall x, y :: x in {r.madDimm0, r.madDimm1} && y in {0, 1} ==> TesterDecoder.SizeGib(x, y) <= gib;
  }

  /** 2^12 times the memory in GiB is less than 32 rows' worth of blocks. */
  lemma BlocksPerRow(total: nat, gib: nat, code: nat, rows: nat)
    requires 0 < gib < 64 && code < 4 && total <= 4 * gib && rows == Pow2(13 + Log2(gib) - code)
    ensures 0x1000 * total <= 32 * rows
  {
    hide Log2, Pow2;
    TesterDecoder.SmallPowers();
    Log2Bounds(gib);
    var p := Pow2(Log2(gib));
    Pow2Add(Log2(gib), 13 - code);
    assert 0x1000 * total <= 0x8000 * p;
    match code {
      case 0 => assert rows == p * 8192;
      case 1 => assert rows == p * 4096;
      case 2 => assert rows == p * 2048;
      case 3 => assert rows == p * 1024;
    }
  }

  lemma CeilBelow(a: nat, b: nat, c: nat)
    requires b > 0 && a <= c * b
    ensures CeilDiv(a, b) <= c
  {
    var q, m := a / b, a % b;
    assert a == b * q + m;
    if q >= c {
      if c < q {
        Multiples(b, c, q);
      }
      assert c * b == b * c;
    }
  }

  /** When all populated slots have equal size and ranks at most 128 pages share a row, so the shim's table never
      cuts the walk short. */
  lemma EqualSlotsNeverTruncate(r: Regs, gib: nat, code: nat, t: RowTuple)
    requires EqualSlots(r, gib, code) && TotalGib(r) > 0
    ensures |RowPages(r, t, Pages(r))| <= 128
    ensures Take(RowPages(r, t, Pages(r)), ROW_ENUM_CAP) == RowPages(r, t, Pages(r))
  {
    hide SameBankRow, PageTest, Count, RowBits, ReadConfig, Pow2, RowPages, Pages, TotalMemory, EqualSlots, CeilDiv;
    var rows, blocks := Pow2(RowBits(ReadConfig(r))), 0x1000 * TotalGib(r);
    RowCountBound(r, t);
    TotalIs(r);
    EqualSlotsBound(r, gib, code);
    BlocksPerRow(TotalGib(r), gib, code, rows);
    CeilScaled(0x4_0000, blocks, rows);
    CeilBelow(blocks, rows, 32);
  }

  /** Unless rows are at their narrowest and the machine has more than 128 GiB, the table holds every row. The
      narrowest rows come from a first slot of 1 GiB in eight ranks. */
  lemma WideRowsFit(r: Regs, t: RowTuple)
    requires TotalGib(r) > 0 && (RowBits(ReadConfig(r)) >= 11 || TotalGib(r) <= 128)
    ensures |RowPages(r, t, Pages(r))| <= ROW_ENUM_CAP
    ensures RowBits(ReadConfig(r)) >= 11 ==> |RowPages(r, t, Pages(r))| <= 2016
  {
    hide RowBits, ReadConfig, Pow2, RowPages, Pages, TotalMemory, Count, PageTest, CeilDiv, TotalGib;
    var bits := RowBits(ReadConfig(r));
    var rows, blocks := Pow2(bits), 0x1000 * TotalGib(r);
    RowCountBound(r, t);
    TotalIs(r);
    RowBitsInRange(r);
    AtMost252(r);
    CeilScaled(0x4_0000, blocks, rows);
    TesterDecoder.SmallPowers();
    if bits >= 11 {
      PowAtLeast(bits, 11);
      CeilBelow(blocks, rows, 2 * TotalGib(r));
    } else {
      CeilBelow(blocks, rows, 4 * TotalGib(r));
    }
  }

  lemma PowAtLeast(n: nat, m: nat)
    requires m <= n
    ensures Pow2(m) <= Pow2(n)
  {
    if m < n {
      Pow2Monotone(m, n);
    }
  }

  lemma AtMost252(r: Regs)
    ensures TotalGib(r) <= 252
  {
  }

  /** The narrowest rows. */
  lemma NarrowRowsIff(r: Regs)
    requires TotalGib(r) > 0
    ensures RowBits(ReadConfig(r)) == 10
       <==> var first := TesterDecoder.FirstSlot(r).value;
            TesterDecoder.SizeGib(first.0, first.1) == 1 && TesterDecoder.RankCode(first.0, first.1) == 3
  {
    hide RowBits, ReadConfig, TesterDecoder.RowBits, TesterDecoder.ReadConfig, Log2;
    SameRowBits(r);
    TesterDecoder.RowBitsClosed(r);
    var first := TesterDecoder.FirstSlot(r).value;
    Log2Zero(TesterDecoder.SizeGib(first.0, first.1));
  }

  lemma Log2Zero(v: nat)
    ensures Log2(v) == 0 <==> v <= 1
  {
  }
}
