/** The shim's own address decoder, its row walk, and its agreement with the tester's. */
module ShimDecoder {
  import opened Common
  import opened Imc
  import TesterDecoder

  function DecodeMadDimm(raw: nat): Channel {
    var sizeA, sizeB := raw % 64, (raw / 0x1_0000) % 64;
    var rankA, rankB := (raw / 0x100) % 4, (raw / 0x1000) % 4;
    Channel(sizeA > 0 || sizeB > 0,
            Dimm(sizeA > 0, Pow2(rankA), if Bit(raw, 10) == 1 then 16 else 8, sizeA * 1024),
            Dimm(sizeB > 0, Pow2(rankB), if Bit(raw, 11) == 1 then 16 else 8, sizeB * 1024))
  }

  function ReadConfig(r: Regs): Config {
    Config(DecodeMadDimm(r.madDimm0), DecodeMadDimm(r.madDimm1), r.madIntra0, r.madIntra1, r.chanHash)
  }

  function DecodeChannel(pa: nat, mc: Config): nat {
    if Populated(mc) == 1 then if mc.ch0.populated then 0 else 1
    else if mc.hash % 2 == 1 then Parity(And(pa / 64, (mc.hash / 64) % 0x4000))
    else (pa / 64) % 2
  }

  function DecodeRank(pa: nat, c: nat, mc: Config): Rank {
    var ch := ChannelOf(mc, c);
    var a := if ch.dimm0.populated then ch.dimm0.ranks else 0;
    var maxRanks := if ch.dimm1.populated && ch.dimm1.ranks > a then ch.dimm1.ranks else a;
    var intra := if c == 0 then mc.intra0 else mc.intra1;
    if maxRanks <= 1 then Rank(0, true)
    else if Bit(intra, 8) == 0 then Rank(0, false)
    else if intra % 32 < 6 || intra % 32 > 40 then Rank(0, false)
    else Rank(Bit(pa, intra % 32), true)
  }

  datatype Geometry = Geometry(sizeMb: nat, ranks: nat, width: nat)

  /** Takes the geometry of a slot unless one was found before. */
  function Visit(g: Geometry, d: Dimm): Geometry {
    if g.sizeMb == 0 && d.populated then Geometry(d.sizeMb, d.ranks, d.width) else g
  }

  function VisitChannel(g: Geometry, ch: Channel): Geometry {
    if g.sizeMb == 0 && ch.populated then Visit(Visit(g, ch.dimm0), ch.dimm1) else g
  }

  function FirstGeometry(mc: Config): Geometry {
    VisitChannel(VisitChannel(Geometry(0, 1, 8), mc.ch0), mc.ch1)
  }

  function RowBits(mc: Config): nat {
    var g := FirstGeometry(mc);
    if g.sizeMb == 0 || g.ranks == 0 || (g.width != 8 && g.width != 16) then 0
    else
      var dimmBytes := g.sizeMb * 1024 * 1024;
      Log2(RowsOf(dimmBytes, if g.width == 8 then 8 else 4, g.ranks, 1024 * (g.width / 8)))
  }

  /** Unlike the tester, an out-of-range width falls back to seventeen row bits. */
  function DecodeRow(pa: nat, bits: nat): nat {
    if 0 < bits <= 20 then (pa / 0x4_0000) % Pow2(bits) else (pa / 0x4_0000) % 0x2_0000
  }

  function BankGroup(pa: nat): nat {
    Xor(Bit(pa, 7), Bit(pa, 14)) +
    2 * Xor(Xor(Xor(Xor(Xor(Bit(pa, 8), Bit(pa, 9)), Bit(pa, 12)), Bit(pa, 13)), Bit(pa, 18)), Bit(pa, 19))
  }

  function Bank(pa: nat): nat {
    Xor(Bit(pa, 15), Bit(pa, 18)) + 2 * Xor(Bit(pa, 16), Bit(pa, 19))
  }

  function DecodePa(pa: nat, r: Regs): Decoded {
    var mc := ReadConfig(r);
    if Populated(mc) == 0 then Decoded(false, 0, Rank(0, false), 0, 0, 0)
    else
      var c := DecodeChannel(pa, mc);
      Decoded(true, c, DecodeRank(pa, c, mc), BankGroup(pa), Bank(pa), DecodeRow(pa, RowBits(mc)))
  }

  function TotalMemory(r: Regs): nat {
    var mc := ReadConfig(r);
    (if mc.ch0.populated then DimmBytes(mc.ch0.dimm0) + DimmBytes(mc.ch0.dimm1) else 0) +
    (if mc.ch1.populated then DimmBytes(mc.ch1.dimm0) + DimmBytes(mc.ch1.dimm1) else 0)
  }

  function DimmBytes(d: Dimm): nat {
    if d.populated then d.sizeMb * 1024 * 1024 else 0
  }

  // ------------------------------------------------------------ the row walk

  /** The matching page bases among the first `n` pages, in increasing order. */
  function RowPages(r: Regs, t: RowTuple, n: nat): (s: seq<nat>)
    ensures |s| <= n
  {
    if n == 0 then []
    else RowPages(r, t, n - 1) + if Matches(DecodePa(PAGE * (n - 1), r), t) then [PAGE * (n - 1)] else []
  }

  function Pages(r: Regs): nat {
    (TotalMemory(r) + PAGE - 1) / PAGE
  }

  /** The walk over all pages below the total, as far as the table has room. */
  method EnumerateRow(r: Regs, t: RowTuple, out: array<nat>) returns (count: nat)
    modifies out
    ensures count <= out.Length && out[..count] == Take(RowPages(r, t, Pages(r)), out.Length)
  {
    hide DecodePa, TotalMemory;
    count := 0;
    var total := TotalMemory(r);
    var n := 0;
    while PAGE * n < total && count < out.Length
      invariant n <= Pages(r) && count <= out.Length && out[..count] == RowPages(r, t, n)
      decreases Pages(r) - n
    {
      var d := DecodePa(PAGE * n, r);
      if Matches(d, t) {
        out[count] := PAGE * n;
        count := count + 1;
      }
      n := n + 1;
    }
    RowPagesPrefix(r, t, n, Pages(r));
  }

  lemma {:induction false} RowPagesPrefix(r: Regs, t: RowTuple, n: nat, m: nat)
    requires n <= m
    ensures RowPages(r, t, n) <= RowPages(r, t, m)
  {
    hide DecodePa, Matches;
    if n < m {
      RowPagesPrefix(r, t, n, m - 1);
    }
  }

  /** The walk finds exactly the pages that decode to the row. */
  lemma {:induction false} RowPagesExact(r: Regs, t: RowTuple, n: nat, pa: nat)
    ensures pa in RowPages(r, t, n) <==> pa % PAGE == 0 && pa < PAGE * n && Matches(DecodePa(pa, r), t)
  {
    hide DecodePa, Matches;
    if n > 0 {
      RowPagesExact(r, t, n - 1, pa);
      PageBelow(pa, n);
    }
  }

  lemma PageBelow(pa: nat, n: nat)
    requires n > 0
    ensures pa % PAGE == 0 && pa < PAGE * n <==> pa == PAGE * (n - 1) || (pa % PAGE == 0 && pa < PAGE * (n - 1))
  {
  }

  /** It finds them in increasing order, so each once. */
  lemma {:induction false} RowPagesIncrease(r: Regs, t: RowTuple, n: nat)
    ensures forall i :: 0 <= i < |RowPages(r, t, n)| ==> RowPages(r, t, n)[i] < PAGE * n
    ensures forall i, j :: 0 <= i < j < |RowPages(r, t, n)| ==> RowPages(r, t, n)[i] < RowPages(r, t, n)[j]
  {
    hide DecodePa, Matches;
    if n > 0 {
      RowPagesIncrease(r, t, n - 1);
    }
  }

  // --------------------------------------------------------------- agreement

  lemma SameRowBits(r: Regs)
    ensures RowBits(ReadConfig(r)) == TesterDecoder.RowBits(TesterDecoder.ReadConfig(r))
  {
    hide Log2, RowsOf, Bit;
    TesterDecoder.RowBitsClosed(r);
  }

  /** The two decoders agree on every address for every register value: the row width is always in range where
      there is memory, so the branch in which they differ is never taken. */
  lemma DecodersAgree(pa: nat, r: Regs)
    ensures DecodePa(pa, r) == TesterDecoder.DecodePa(pa, r)
    ensures TotalMemory(r) == TesterDecoder.TotalMemory(r)
  {
    hide Log2, Bit, Xor, Parity, And, Pow2, RowBits, TesterDecoder.RowBits;
    SameRowBits(r);
    TesterDecoder.RowBitsClosed(r);
  }
}
