/** The tester's address decoder for the Coffee Lake memory controller. */
module TesterDecoder {
  import opened Common
  import opened Imc

  /** Size, ranks and width of both slots of a channel from its MAD_DIMM register. */
  function DecodeMadDimm(raw: nat): Channel {
    var sizeA, sizeB := raw % 64, (raw / 0x1_0000) % 64;
    var a := Dimm(sizeA > 0, Pow2((raw / 0x100) % 4), if Bit(raw, 10) == 1 then 16 else 8, sizeA * 1024);
    var b := Dimm(sizeB > 0, Pow2((raw / 0x1000) % 4), if Bit(raw, 11) == 1 then 16 else 8, sizeB * 1024);
    Channel(a.populated || b.populated, a, b)
  }

  /** The configuration; it is valid when some channel is populated. */
  function ReadConfig(r: Regs): Config {
    Config(DecodeMadDimm(r.madDimm0), DecodeMadDimm(r.madDimm1), r.madIntra0, r.madIntra1, r.chanHash)
  }

  function DecodeChannel(pa: nat, mc: Config): (c: nat)
    ensures c < 2
  {
    if Populated(mc) == 1 then if mc.ch0.populated then 0 else 1
    else if mc.hash % 2 == 0 then (pa / 64) % 2
    else Parity(And(pa / 64, (mc.hash / 64) % 0x4000))
  }

  function MaxRanks(ch: Channel): nat {
    var m := if ch.dimm0.populated then ch.dimm0.ranks else 0;
    if ch.dimm1.populated && ch.dimm1.ranks > m then ch.dimm1.ranks else m
  }

  function DecodeRank(pa: nat, c: nat, mc: Config): Rank {
    if MaxRanks(ChannelOf(mc, c)) <= 1 then Rank(0, true)
    else
      var intra := if c == 0 then mc.intra0 else mc.intra1;
      var rankBit := intra % 32;
      if Bit(intra, 8) == 0 || rankBit < 6 || rankBit > 40 then Rank(0, false)
      else Rank(Bit(pa, rankBit), true)
  }

  /** The first populated slot, channel by channel. */
  function FirstDimm(mc: Config): Option<Dimm> {
    if mc.ch0.dimm0.populated then Some(mc.ch0.dimm0)
    else if mc.ch0.dimm1.populated then Some(mc.ch0.dimm1)
    else if mc.ch1.dimm0.populated then Some(mc.ch1.dimm0)
    else if mc.ch1.dimm1.populated then Some(mc.ch1.dimm1)
    else None
  }

  function ChipsPerRank(width: nat): (n: nat)
    requires width == 8 || width == 16
    ensures n > 0
  {
    if width == 8 then 64 / 8 else 64 / 16
  }

  function BytesPerRow(width: nat): nat {
    1024 * (width / 8)
  }

  function RowsPerBank(d: Dimm): nat
    requires (d.width == 8 || d.width == 16) && d.ranks > 0
  {
    RowsOf(d.sizeMb * 1024 * 1024, ChipsPerRank(d.width), d.ranks, BytesPerRow(d.width))
  }

  function RowBits(mc: Config): nat {
    match FirstDimm(mc)
    case None => 0
    case Some(d) => if (d.width == 8 || d.width == 16) && d.ranks > 0 then Log2(RowsPerBank(d)) else 0
  }

  /** The row keeps its initial zero when the width is out of range. */
  function DecodeRow(pa: nat, bits: nat): nat {
    if 0 < bits <= 20 then (pa / 0x4_0000) % Pow2(bits) else 0
  }

  function BankGroup(pa: nat): nat {
    Xor(Bit(pa, 7), Bit(pa, 14)) +
    2 * Xor(Xor(Xor(Xor(Xor(Bit(pa, 8), Bit(pa, 9)), Bit(pa, 12)), Bit(pa, 13)), Bit(pa, 18)), Bit(pa, 19))
  }

  function Bank(pa: nat): nat {
    Xor(Bit(pa, 15), Bit(pa, 18)) + 2 * Xor(Bit(pa, 16), Bit(pa, 19))
  }

  function DecodePa(pa: nat, r: Regs): Decoded {
    var mc := ReadConfig(r);
    if Populated(mc) == 0 then Decoded(false, 0, Rank(0, false), 0, 0, 0)
    else
      var c := DecodeChannel(pa, mc);
      Decoded(true, c, DecodeRank(pa, c, mc), BankGroup(pa), Bank(pa), DecodeRow(pa, RowBits(mc)))
  }

  function DimmBytes(d: Dimm): nat {
    if d.populated then d.sizeMb * MIB_BYTES else 0
  }

  function TotalMemory(r: Regs): nat {
    var mc := ReadConfig(r);
    DimmBytes(mc.ch0.dimm0) + DimmBytes(mc.ch0.dimm1) + DimmBytes(mc.ch1.dimm0) + DimmBytes(mc.ch1.dimm1)
  }

  // ----------------------------------------------------------------- methods

  method ChannelLoop(pa: nat, mc: Config) returns (c: nat)
    ensures c == DecodeChannel(pa, mc)
  {
    if Populated(mc) == 1 {
      return if mc.ch0.populated then 0 else 1;
    }
    if mc.hash % 2 == 0 {
      return (pa / 64) % 2;
    }
    c := ParityLoop(And(pa / 64, (mc.hash / 64) % 0x4000));
  }

  method RowBitsLoop(mc: Config) returns (bits: nat)
    ensures bits == RowBits(mc)
  {
    var first := FirstDimm(mc);
    if first.None? || !((first.value.width == 8 || first.value.width == 16) && first.value.ranks > 0) {
      return 0;
    }
    var rows := RowsPerBank(first.value);
    if rows == 0 {
      return 0;
    }
    bits := Log2Loop(rows);
  }

  // ------------------------------------------------------------- closed form

  function SizeGib(raw: nat, slot: nat): nat {
    if slot == 0 then raw % 64 else (raw / 0x1_0000) % 64
  }

  function RankCode(raw: nat, slot: nat): (c: nat)
    ensures c < 4
  {
    if slot == 0 then (raw / 0x100) % 4 else (raw / 0x1000) % 4
  }

  function SlotOf(ch: Channel, slot: nat): Dimm {
    if slot == 0 then ch.dimm0 else ch.dimm1
  }

  /** Register and slot of the first populated slot. */
  function FirstSlot(r: Regs): Option<(nat, nat)> {
    if SizeGib(r.madDimm0, 0) > 0 then Some((r.madDimm0, 0))
    else if SizeGib(r.madDimm0, 1) > 0 then Some((r.madDimm0, 1))
    else if SizeGib(r.madDimm1, 0) > 0 then Some((r.madDimm1, 0))
    else if SizeGib(r.madDimm1, 1) > 0 then Some((r.madDimm1, 1))
    else None
  }

  lemma SmallPowers()
    ensures Pow2(0) == 1 && Pow2(1) == 2 && Pow2(2) == 4 && Pow2(3) == 8
    ensures Pow2(10) == 1024 && Pow2(11) == 2048 && Pow2(12) == 4096 && Pow2(13) == 8192
  {
    assert Pow2(5) == 32 by { assert Pow2(4) == 16; }
    assert Pow2(7) == 128 by { assert Pow2(6) == 64; }
    assert Pow2(9) == 512 by { assert Pow2(8) == 256; }
    assert Pow2(11) == 2048 && Pow2(10) == 1024;
    assert Pow2(13) == 8192 && Pow2(12) == 4096;
  }

  lemma RowsOfClosed(g: nat, code: nat)
    requires code < 4
    ensures RowsOf(g * GIB, 8, Pow2(code), 1024) == RowsOf(g * GIB, 4, Pow2(code), 2048) == g * Pow2(13 - code)
  {
    SmallPowers();
    match code {
      case 0 => assert RowsOf(g * GIB, 8, 1, 1024) == RowsOf(g * GIB, 4, 1, 2048) == g * 8192;
      case 1 => assert RowsOf(g * GIB, 8, 2, 1024) == RowsOf(g * GIB, 4, 2, 2048) == g * 4096;
      case 2 => assert RowsOf(g * GIB, 8, 4, 1024) == RowsOf(g * GIB, 4, 4, 2048) == g * 2048;
      case 3 => assert RowsOf(g * GIB, 8, 8, 1024) == RowsOf(g * GIB, 4, 8, 2048) == g * 1024;
    }
  }

  /** For both chip widths the rows of a bank are the size in GiB times 2^(13 - rank code). */
  lemma RowsPerBankClosed(raw: nat, slot: nat)
    requires slot < 2
    ensures var d := SlotOf(DecodeMadDimm(raw), slot);
            && (d.width == 8 || d.width == 16) && d.ranks > 0
            && RowsPerBank(d) == SizeGib(raw, slot) * Pow2(13 - RankCode(raw, slot))
  {
    hide RowsOf, Bit, Pow2;
    RowsOfClosed(SizeGib(raw, slot), RankCode(raw, slot));
  }

  lemma {:induction false} Log2Small(g: nat)
    requires 0 < g < 64
    ensures Log2(g) <= 5
  {
    assert Pow2(6) == 64 by { assert Pow2(3) == 8; }
    Log2Bounds(g);
    if Log2(g) >= 6 {
      Pow2Monotone(6, Log2(g));
    }
  }

  /** With any populated slot the row width is 13 + log2 of its size in GiB - its rank code, for both chip
      widths, and always between 10 and 18. */
  lemma RowBitsClosed(r: Regs)
    ensures Populated(ReadConfig(r)) > 0 <==> FirstSlot(r).Some?
    ensures match FirstSlot(r)
            case None => RowBits(ReadConfig(r)) == 0
            case Some((raw, slot)) =>
              && RowBits(ReadConfig(r)) == 13 + Log2(SizeGib(raw, slot)) - RankCode(raw, slot)
              && 10 <= RowBits(ReadConfig(r)) <= 18
  {
    hide RowsOf, Bit, Pow2, Log2, RowsPerBank;
    if FirstSlot(r).Some? {
      var (raw, slot) := FirstSlot(r).value;
      var g, code := SizeGib(raw, slot), RankCode(raw, slot);
      RowsPerBankClosed(raw, slot);
      Log2OfShifted(g, 13 - code);
      Log2Small(g);
      assert FirstDimm(ReadConfig(r)) == Some(SlotOf(DecodeMadDimm(raw), slot));
    }
  }
}
