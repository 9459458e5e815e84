/** The memory controller's registers, their decoded configuration, and bit arithmetic on addresses. */
module Imc {

  function Pow2(n: nat): (p: nat)
    ensures p > 0
  {
    if n == 0 then 1 else 2 * Pow2(n - 1)
  }

  function Bit(v: nat, n: nat): (b: nat)
    ensures b < 2
  {
    (v / Pow2(n)) % 2
  }

  function Xor(a: nat, b: nat): (c: nat)
    ensures c < 2
  {
    (a + b) % 2
  }

  /** Bitwise and. */
  function And(a: nat, b: nat): nat {
    if a == 0 || b == 0 then 0 else (a % 2) * (b % 2) + 2 * And(a / 2, b / 2)
  }

  /** Whether an odd number of bits is set. */
  function Parity(v: nat): (p: nat)
    ensures p < 2
  {
    if v == 0 then 0 else Xor(v % 2, Parity(v / 2))
  }

  /** Position of the highest set bit; zero for zero. */
  function Log2(v: nat): nat {
    if v <= 1 then 0 else 1 + Log2(v / 2)
  }

  /** The raw 32-bit register values that decoding depends on. */
  datatype Regs = Regs(madDimm0: nat, madDimm1: nat, madIntra0: nat, madIntra1: nat, chanHash: nat)

  datatype Dimm = Dimm(populated: bool, ranks: nat, width: nat, sizeMb: nat)
  datatype Channel = Channel(populated: bool, dimm0: Dimm, dimm1: Dimm)
  datatype Config = Config(ch0: Channel, ch1: Channel, intra0: nat, intra1: nat, hash: nat)

  function Populated(mc: Config): nat {
    (if mc.ch0.populated then 1 else 0) + (if mc.ch1.populated then 1 else 0)
  }

  function ChannelOf(mc: Config, c: nat): Channel {
    if c == 0 then mc.ch0 else mc.ch1
  }

  datatype Rank = Rank(value: nat, valid: bool)

  datatype Decoded = Decoded(valid: bool, channel: nat, rank: Rank, bankGroup: nat, bank: nat, row: nat)

  /** What a row is recorded by. */
  datatype RowTuple = RowTuple(channel: nat, rank: nat, bankGroup: nat, bank: nat, row: nat)

  /** The filter of the row walk; the rank only filters where it is known. */
  predicate Matches(d: Decoded, t: RowTuple) {
    && d.valid && d.channel == t.channel && (d.rank.valid ==> d.rank.value == t.rank)
    && d.bankGroup == t.bankGroup && d.bank == t.bank && d.row == t.row
  }

  const GIB: nat := 0x4000_0000
  const MIB_BYTES: nat := 0x10_0000

  /** Bytes per chip, per chip row, per sixteen banks. */
  function RowsOf(bytes: nat, chipsPerRank: nat, ranks: nat, bytesPerRow: nat): nat
    requires chipsPerRank > 0 && ranks > 0 && bytesPerRow > 0
  {
    var chipBytes := bytes / (chipsPerRank * ranks);
    chipBytes / bytesPerRow / 16
  }

  // --------------------------------------------------------------- the loops

  lemma XorAssoc(a: nat, b: nat, c: nat)
    ensures Xor(Xor(a, b), c) == Xor(a, Xor(b, c))
    ensures a < 2 ==> Xor(a, 0) == a && Xor(0, a) == a
  {
  }

  method ParityLoop(v: nat) returns (p: nat)
    ensures p == Parity(v)
  {
    hide Xor;
    p := 0;
    var bits := v;
    XorAssoc(Parity(v), 0, 0);
    while bits != 0
      invariant p < 2 && Xor(p, Parity(bits)) == Parity(v)
    {
      XorAssoc(p, bits % 2, Parity(bits / 2));
      p := Xor(p, bits % 2);
      bits := bits / 2;
    }
    XorAssoc(p, 0, 0);
  }

  method Log2Loop(n: nat) returns (bits: nat)
    ensures bits == Log2(n)
  {
    bits := 0;
    var v := n;
    while v > 1
      invariant bits + Log2(v) == Log2(n)
    {
      v := v / 2;
      bits := bits + 1;
    }
  }

  // --------------------------------------------------------- arithmetic laws

  lemma {:induction false} Log2Bounds(v: nat)
    requires v > 0
    ensures Pow2(Log2(v)) <= v < 2 * Pow2(Log2(v))
  {
    if v > 1 {
      Log2Bounds(v / 2);
    }
  }

  lemma {:induction false} Log2OfShifted(v: nat, k: nat)
    requires v > 0
    ensures Log2(v * Pow2(k)) == Log2(v) + k
  {
    if k > 0 {
      Log2OfShifted(v, k - 1);
      assert v * Pow2(k) == 2 * (v * Pow2(k - 1));
      assert v * Pow2(k - 1) >= 1;
    }
  }

  lemma {:induction false} Pow2Add(a: nat, b: nat)
    ensures Pow2(a + b) == Pow2(a) * Pow2(b)
  {
    if a > 0 {
      Pow2Add(a - 1, b);
      assert Pow2(a + b) == 2 * (Pow2(a - 1) * Pow2(b));
    }
  }

  lemma {:induction false} Pow2Monotone(a: nat, b: nat)
    requires a <= b
    ensures Pow2(a) <= Pow2(b)
  {
    if a < b {
      Pow2Monotone(a, b - 1);
    }
  }
}
