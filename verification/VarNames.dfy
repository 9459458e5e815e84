/** The variables the mask programs share, by key. */
module VarNames {
  import opened Common
  import opened Bytes
  import opened Nvram
  import opened AddressLines
  import opened AddressDump

  function OurKey(name: string): (k: Key)
    requires |name| <= NAME_MAX
    ensures k.guid == Brr && |k.name| <= NAME_MAX
  {
    Key(Brr, name)
  }

  function MaskState(): (k: Key)
    ensures k.guid == Brr && |k.name| == 12 && k.name[0] == 'B'
  {
    OurKey("BrrMaskState")
  }

  function BadPages(): (k: Key)
    ensures k.guid == Brr && |k.name| == 11 && k.name[4] == 'a' && k.name[6] == 'P'
  {
    OurKey("BrrBadPages")
  }

  function OrigBoot(): (k: Key)
    ensures k.guid == Brr && |k.name| == 18
  {
    OurKey("BrrBackupBootOrder")
  }

  function LegacyBoot(): (k: Key)
    ensures k.guid == Brr && |k.name| == 26
  {
    OurKey("A1990MaskOriginalBootOrder")
  }

  function BootEntries(): (k: Key)
    ensures k.guid == Brr && |k.name| == 20
  {
    OurKey("BrrBackupBootEntries")
  }

  function BootSlot(): (k: Key)
    ensures k.guid == Brr && |k.name| == 11 && k.name[4] == 'o'
  {
    OurKey("BrrBootSlot")
  }

  function BadChips(): (k: Key)
    ensures k.guid == Brr && |k.name| == 11 && k.name[4] == 'a' && k.name[6] == 'C'
  {
    OurKey("BrrBadChips")
  }

  function BadRows(): (k: Key)
    ensures k.guid == Brr && |k.name| == 10
  {
    OurKey("BrrBadRows")
  }

  function LegacyRows(): (k: Key)
    ensures k.guid == Brr && |k.name| == 12 && k.name[0] == 'A'
  {
    OurKey("A1990BadRows")
  }

  function DecoderStatus(): (k: Key)
    ensures k.guid == Brr && |k.name| == 16
  {
    OurKey("BrrDecoderStatus")
  }

  function BootOrder(): (k: Key)
    ensures k.guid == Global && |k.name| == 9
  {
    Key(Global, "BootOrder")
  }

  /** The names uninstall deletes one by one. */
  function Known(): seq<Key> {
    [MaskState(), BadPages(), BadChips(), OrigBoot(), LegacyBoot(), BootEntries(), BootSlot(),
     OurKey("BrrMaskProbe"), BadRows(), DecoderStatus(), LegacyRows()]
  }

  /** The bytes of a state name, without a terminator. */
  function AsciiBytes(s: string): (b: seq<Byte>)
    requires forall i :: 0 <= i < |s| ==> 0 as char < s[i] < 128 as char
    ensures |b| == |s| && forall i :: 0 <= i < |b| ==> b[i] != 0
  {
    seq(|s|, i requires 0 <= i < |s| => s[i] as nat)
  }

  function TrialPending(): (b: seq<Byte>)
    ensures |b| == 18 && b[14] == 'P' as nat && forall i :: 0 <= i < |b| ==> b[i] != 0
  {
    AsciiBytes("TRIAL_PENDING_PAGE")
  }

  function Unconfirmed(): (b: seq<Byte>)
    ensures |b| == 21 && forall i :: 0 <= i < |b| ==> b[i] != 0
  {
    AsciiBytes("PERMANENT_UNCONFIRMED")
  }

  function Confirmed(): (b: seq<Byte>)
    ensures |b| == 19 && forall i :: 0 <= i < |b| ==> b[i] != 0
  {
    AsciiBytes("PERMANENT_CONFIRMED")
  }

  function TrialChip(): (b: seq<Byte>)
    ensures |b| == 18 && b[14] == 'C' as nat && forall i :: 0 <= i < |b| ==> b[i] != 0
  {
    AsciiBytes("TRIAL_PENDING_CHIP")
  }

  /** Verdicts of the decoder self-test. */
  function Validated(): (b: seq<Byte>)
    ensures |b| == 9 && forall i :: 0 <= i < |b| ==> b[i] != 0
  {
    AsciiBytes("VALIDATED")
  }

  function Failed(): (b: seq<Byte>)
    ensures |b| == 6 && forall i :: 0 <= i < |b| ==> b[i] != 0
  {
    AsciiBytes("FAILED")
  }

  type Slot = v: nat | v < 0x1_0000

  /** Four lower-case digits, the installer's spelling. */
  function Hex4(v: Slot): string {
    [HexDigit(v / 4096), HexDigit(v / 256 % 16), HexDigit(v / 16 % 16), HexDigit(v % 16)]
  }

  function UpperDigit(n: nat): char
    requires n < 16
  {
    if n < 10 then '0' + n as char else 'A' + (n - 10) as char
  }

  /** Four upper-case digits, the chain-loader's spelling. */
  function UpperHex4(v: Slot): string {
    [UpperDigit(v / 4096), UpperDigit(v / 256 % 16), UpperDigit(v / 16 % 16), UpperDigit(v % 16)]
  }

  function BootKey(slot: Slot): (k: Key)
    ensures k.guid == Global && |k.name| == 8
  {
    Key(Global, "Boot" + Hex4(slot))
  }

  /** The key the chain-loader looks a slot up by. */
  function LoaderKey(slot: Slot): Key {
    Key(Global, "Boot" + UpperHex4(slot))
  }

  lemma KnownKeys()
    ensures forall k :: k in Known() ==> k.guid == Brr && |k.name| <= NAME_MAX
    ensures MaskState() in Known() && BadPages() in Known() && OrigBoot() in Known() && LegacyBoot() in Known()
    ensures BootEntries() in Known() && BootSlot() in Known() && DecoderStatus() in Known()
  {
    hide OurKey, MaskState, BadPages, BadChips, OrigBoot, LegacyBoot, BootEntries, BootSlot, BadRows, LegacyRows,
      DecoderStatus;
    var k := Known();
    assert k[0] == MaskState() && k[1] == BadPages() && k[3] == OrigBoot() && k[4] == LegacyBoot();
    assert k[5] == BootEntries() && k[6] == BootSlot() && k[9] == DecoderStatus();
  }

  lemma HexValues(v: Slot)
    ensures |Hex4(v)| == 4 && forall i :: 0 <= i < 4 ==> IsHex(Hex4(v)[i])
    ensures v == HexValue(Hex4(v)[0]) * 4096 + HexValue(Hex4(v)[1]) * 256
               + HexValue(Hex4(v)[2]) * 16 + HexValue(Hex4(v)[3])
  {
    hide HexDigit, HexValue, IsHex;
    HexSum(v);
  }

  lemma HexSum(v: Slot)
    ensures v == v / 4096 * 4096 + v / 256 % 16 * 256 + v / 16 % 16 * 16 + v % 16
    ensures v / 4096 < 16
  {
    var a, b := v / 16, v / 256;
    assert a / 16 == b && b / 16 == v / 4096;
    assert v == a * 16 + v % 16 && a == b * 16 + a % 16 && b == v / 4096 * 16 + b % 16;
  }

  /** Different slots have different variables. */
  lemma BootKeysDiffer(a: Slot, b: Slot)
    requires BootKey(a) == BootKey(b)
    ensures a == b
  {
    HexValues(a);
    HexValues(b);
    assert BootKey(a).name[4..] == Hex4(a) && BootKey(b).name[4..] == Hex4(b);
  }

  /** The two spellings name the same variable exactly for slots without a letter digit. */
  lemma SpellingsAgreeIff(v: Slot)
    ensures BootKey(v) == LoaderKey(v)
       <==> v / 4096 < 10 && v / 256 % 16 < 10 && v / 16 % 16 < 10 && v % 16 < 10
  {
    assert BootKey(v).name[4..] == Hex4(v) && LoaderKey(v).name[4..] == UpperHex4(v);
    assert BootKey(v) == LoaderKey(v) <==> Hex4(v) == UpperHex4(v);
    if Hex4(v) == UpperHex4(v) {
      assert Hex4(v)[0] == UpperHex4(v)[0] && Hex4(v)[1] == UpperHex4(v)[1];
      assert Hex4(v)[2] == UpperHex4(v)[2] && Hex4(v)[3] == UpperHex4(v)[3];
    }
  }
}
