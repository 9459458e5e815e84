/** Whole runs of the system: sessions of brr-entry, boots of the mask shim, reverts and the install tool, in any
    order, over the firmware's variables. */
module BootFlow {
  import opened Common
  import opened Bytes
  import opened Nvram
  import opened Sweep
  import opened VarNames
  import opened LoadOption
  import opened MaskOps
  import opened InstallLaws
  import BadPagesBlob

  datatype Answer = Yes | No | Other

  /** A brr-entry session: the reply to the quick retry, the addresses parsed from the typed line, the reply to
      the confirmation, and which writes the firmware takes. */
  datatype Session = Session(quick: Answer, pages: seq<nat>, confirmed: Answer, pagesOk: bool, stateOk: bool,
                             env: Env, againOk: bool)

  datatype Event =
    | BrrEntry(session: Session)
    | ShimBoot(noMask: bool, answer: Answer, stateOk: bool)
    | Revert(answer: Answer)
    | InstallTool(uninstall: bool, answer: Answer, env: Env)
    | SelfTest(validated: bool, ok: bool)

  const BLOB_MAX: nat := 8 + 4096 * 8

  /** The quick retry is offered for a saved list that is complete and not empty. */
  predicate HasSavedMask(s: Store) {
    match Fetch(s, BadPages(), BLOB_MAX)
    case Found(blob) =>
      |blob| >= 8 && 0 < FromLE(blob[4..8]) <= 4096 && |blob| >= 8 + FromLE(blob[4..8]) * 8
    case _ => false
  }

  /** Installs unless a backup of the boot order shows an install is already there. */
  function AutoInstall(s: Store, e: Env, againOk: bool): Store {
    if OrigBoot() in s.vars then s
    else
      var (t, o) := Install(s, e);
      PutIf(o.Installed? && againOk, t, MaskState(), TrialPending())
  }

  function Enter(s: Store, x: Session): Store {
    if HasSavedMask(s) && x.quick == Yes then
      AutoInstall(PutIf(x.stateOk, s, MaskState(), TrialPending()), x.env, x.againOk)
    else if HasSavedMask(s) && x.quick == Other then s
    else if x.pages == [] || x.confirmed != Yes || !x.pagesOk then s
    else
      var t := Put(s, BadPages(), BadPagesBlob.Encode(x.pages));
      if !x.stateOk then t else AutoInstall(Put(t, MaskState(), TrialPending()), x.env, x.againOk)
  }

  /** A variable read into a text buffer, up to its first NUL. */
  function CString(data: seq<Byte>): (t: seq<Byte>)
    ensures |t| <= |data|
  {
    if data == [] || data[0] == 0 then [] else [data[0]] + CString(data[1..])
  }

  /** Whether the recorded state reads as `text`; it is read into a 64-byte buffer. */
  predicate InState(s: Store, text: seq<Byte>) {
    var state := Fetch(s, MaskState(), 63);
    state.Found? && CString(state.data) == text
  }

  predicate AwaitsConfirmation(s: Store) {
    InState(s, Unconfirmed())
  }

  ghost function Boot(s: Store, noMask: bool, answer: Answer, stateOk: bool): Store {
    if noMask || !AwaitsConfirmation(s) || answer == Other then s
    else if answer == Yes then PutIf(stateOk, s, MaskState(), Confirmed())
    else Uninstall(s)
  }

  /** The verdict the tester's decoder self-test records once its timing test has run. */
  function TestVerdict(validated: bool): (text: seq<Byte>)
    ensures text != []
  {
    if validated then Validated() else Failed()
  }

  ghost function Step(s: Store, ev: Event): Store {
    match ev
    case BrrEntry(x) => Enter(s, x)
    case ShimBoot(noMask, answer, stateOk) => Boot(s, noMask, answer, stateOk)
    case Revert(answer) => if answer == Yes then Uninstall(s) else s
    case InstallTool(uninstall, answer, e) =>
      if answer != Yes then s else if uninstall then Uninstall(s) else Install(s, e).0
    case SelfTest(validated, ok) => PutIf(ok, s, DecoderStatus(), TestVerdict(validated))
  }

  // ------------------------------------------------------------------ programs

  method CheckSavedMask(nv: Nvram) returns (saved: bool)
    ensures saved == HasSavedMask(nv.State())
  {
    var r := nv.GetVariable(BadPages(), BLOB_MAX);
    if !r.Found? || |r.data| < 8 {
      return false;
    }
    var n := FromLE(r.data[4..8]);
    return n > 0 && n <= 4096 && |r.data| >= 8 + n * 8;
  }

  /** The install guard: an 8-byte probe that only asks whether the backup exists. */
  method GuardedInstall(nv: Nvram, e: Env, againOk: bool)
    requires nv.Valid() && AllWellFormed(e.device)
    modifies nv
    ensures nv.Valid() && nv.State() == AutoInstall(old(nv.State()), e, againOk)
  {
    hide Install, TrialPending, Sound;
    var probe := nv.GetVariable(OrigBoot(), 8);
    if probe.NotFound? {
      var o := InstallMaskFull(nv, e);
      if o.Installed? {
        var _ := nv.SetVariable(MaskState(), TrialPending(), againOk);
      }
    }
  }

  method RunBrrEntry(nv: Nvram, x: Session)
    requires nv.Valid() && AllWellFormed(x.env.device)
    modifies nv
    ensures nv.Valid() && nv.State() == Enter(old(nv.State()), x)
  {
    hide HasSavedMask, TrialPending, Sound, AutoInstall;
    var saved := CheckSavedMask(nv);
    if saved {
      if x.quick == Yes {
        var _ := nv.SetVariable(MaskState(), TrialPending(), x.stateOk);
        GuardedInstall(nv, x.env, x.againOk);
        return;
      }
      if x.quick == Other {
        return;
      }
    }
    if |x.pages| == 0 || x.confirmed != Yes {
      return;
    }
    ghost var s := nv.State();
    var blob := BadPagesBlob.WriteBadPages(x.pages);
    assert nv.State() == s;
    assert blob != [] by { BlobNotEmpty(x.pages); }
    var written := nv.SetVariable(BadPages(), blob, x.pagesOk);
    if !written {
      return;
    }
    var stated := nv.SetVariable(MaskState(), TrialPending(), x.stateOk);
    if stated {
      GuardedInstall(nv, x.env, x.againOk);
    }
  }

  lemma BlobNotEmpty(pages: seq<nat>)
    ensures BadPagesBlob.Encode(pages) != []
  {
  }

  /** The string comparison of the shim. */
  method CStringEquals(data: seq<Byte>, text: seq<Byte>) returns (same: bool)
    requires forall i :: 0 <= i < |text| ==> text[i] != 0
    ensures same == (CString(data) == text)
  {
    var i := 0;
    assert data[0..] == data && text[0..] == text;
    while i < |data| && data[i] != 0 && i < |text| && data[i] == text[i]
      invariant i <= |data| && i <= |text|
      invariant (CString(data[i..]) == text[i..]) == (CString(data) == text)
    {
      assert data[i..][1..] == data[i + 1..] && text[i..] == [text[i]] + text[i + 1..];
      i := i + 1;
    }
    assert i < |data| ==> data[i..][0] == data[i];
    assert i < |text| ==> text[i..][0] == text[i];
    return (i == |data| || data[i] == 0) && i == |text|;
  }

  /** The state branch: whether to skip masking, and whether a chip trial is pending. */
  method HandleNvramState(nv: Nvram, answer: Answer, stateOk: bool) returns (skip: bool, forceChip: bool)
    requires nv.Valid()
    modifies nv
    ensures nv.Valid() && nv.State() == Boot(old(nv.State()), false, answer, stateOk)
    ensures skip == (AwaitsConfirmation(old(nv.State())) && answer == No)
    ensures forceChip == InState(old(nv.State()), TrialChip())
  {
    hide Uninstall, Sound, CString;
    skip, forceChip := false, false;
    var r := nv.GetVariable(MaskState(), 63);
    if !r.Found? {
      return;
    }
    forceChip := CStringEquals(r.data, TrialChip());
    if forceChip {
      return;
    }
    var waiting := CStringEquals(r.data, Unconfirmed());
    if waiting {
      if answer == Yes {
        var _ := nv.SetVariable(MaskState(), Confirmed(), stateOk);
      } else if answer == No {
        UninstallMaskFull(nv);
        skip := true;
      }
    }
  }

  method RunRevert(nv: Nvram, answer: Answer)
    requires nv.Valid()
    modifies nv
    ensures nv.Valid() && nv.State() == Step(old(nv.State()), Revert(answer))
  {
    if answer == Yes {
      UninstallMaskFull(nv);
    }
  }

  /** The end of the self-test. */
  method RecordVerdict(nv: Nvram, validated: bool, ok: bool)
    requires nv.Valid()
    modifies nv
    ensures nv.Valid() && nv.State() == Step(old(nv.State()), SelfTest(validated, ok))
  {
    var text := if validated then Validated() else Failed();
    var _ := nv.SetVariable(DecoderStatus(), text, ok);
  }
}
