/** Which record of bad memory the shim masks by: recorded rows, recorded chips, or the saved page list. */
module MaskMode {
  import opened Common
  import opened Bytes
  import opened Nvram
  import opened VarNames
  import opened MaskOps
  import opened InstallLaws
  import opened BootFlow
  import opened BootLaws
  import BadPagesBlob
  import ChipList
  import RowMode
  import Imc

  const ROWS_MAX: nat := 8 + 256 * 8
  const MAX_CHIPS: nat := 32

  /** Row and page variables an older tester may have left under other names. */
  function AppleRows(): Key {
    Key(Vendor(1), "BrrBadRows")
  }

  function LegacyPages(): (k: Key)
    ensures k.guid == Brr && |k.name| == 13
  {
    OurKey("A1990BadPages")
  }

  function LegacyChips(): (k: Key)
    ensures k.guid == Brr && |k.name| == 13
  {
    OurKey("A1990BadChips")
  }

  function FetchOr(r: Read, s: Store, k: Key, cap: nat): Read {
    if r.Found? then r else Fetch(s, k, cap)
  }

  function SavedRows(s: Store): seq<Imc.RowTuple> {
    RowsOf(FetchOr(FetchOr(Fetch(s, BadRows(), ROWS_MAX), s, AppleRows(), ROWS_MAX), s, LegacyRows(), ROWS_MAX))
  }

  function RowsOf(r: Read): seq<Imc.RowTuple> {
    if r.Found? then RowMode.ParseRows(r.data) else []
  }

  function SavedChips(s: Store): seq<string> {
    ChipsOf(FetchOr(Fetch(s, BadChips(), 255), s, LegacyChips(), 255))
  }

  function ChipsOf(r: Read): seq<string> {
    if r.Found? then Take(ChipList.Split(Text(CString(r.data)), 0), MAX_CHIPS) else []
  }

  function Text(bytes: seq<Byte>): string {
    seq(|bytes|, i requires 0 <= i < |bytes| => bytes[i] as char)
  }

  /** The page list the shim merges; nothing for an absent or malformed variable. */
  function SavedPages(s: Store): Option<seq<nat>> {
    var r := FetchOr(Fetch(s, BadPages(), BLOB_MAX), s, LegacyPages(), BLOB_MAX);
    if r.Found? then BadPagesBlob.Decode(r.data) else None
  }

  predicate DecoderIs(s: Store, text: seq<Byte>) {
    var r := Fetch(s, DecoderStatus(), 31);
    r.Found? && CString(r.data) == text
  }

  /** `Nothing` is page mode with the page list passed over, as a pending chip trial asks for. */
  datatype Mode = Unmasked | ByRow | ByChip | ByPage | Nothing

  predicate Declined(s: Store, noMask: bool, answer: Answer) {
    noMask || (AwaitsConfirmation(s) && answer == No)
  }

  function ModeOf(s: Store, noMask: bool, answer: Answer): Mode {
    var force := InState(s, TrialChip());
    if Declined(s, noMask, answer) then Unmasked
    else if DecoderIs(s, Validated()) && SavedRows(s) != [] then ByRow
    else if DecoderIs(s, Failed()) || (force && !DecoderIs(s, Validated())) then
      if !force && SavedChips(s) == [] then ByPage else ByChip
    else if force then Nothing
    else ByPage
  }

  // ----------------------------------------------------------------- programs

  method ReadDecoderStatus(nv: Nvram, text: seq<Byte>) returns (same: bool)
    requires forall i :: 0 <= i < |text| ==> text[i] != 0
    ensures same == DecoderIs(nv.State(), text)
  {
    hide CString;
    var r := nv.GetVariable(DecoderStatus(), 31);
    if !r.Found? {
      return false;
    }
    same := CStringEquals(r.data, text);
  }

  method ReadBadRows(nv: Nvram, rows: array<Imc.RowTuple>) returns (n: nat)
    requires rows.Length == 256
    modifies rows
    ensures n <= 256 && rows[..n] == Take(SavedRows(nv.State()), 256)
  {
    hide RowMode.ParseRows;
    var r := nv.GetVariable(BadRows(), ROWS_MAX);
    if !r.Found? {
      r := nv.GetVariable(AppleRows(), ROWS_MAX);
    }
    if !r.Found? {
      r := nv.GetVariable(LegacyRows(), ROWS_MAX);
    }
    if !r.Found? {
      return 0;
    }
    n := RowMode.ParseRowsBlob(r.data, rows);
  }

  method ReadBadChips(nv: Nvram, chips: array<string>) returns (n: nat)
    requires chips.Length == MAX_CHIPS
    modifies chips
    ensures n <= MAX_CHIPS && chips[..n] == SavedChips(nv.State())
  {
    hide ChipList.Split, CString;
    var r := nv.GetVariable(BadChips(), 255);
    if !r.Found? {
      r := nv.GetVariable(LegacyChips(), 255);
    }
    if !r.Found? {
      return 0;
    }
    n := ChipList.ReadChips(Text(CString(r.data)), chips);
  }

  /** The shim's state branch followed by its choice of what to mask by. */
  method ChooseMode(nv: Nvram, noMask: bool, answer: Answer, stateOk: bool) returns (mode: Mode)
    requires nv.Valid()
    modifies nv
    ensures nv.Valid() && nv.State() == Boot(old(nv.State()), noMask, answer, stateOk)
    ensures mode == ModeOf(old(nv.State()), noMask, answer)
  {
    hide Boot, SavedRows, SavedChips, DecoderIs, InState, Sound;
    ghost var s := nv.State();
    if noMask {
      assert Boot(s, noMask, answer, stateOk) == s by { NoMaskBoot(s, answer, stateOk); }
      return Unmasked;
    }
    var skip, force := HandleNvramState(nv, answer, stateOk);
    if skip {
      return Unmasked;
    }
    RecordsUntouched(s, answer, stateOk);
    ghost var t := nv.State();
    var validated := ReadDecoderStatus(nv, Validated());
    var failed := ReadDecoderStatus(nv, Failed());
    var rows := new Imc.RowTuple[256](_ => Imc.RowTuple(0, 0, 0, 0, 0));
    assert nv.State() == t;
    var n := ReadBadRows(nv, rows);
    assert n > 0 <==> SavedRows(s) != [];
    if validated && n > 0 {
      return ByRow;
    }
    if failed || (force && !validated) {
      var chips := new string[MAX_CHIPS](_ => "");
      assert nv.State() == t;
      var c := ReadBadChips(nv, chips);
      assert c > 0 <==> SavedChips(s) != [];
      if !force && c == 0 {
        return ByPage;
      }
      return ByChip;
    }
    mode := if force then Nothing else ByPage;
  }

  lemma NoMaskBoot(s: Store, answer: Answer, stateOk: bool)
    ensures Boot(s, true, answer, stateOk) == s
  {
  }

  /** Confirming the installation changes no record of bad memory. */
  lemma RecordsUntouched(s: Store, answer: Answer, stateOk: bool)
    requires !(AwaitsConfirmation(s) && answer == No)
    ensures var t := Boot(s, false, answer, stateOk);
            && SavedRows(t) == SavedRows(s) && SavedChips(t) == SavedChips(s)
            && (forall text :: DecoderIs(t, text) == DecoderIs(s, text))
  {
    hide MaskState, BadRows, LegacyRows, BadChips, LegacyChips, DecoderStatus, Put, Fetch, RowMode.ParseRows,
      ChipList.Split, CString, InState;
    PutElsewhere(s, MaskState(), Confirmed());
  }

  // ------------------------------------------------------------ what is used

  /** A boot masks by the saved page list when it is not declined, no chip trial is pending, and neither a validated
      decoder has rows nor a failed one has chips; only then. */
  lemma PagesUsedIff(s: Store, noMask: bool, answer: Answer)
    ensures ModeOf(s, noMask, answer) == ByPage
       <==> && !Declined(s, noMask, answer) && !InState(s, TrialChip())
            && !(DecoderIs(s, Validated()) && SavedRows(s) != [])
            && !(DecoderIs(s, Failed()) && SavedChips(s) != [])
  {
    hide SavedRows, SavedChips, InState, CString, Validated, Failed;
  }

  lemma {:induction false} CStringWhole(text: seq<Byte>)
    requires forall i :: 0 <= i < |text| ==> text[i] != 0
    ensures CString(text) == text
  {
    if text != [] {
      CStringWhole(text[1..]);
    }
  }

  /** The variables rows and chips are read from. */
  function Records(): set<Key> {
    {BadRows(), AppleRows(), LegacyRows(), BadChips(), LegacyChips()}
  }

  /** No chip trial is pending and no variable yields rows or chips. */
  predicate PageReady(s: Store) {
    && !InState(s, TrialChip())
    && RowsOf(Fetch(s, BadRows(), ROWS_MAX)) == [] && RowsOf(Fetch(s, AppleRows(), ROWS_MAX)) == []
    && RowsOf(Fetch(s, LegacyRows(), ROWS_MAX)) == []
    && ChipsOf(Fetch(s, BadChips(), 255)) == [] && ChipsOf(Fetch(s, LegacyChips(), 255)) == []
  }

  /** Then the page list decides, whatever the decoder's verdict. */
  lemma ReadyByPage(s: Store, answer: Answer)
    requires PageReady(s) && !Declined(s, false, answer)
    ensures ModeOf(s, false, answer) == ByPage
  {
    hide RowsOf, ChipsOf, InState, Declined, DecoderIs, Validated, Failed, TrialChip;
    PagesUsedIff(s, false, answer);
  }

  /** What a step can do to the state and to the records. */
  ghost predicate StepsTo(s: Store, t: Store) {
    && (forall k :: k in Records() ==> Lookup(t, k) in {Lookup(s, k), None})
    && Lookup(t, MaskState())
       in {Lookup(s, MaskState()), None, Some(TrialPending()), Some(Unconfirmed()), Some(Confirmed())}
  }

  lemma SameOrGone(s: Store, t: Store, k: Key, cap: nat)
    requires Lookup(t, k) in {Lookup(s, k), None}
    ensures Fetch(t, k, cap) in {Fetch(s, k, cap), NotFound}
  {
  }

  lemma StepsToReady(s: Store, t: Store)
    requires PageReady(s) && StepsTo(s, t)
    ensures PageReady(t)
  {
    hide CString, TrialChip, TrialPending, Unconfirmed, Confirmed, MaskState, BadRows, AppleRows, LegacyRows, BadChips,
      LegacyChips, RowMode.ParseRows, ChipList.Split, Fetch, Lookup, InState;
    StateNotChip(s, t);
    SameOrGone(s, t, BadRows(), ROWS_MAX);
    SameOrGone(s, t, AppleRows(), ROWS_MAX);
    SameOrGone(s, t, LegacyRows(), ROWS_MAX);
    SameOrGone(s, t, BadChips(), 255);
    SameOrGone(s, t, LegacyChips(), 255);
  }

  lemma StateNotChip(s: Store, t: Store)
    requires !InState(s, TrialChip())
    requires Lookup(t, MaskState())
             in {Lookup(s, MaskState()), None, Some(TrialPending()), Some(Unconfirmed()), Some(Confirmed())}
    ensures !InState(t, TrialChip())
  {
    hide CString, TrialChip, TrialPending, Unconfirmed, Confirmed, MaskState;
    CStringWhole(TrialPending());
    CStringWhole(Unconfirmed());
    CStringWhole(Confirmed());
    assert TrialPending()[14] != TrialChip()[14];
  }

  /** A record is none of the variables a program writes. */
  lemma RecordsApart(k: Key)
    requires k in Records()
    ensures k.guid != Global
    ensures k !in {OrigBoot(), BootEntries(), BootSlot(), MaskState(), BadPages(), DecoderStatus()}
  {
    hide BadRows, LegacyRows, BadChips, LegacyChips, OrigBoot, BootEntries, BootSlot, MaskState, BadPages,
      DecoderStatus;
  }

  lemma InstallStates(s: Store, e: Env)
    ensures Lookup(Install(s, e).0, MaskState())
         == if Install(s, e).1.Installed? && e.stateOk then Some(Unconfirmed()) else Lookup(s, MaskState())
  {
    hide OrigBoot, BootEntries, BootSlot, MaskState, BootOrder, BootKey, EntryData, Unconfirmed, LE, Backed, Unordered,
      Rollback, Put, PutIf, CurrentOrder, FreeSlot;
    if !Install(s, e).1.Installed? {
      InstallFailureExact(s, e);
    } else {
      var b, slot := Backed(s, e), Install(s, e).1.slot;
      BackedVars(s, e);
      SameElsewhere(b, s, {OrigBoot(), BootEntries()}, MaskState());
      var t := Put(b, BootKey(slot), EntryData(e).value);
      PutLookup(true, b, BootKey(slot), EntryData(e).value, MaskState());
      var u := PutIf(e.slotOk, t, BootSlot(), LE(slot, 2));
      PutLookup(e.slotOk, t, BootSlot(), LE(slot, 2), MaskState());
      var order := LE(slot, 2) + CurrentOrder(u);
      PutLookup(true, u, BootOrder(), order, MaskState());
      LookupPut(e.stateOk, Put(u, BootOrder(), order), MaskState(), Unconfirmed());
    }
  }

  lemma LookupPut(ok: bool, s: Store, k: Key, data: seq<Byte>)
    requires data != []
    ensures Lookup(Put(s, k, data), k) == Some(data)
    ensures Lookup(PutIf(ok, s, k, data), k) == if ok then Some(data) else Lookup(s, k)
  {
  }

  lemma InstallSteps(s: Store, e: Env)
    ensures StepsTo(s, Install(s, e).0)
  {
    hide Install, MaskState, OrigBoot, BootEntries, BootSlot, Unconfirmed, Records;
    InstallStates(s, e);
    forall k | k in Records() ensures Lookup(Install(s, e).0, k) == Lookup(s, k) {
      RecordsApart(k);
      InstallKeeps(s, e, k);
    }
  }

  /** A write to the state or to a variable that is no record. */
  lemma WriteSteps(ok: bool, s: Store, k: Key, data: seq<Byte>)
    requires k in {MaskState(), BadPages(), DecoderStatus()} && data != []
    ensures var t := PutIf(ok, s, k, data);
            && (forall j :: j in Records() ==> Lookup(t, j) == Lookup(s, j))
            && Lookup(t, MaskState()) == if ok && k == MaskState() then Some(data) else Lookup(s, MaskState())
  {
    hide Put, PutIf, Records, MaskState, BadPages, DecoderStatus;
    LookupPut(ok, s, k, data);
    if k != MaskState() {
      PutLookup(ok, s, k, data, MaskState());
    }
    forall j | j in Records() ensures Lookup(PutIf(ok, s, k, data), j) == Lookup(s, j) {
      RecordsApart(j);
      PutLookup(ok, s, k, data, j);
    }
  }

  lemma StepsOn(s: Store, t: Store, u: Store)
    requires StepsTo(s, t) && StepsTo(t, u)
    ensures StepsTo(s, u)
  {
    hide Records, MaskState, Lookup, TrialPending, Unconfirmed, Confirmed;
  }

  lemma AutoInstallSteps(s: Store, e: Env, againOk: bool)
    ensures StepsTo(s, AutoInstall(s, e, againOk))
  {
    hide Install, MaskState, OrigBoot, TrialPending, Put, PutIf, Records;
    InstallSteps(s, e);
    var (t, o) := Install(s, e);
    WriteSteps(o.Installed? && againOk, t, MaskState(), TrialPending());
    StepsOn(s, t, PutIf(o.Installed? && againOk, t, MaskState(), TrialPending()));
  }

  lemma EnterSteps(s: Store, x: Session)
    ensures StepsTo(s, Enter(s, x))
  {
    hide MaskState, BadPages, TrialPending, HasSavedMask, PutIf, AutoInstall, Put, BadPagesBlob.Encode, Records,
      StepsTo;
    var pending := PutIf(x.stateOk, s, MaskState(), TrialPending());
    StateSteps(x.stateOk, s);
    AutoInstallSteps(pending, x.env, x.againOk);
    StepsOn(s, pending, AutoInstall(pending, x.env, x.againOk));
    var t := Put(s, BadPages(), BadPagesBlob.Encode(x.pages));
    PageSteps(s, x.pages);
    StateSteps(true, t);
    var u := Put(t, MaskState(), TrialPending());
    assert PutIf(true, t, MaskState(), TrialPending()) == u by { Taken(t, MaskState(), TrialPending()); }
    AutoInstallSteps(u, x.env, x.againOk);
    StepsOn(s, t, u);
    StepsOn(s, u, AutoInstall(u, x.env, x.againOk));
    assert StepsTo(s, s) by { StepsNowhere(s); }
  }

  lemma StepsNowhere(s: Store)
    ensures StepsTo(s, s)
  {
  }

  lemma StateSteps(ok: bool, s: Store)
    ensures StepsTo(s, PutIf(ok, s, MaskState(), TrialPending()))
  {
    hide PutIf, MaskState, TrialPending, Records;
    WriteSteps(ok, s, MaskState(), TrialPending());
  }

  lemma PageSteps(s: Store, pages: seq<nat>)
    ensures StepsTo(s, Put(s, BadPages(), BadPagesBlob.Encode(pages)))
  {
    hide PutIf, Put, BadPages, MaskState, BadPagesBlob.Encode, Records;
    BlobNotEmpty(pages);
    WriteSteps(true, s, BadPages(), BadPagesBlob.Encode(pages));
    Taken(s, BadPages(), BadPagesBlob.Encode(pages));
    assert BadPages() != MaskState();
  }

  lemma Taken(s: Store, k: Key, data: seq<Byte>)
    ensures PutIf(true, s, k, data) == Put(s, k, data)
  {
  }

  lemma UninstallSteps(s: Store)
    requires Sound(s)
    ensures StepsTo(s, Uninstall(s))
  {
    hide Uninstall, MaskState, Sound, Known, Records;
    KnownKeys();
    KnownGone(s);
    forall k | k in Records() ensures Lookup(Uninstall(s), k) in {Lookup(s, k), None} {
      RecordsApart(k);
      UninstallShrinks(s, k);
    }
  }

  lemma BootSteps(s: Store, noMask: bool, answer: Answer, stateOk: bool)
    requires Sound(s)
    ensures StepsTo(s, Boot(s, noMask, answer, stateOk))
  {
    hide Uninstall, AwaitsConfirmation, MaskState, Confirmed, PutIf, Sound, Records;
    UninstallSteps(s);
    WriteSteps(stateOk, s, MaskState(), Confirmed());
  }

  lemma VerdictSteps(s: Store, validated: bool, ok: bool)
    ensures StepsTo(s, PutIf(ok, s, DecoderStatus(), TestVerdict(validated)))
  {
    hide PutIf, DecoderStatus, MaskState, TestVerdict, Records;
    WriteSteps(ok, s, DecoderStatus(), TestVerdict(validated));
    assert DecoderStatus() != MaskState();
  }

  /** No session, boot, revert, tool run or self-test starts a chip trial or records rows or chips. */
  lemma StepKeepsReady(s: Store, ev: Event)
    requires Sound(s) && PageReady(s)
    ensures PageReady(Step(s, ev))
  {
    hide Uninstall, Install, Boot, Enter, Sound, PageReady, StepsTo, PutIf;
    match ev {
      case BrrEntry(x) => EnterSteps(s, x);
      case ShimBoot(noMask, answer, stateOk) => BootSteps(s, noMask, answer, stateOk);
      case Revert(_) => UninstallSteps(s);
      case InstallTool(_, _, e) => InstallSteps(s, e); UninstallSteps(s);
      case SelfTest(validated, ok) => VerdictSteps(s, validated, ok);
    }
    StepsNowhere(s);
    StepsToReady(s, Step(s, ev));
  }

  /** From a machine without a chip trial, rows or chips, that stays so over every run. */
  lemma {:induction false} RunKeepsReady(s: Store, events: seq<Event>)
    requires Sound(s) && PageReady(s)
    ensures PageReady(Run(s, events))
  {
    hide Sound, Step, PageReady;
    if events != [] {
      var front := events[..|events| - 1];
      RunKeepsReady(s, front);
      RunSound(s, front);
      StepKeepsReady(Run(s, front), events[|events| - 1]);
    }
  }

  // -------------------------------------------------- the prompt after a session

  lemma LookupInState(s: Store, t: Store, text: seq<Byte>)
    requires Lookup(t, MaskState()) == Lookup(s, MaskState())
    ensures InState(t, text) == InState(s, text)
  {
  }

  lemma StateIs(s: Store, text: seq<Byte>, other: seq<Byte>)
    requires Lookup(s, MaskState()) == Some(text) && |text| <= 63 && forall i :: 0 <= i < |text| ==> text[i] != 0
    ensures InState(s, other) <==> text == other
  {
    CStringWhole(text);
  }

  lemma AutoInstallState(s: Store, e: Env, againOk: bool)
    ensures Lookup(AutoInstall(s, e, againOk), MaskState())
         == if OrigBoot() !in s.vars && Install(s, e).1.Installed? && againOk then Some(TrialPending())
            else if OrigBoot() !in s.vars && Install(s, e).1.Installed? && e.stateOk then Some(Unconfirmed())
            else Lookup(s, MaskState())
  {
    hide Install, MaskState, OrigBoot, TrialPending, Unconfirmed, PutIf, Records;
    InstallStates(s, e);
    var (t, o) := Install(s, e);
    WriteSteps(o.Installed? && againOk, t, MaskState(), TrialPending());
  }

  lemma AutoInstallsAlike(s: Store, t: Store, e: Env)
    requires Outside(s) == Outside(t)
    ensures Install(s, e).1.Installed? <==> Install(t, e).1.Installed?
  {
    hide Install, EntryData, BootKey, FreeSlot;
    OutcomeIff(s, e);
    OutcomeIff(t, e);
    forall v: Slot ensures BootKey(v) in s.vars <==> BootKey(v) in t.vars {
      assert BootKey(v) in s.vars <==> BootKey(v) in Outside(s);
      assert BootKey(v) in t.vars <==> BootKey(v) in Outside(t);
    }
    SameFreeSlot(s, t, FIRST_SLOT);
  }

  /** After a session that saves its list, the next boot stands at the confirmation prompt exactly when the state
      could not be written and already asked for it, or the session installed and only its second write of the trial
      state was refused. */
  lemma PromptAfterEntryIff(s: Store, x: Session)
    requires Saves(s, BrrEntry(x))
    ensures AwaitsConfirmation(Enter(s, x))
       <==> if !x.stateOk then AwaitsConfirmation(s)
            else OrigBoot() !in s.vars && CanEnter(s, x.env) && x.env.orderOk && x.env.stateOk && !x.againOk
  {
    hide MaskState, BadPages, OrigBoot, TrialPending, Unconfirmed, HasSavedMask, PutIf, AutoInstall, Put, Install,
      InState, BadPagesBlob.Encode, CString, Outside, CanEnter;
    OutcomeIff(s, x.env);
    var blob := BadPagesBlob.Encode(x.pages);
    var t := Put(s, BadPages(), blob);
    BlobNotEmpty(x.pages);
    PutLookup(true, s, BadPages(), blob, MaskState());
    if !x.stateOk {
      LookupInState(s, t, Unconfirmed());
    } else {
      var u := Put(t, MaskState(), TrialPending());
      LookupPut(true, t, MaskState(), TrialPending());
      AutoInstallState(u, x.env, x.againOk);
      OutsidePut(s, BadPages(), blob);
      OutsidePut(t, MaskState(), TrialPending());
      AutoInstallsAlike(s, u, x.env);
      PutLookup(true, s, BadPages(), blob, OrigBoot());
      PutLookup(true, t, MaskState(), TrialPending(), OrigBoot());
      var v := AutoInstall(u, x.env, x.againOk);
      if Lookup(v, MaskState()) == Some(TrialPending()) {
        StateIs(v, TrialPending(), Unconfirmed());
      } else {
        StateIs(v, Unconfirmed(), Unconfirmed());
      }
    }
  }
}
