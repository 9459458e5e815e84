/** What every run keeps: the boot namespace is either the original one or the original one with our entry in
    front, and the saved page list changes only on a confirmed entry or an uninstall. */
module BootLaws {
  import opened Common
  import opened Bytes
  import opened Nvram
  import opened Sweep
  import opened VarNames
  import opened LoadOption
  import opened MaskOps
  import opened InstallLaws
  import opened BootFlow
  import BadPagesBlob

  function Lookup(s: Store, k: Key): Option<seq<Byte>> {
    if k in s.vars then Some(s.vars[k]) else None
  }

  lemma PutLookup(ok: bool, s: Store, k: Key, data: seq<Byte>, j: Key)
    requires j != k
    ensures Lookup(Put(s, k, data), j) == Lookup(s, j) == Lookup(PutIf(ok, s, k, data), j)
  {
  }

  /** Install leaves every variable it does not name alone, whatever its outcome; of the boot namespace it names its
      entry and the order. */
  lemma InstallKeeps(s: Store, e: Env, k: Key)
    requires k.guid != Global && k !in {OrigBoot(), BootEntries(), BootSlot(), MaskState()}
    ensures Lookup(Install(s, e).0, k) == Lookup(s, k)
  {
    hide OrigBoot, BootEntries, BootSlot, MaskState, BootOrder, BootKey, EntryData, Unconfirmed, LE, Backed, Unordered,
      Rollback, Put, PutIf, CurrentOrder, FreeSlot;
    if !Install(s, e).1.Installed? {
      InstallFailureExact(s, e);
    } else {
      var b, slot := Backed(s, e), Install(s, e).1.slot;
      BackedVars(s, e);
      SameElsewhere(b, s, {OrigBoot(), BootEntries()}, k);
      var t := Put(b, BootKey(slot), EntryData(e).value);
      PutLookup(true, b, BootKey(slot), EntryData(e).value, k);
      var u := PutIf(e.slotOk, t, BootSlot(), LE(slot, 2));
      PutLookup(e.slotOk, t, BootSlot(), LE(slot, 2), k);
      var order := LE(slot, 2) + CurrentOrder(u);
      PutLookup(true, u, BootOrder(), order, k);
      PutLookup(e.stateOk, Put(u, BootOrder(), order), MaskState(), Unconfirmed(), k);
    }
  }

  // -------------------------------------------------------------- the invariant

  /** Nothing installed: outside the BRR namespace everything is as it was, and there is no backup. */
  ghost predicate Clean(s: Store, base: map<Key, seq<Byte>>) {
    Outside(s) == base && NotInstalled(s)
  }

  function WholeEntries(order: seq<Byte>): seq<Byte> {
    order[..|order| / 2 * 2]
  }

  /** Installed: the backup is the original order, the boot order is our slot followed by the original entries,
      our entry exists under a name that was free and is skipped by the chain-loader, all else is as it was. */
  ghost predicate Active(s: Store, base: map<Key, seq<Byte>>) {
    && BootOrder() in base && LegacyBoot() !in s.vars
    && OrigBoot() in s.vars && s.vars[OrigBoot()] == base[BootOrder()]
    && BootSlot() in s.vars && |s.vars[BootSlot()]| == 2
    && var slot := SlotValue(s.vars[BootSlot()]);
       && BootKey(slot) !in base && BootKey(slot) in s.vars && Judge(s.vars[BootKey(slot)]) == SkipSelf
       && Outside(s) == base[BootKey(slot) := s.vars[BootKey(slot)]]
                            [BootOrder() := s.vars[BootSlot()] + WholeEntries(base[BootOrder()])]
  }

  ghost predicate Invariant(s: Store, base: map<Key, seq<Byte>>) {
    && Sound(s)
    && BootOrder() in base && 0 < |base[BootOrder()]| <= ORDER_MAX
    && (Clean(s, base) || Active(s, base))
  }

  /** The two writes nobody checks take, and the device's path is well formed. */
  ghost predicate Quiet(e: Env) {
    e.backupOk && e.slotOk && AllWellFormed(e.device)
  }

  /** The install tool has no guard of its own, so it is run only without a backup. */
  ghost predicate Allowed(s: Store, ev: Event) {
    match ev
    case BrrEntry(x) => Quiet(x.env)
    case InstallTool(uninstall, _, e) => Quiet(e) && (uninstall || OrigBoot() !in s.vars)
    case _ => true
  }

  lemma OtherPutKeeps(s: Store, k: Key, data: seq<Byte>, base: map<Key, seq<Byte>>)
    requires Invariant(s, base) && data != []
    requires k.guid == Brr && k != OrigBoot() && k != LegacyBoot() && k != BootSlot()
    ensures Invariant(Put(s, k, data), base)
    ensures OrigBoot() in Put(s, k, data).vars <==> OrigBoot() in s.vars
  {
    hide Sound, OrigBoot, LegacyBoot, BootSlot, BootOrder, BootKey, Outside, Judge, WholeEntries, SlotValue;
    OutsidePut(s, k, data);
    PutSound(s, k, data);
  }

  lemma OtherPutIfKeeps(ok: bool, s: Store, k: Key, data: seq<Byte>, base: map<Key, seq<Byte>>)
    requires Invariant(s, base) && data != []
    requires k.guid == Brr && k != OrigBoot() && k != LegacyBoot() && k != BootSlot()
    ensures Invariant(PutIf(ok, s, k, data), base)
  {
    hide Invariant, Put;
    if ok {
      OtherPutKeeps(s, k, data, base);
    }
  }

  /** A failed install leaves a clean state clean. */
  lemma FailedInstallClean(s: Store, e: Env, base: map<Key, seq<Byte>>)
    requires Clean(s, base) && !Install(s, e).1.Installed?
    ensures Clean(Install(s, e).0, base)
  {
    hide Install, OrigBoot, LegacyBoot, BootSlot, BootEntries, Outside;
    var t, gone := Install(s, e).0, RolledBack(Install(s, e).1);
    InstallFailureExact(s, e);
    OutsideSame(t, s, gone);
  }

  /** A successful install activates it. */
  lemma InstallActive(s: Store, e: Env, base: map<Key, seq<Byte>>)
    requires Invariant(s, base) && Clean(s, base) && Quiet(e) && Install(s, e).1.Installed?
    ensures Active(Install(s, e).0, base)
  {
    hide Install, OrigBoot, LegacyBoot, BootSlot, BootEntries, BootOrder, BootKey, Judge, EntryData, LE, SlotValue;
    var t, slot := Install(s, e).0, Install(s, e).1.slot;
    InstallSuccess(s, e);
    InstallSaves(s, e);
    InstalledEntrySkipped(s, e);
    SlotRead(slot);
    InstallKeeps(s, e, LegacyBoot());
    assert BootOrder() in s.vars && s.vars[BootOrder()] == base[BootOrder()];
    assert CurrentOrder(s) == WholeEntries(base[BootOrder()]);
    assert BootKey(slot) in Outside(t);
  }

  lemma AutoInstallKeeps(s: Store, e: Env, againOk: bool, base: map<Key, seq<Byte>>)
    requires Invariant(s, base) && Quiet(e)
    ensures Invariant(AutoInstall(s, e, againOk), base)
  {
    hide Install, OrigBoot, LegacyBoot, BootSlot, BootOrder, BootKey, MaskState, TrialPending, Outside, Judge,
      WholeEntries, SlotValue, Sound, Put;
    if OrigBoot() !in s.vars {
      InstallKeepsInvariant(s, e, base);
      var (t, o) := Install(s, e);
      OtherPutIfKeeps(o.Installed? && againOk, t, MaskState(), TrialPending(), base);
    }
  }

  lemma InstallKeepsInvariant(s: Store, e: Env, base: map<Key, seq<Byte>>)
    requires Invariant(s, base) && Quiet(e) && OrigBoot() !in s.vars
    ensures Invariant(Install(s, e).0, base)
  {
    hide Install, OrigBoot, LegacyBoot, BootSlot, BootOrder, BootKey, Outside, Judge, WholeEntries, SlotValue, Sound;
    assert Clean(s, base);
    InstallSound(s, e);
    if Install(s, e).1.Installed? {
      InstallActive(s, e, base);
    } else {
      FailedInstallClean(s, e, base);
    }
  }

  /** Uninstall from any state of a run restores everything outside the namespace and forgets the install. */
  lemma UninstallRestores(s: Store, base: map<Key, seq<Byte>>)
    requires Invariant(s, base)
    ensures Clean(Uninstall(s), base) && Sound(Uninstall(s))
    ensures forall k :: k in Known() ==> k !in Uninstall(s).vars
  {
    hide Uninstall, OrigBoot, LegacyBoot, BootSlot, BootOrder, BootKey, Judge, SlotValue, RestoreOrder, DropEntry,
      Known;
    UninstallOutside(s);
    UndoneOutside(s);
    KnownGone(s);
    KnownKeys();
    if Active(s, base) {
      var slot := SlotValue(s.vars[BootSlot()]);
      MapUndone(base, BootKey(slot), s.vars[BootKey(slot)], BootOrder(),
                s.vars[BootSlot()] + WholeEntries(base[BootOrder()]), base[BootOrder()]);
    }
  }

  lemma KnownGone(s: Store)
    requires Sound(s)
    ensures forall k :: k in Known() ==> k !in Uninstall(s).vars
  {
    hide Sound, RestoreOrder, DropEntry, Known, Reach, Swept, DropAll;
    RestoreSound(s);
    var t := DropEntry(RestoreOrder(s));
    DropAllVars(t, Known());
    SweepExact(DropAll(t, Known()));
  }

  lemma EnterKeeps(s: Store, x: Session, base: map<Key, seq<Byte>>)
    requires Invariant(s, base) && Quiet(x.env)
    ensures Invariant(Enter(s, x), base)
  {
    hide Invariant, AutoInstall, OrigBoot, LegacyBoot, BootSlot, MaskState, BadPages, TrialPending, HasSavedMask, Put,
      PutIf;
    var pending := PutIf(x.stateOk, s, MaskState(), TrialPending());
    OtherPutIfKeeps(x.stateOk, s, MaskState(), TrialPending(), base);
    AutoInstallKeeps(pending, x.env, x.againOk, base);
    BlobNotEmpty(x.pages);
    var blob := BadPagesBlob.Encode(x.pages);
    OtherPutKeeps(s, BadPages(), blob, base);
    var t := Put(s, BadPages(), blob);
    OtherPutKeeps(t, MaskState(), TrialPending(), base);
    AutoInstallKeeps(Put(t, MaskState(), TrialPending()), x.env, x.againOk, base);
  }

  /** Every event keeps the invariant. */
  lemma StepKeeps(s: Store, ev: Event, base: map<Key, seq<Byte>>)
    requires Invariant(s, base) && Allowed(s, ev)
    ensures Invariant(Step(s, ev), base)
  {
    hide Sound, Clean, Active, Uninstall, Install, AutoInstall, Enter, AwaitsConfirmation, BootOrder, PutIf;
    UninstallRestores(s, base);
    match ev {
      case BrrEntry(x) => EnterKeeps(s, x, base);
      case ShimBoot(noMask, answer, stateOk) => OtherPutIfKeeps(stateOk, s, MaskState(), Confirmed(), base);
      case Revert(_) =>
      case InstallTool(uninstall, answer, e) =>
        if !uninstall {
          InstallKeepsInvariant(s, e, base);
        }
      case SelfTest(validated, ok) => OtherPutIfKeeps(ok, s, DecoderStatus(), TestVerdict(validated), base);
    }
  }

  ghost function Run(s: Store, events: seq<Event>): Store {
    if events == [] then s else Step(Run(s, events[..|events| - 1]), events[|events| - 1])
  }

  ghost predicate AllAllowed(s: Store, events: seq<Event>) {
    forall i :: 0 <= i < |events| ==> Allowed(Run(s, events[..i]), events[i])
  }

  /** From a clean machine whose boot order can be backed up, every run ends clean or fully installed. */
  lemma {:induction false} RunKeeps(s: Store, events: seq<Event>)
    requires Sound(s) && NotInstalled(s) && Fetch(s, BootOrder(), ORDER_MAX).Found? && AllAllowed(s, events)
    ensures Invariant(Run(s, events), Outside(s))
  {
    hide Allowed, Step, Active;
    if events != [] {
      var front := events[..|events| - 1];
      assert forall i :: 0 <= i <= |front| ==> front[..i] == events[..i];
      RunKeeps(s, front);
      assert Allowed(Run(s, events[..|front|]), events[|front|]);
      StepKeeps(Run(s, front), events[|front|], Outside(s));
    }
  }

  /** After any run, one revert brings back the original boot namespace, and no further revert changes anything. */
  lemma RevertRestores(s: Store, events: seq<Event>)
    requires Sound(s) && NotInstalled(s) && Fetch(s, BootOrder(), ORDER_MAX).Found? && AllAllowed(s, events)
    ensures var t := Step(Run(s, events), Revert(Yes));
            Outside(t) == Outside(s) && NotInstalled(t) && Step(t, Revert(Yes)) == t
  {
    hide Uninstall, Active, OrigBoot, LegacyBoot, BootSlot, Outside, Run;
    RunKeeps(s, events);
    UninstallRestores(Run(s, events), Outside(s));
    UninstallTwice(Run(s, events));
  }

  /** Without the guard: installing over an install is never undone. */
  lemma ReinstallNotUndone(s: Store, e: Env, base: map<Key, seq<Byte>>)
    requires Invariant(s, base) && Active(s, base) && Install(s, e).1.Installed?
    ensures Outside(Uninstall(Install(s, e).0)) != base
  {
    hide Install, Uninstall, OrigBoot, LegacyBoot, BootSlot, BootOrder, BootKey, Judge, EntryData, LE, SlotValue,
      RestoreOrder, DropEntry, SavedOrder, WholeEntries, CurrentOrder;
    var t, first, second := Install(s, e).0, SlotValue(s.vars[BootSlot()]), Install(s, e).1.slot;
    InstallSound(s, e);
    InstallSuccess(s, e);
    UninstallOutside(t);
    UndoneOutside(t);
    assert BootKey(first) in Outside(s);
    assert BootKey(second) !in Outside(s) && BootKey(second) !in base;
    assert BootKey(first) in Outside(t) && BootKey(second) in Outside(t);
  }

  // ------------------------------------------------------------- the page list

  /** A confirmed entry whose write the firmware takes. */
  predicate Saves(s: Store, ev: Event) {
    && ev.BrrEntry?
    && (HasSavedMask(s) ==> ev.session.quick == No)
    && ev.session.pages != [] && ev.session.confirmed == Yes && ev.session.pagesOk
  }

  /** An uninstall: by revert, by the install tool, or by declining at the shim's prompt. */
  predicate Removes(s: Store, ev: Event) {
    match ev
    case BrrEntry(_) => false
    case ShimBoot(noMask, answer, _) => !noMask && AwaitsConfirmation(s) && answer == No
    case Revert(answer) => answer == Yes
    case InstallTool(uninstall, answer, _) => uninstall && answer == Yes
    case SelfTest(_, _) => false
  }

  /** The saved list after a step: the confirmed addresses, nothing after an uninstall, otherwise what it was. */
  lemma PagesAfterStep(s: Store, ev: Event)
    requires Sound(s)
    ensures Lookup(Step(s, ev), BadPages())
         == if Saves(s, ev) then Some(BadPagesBlob.Encode(ev.session.pages))
            else if Removes(s, ev) then None
            else Lookup(s, BadPages())
  {
    hide Uninstall, Install, AwaitsConfirmation, MaskState, BadPages, DecoderStatus, Confirmed, TestVerdict,
      HasSavedMask, Lookup, Put, PutIf, Sound, Enter, BadPagesBlob.Encode;
    PagesUninstalled(s);
    match ev {
      case BrrEntry(x) => PagesAfterEntry(s, x);
      case ShimBoot(_, _, stateOk) => PagesApart(); PutLookup(stateOk, s, MaskState(), Confirmed(), BadPages());
      case Revert(_) =>
      case InstallTool(_, _, e) => PagesApart(); InstallKeeps(s, e, BadPages());
      case SelfTest(validated, ok) =>
        PagesApart();
        PutLookup(ok, s, DecoderStatus(), TestVerdict(validated), BadPages());
    }
  }

  lemma PagesUninstalled(s: Store)
    requires Sound(s)
    ensures Lookup(Uninstall(s), BadPages()) == None
  {
    hide Uninstall, BadPages, Sound;
    KnownKeys();
    KnownGone(s);
  }

  lemma PagesApart()
    ensures BadPages() !in {OrigBoot(), BootEntries(), BootSlot(), MaskState(), DecoderStatus()}
    ensures BadPages().guid != Global
  {
    hide BadPages, OrigBoot, BootEntries, BootSlot, MaskState, DecoderStatus;
  }

  lemma PagesAfterAutoInstall(s: Store, e: Env, againOk: bool)
    ensures Lookup(AutoInstall(s, e, againOk), BadPages()) == Lookup(s, BadPages())
  {
    hide Install, MaskState, BadPages, OrigBoot, BootEntries, BootSlot, TrialPending, Put, PutIf;
    InstallKeeps(s, e, BadPages());
    var (t, o) := Install(s, e);
    PutLookup(o.Installed? && againOk, t, MaskState(), TrialPending(), BadPages());
  }

  lemma PagesAfterEntry(s: Store, x: Session)
    ensures Lookup(Enter(s, x), BadPages())
         == if Saves(s, BrrEntry(x)) then Some(BadPagesBlob.Encode(x.pages)) else Lookup(s, BadPages())
  {
    hide MaskState, BadPages, TrialPending, HasSavedMask, PutIf, AutoInstall;
    var pending := PutIf(x.stateOk, s, MaskState(), TrialPending());
    PutLookup(x.stateOk, s, MaskState(), TrialPending(), BadPages());
    PagesAfterAutoInstall(pending, x.env, x.againOk);
    BlobNotEmpty(x.pages);
    var t := Put(s, BadPages(), BadPagesBlob.Encode(x.pages));
    PutLookup(true, t, MaskState(), TrialPending(), BadPages());
    PagesAfterAutoInstall(Put(t, MaskState(), TrialPending()), x.env, x.againOk);
  }

  /** Event `i` saved the page list and nothing after it saved or removed one. */
  ghost predicate LastSave(s: Store, events: seq<Event>, i: nat) {
    && i < |events| && Saves(Run(s, events[..i]), events[i])
    && forall j :: i < j < |events| ==>
         !Saves(Run(s, events[..j]), events[j]) && !Removes(Run(s, events[..j]), events[j])
  }

  lemma LastSaveFront(s: Store, events: seq<Event>, i: nat)
    requires LastSave(s, events, i)
    ensures var last := |events| - 1;
            && i <= last && events[i].BrrEntry?
            && (i == last ==> Saves(Run(s, events[..last]), events[last]))
            && (i < last ==> LastSave(s, events[..last], i) && events[..last][i] == events[i])
            && (i < last ==> !Saves(Run(s, events[..last]), events[last]))
            && (i < last ==> !Removes(Run(s, events[..last]), events[last]))
  {
    hide Step, Removes, Run, HasSavedMask;
    var last := |events| - 1;
    assert forall j :: 0 <= j <= last ==> events[..last][..j] == events[..j];
  }

  lemma AutoInstallSound(s: Store, e: Env, againOk: bool)
    requires Sound(s)
    ensures Sound(AutoInstall(s, e, againOk))
  {
    hide Sound, Install, Put, PutIf, OrigBoot, MaskState, TrialPending;
    InstallSound(s, e);
    var (t, o) := Install(s, e);
    PutIfSound(o.Installed? && againOk, t, MaskState(), TrialPending());
  }

  lemma EnterSound(s: Store, x: Session)
    requires Sound(s)
    ensures Sound(Enter(s, x))
  {
    hide Sound, AutoInstall, Put, PutIf, MaskState, BadPages, TrialPending, HasSavedMask, BadPagesBlob.Encode;
    var pending, blob := PutIf(x.stateOk, s, MaskState(), TrialPending()), BadPagesBlob.Encode(x.pages);
    PutIfSound(x.stateOk, s, MaskState(), TrialPending());
    AutoInstallSound(pending, x.env, x.againOk);
    BlobNotEmpty(x.pages);
    PutSound(s, BadPages(), blob);
    var t := Put(s, BadPages(), blob);
    PutSound(t, MaskState(), TrialPending());
    AutoInstallSound(Put(t, MaskState(), TrialPending()), x.env, x.againOk);
  }

  /** Every event keeps enumeration and variables in step, whatever is installed and whichever writes are refused. */
  lemma StepSound(s: Store, ev: Event)
    requires Sound(s)
    ensures Sound(Step(s, ev))
  {
    hide Sound, Uninstall, Install, Enter, AwaitsConfirmation, PutIf, MaskState, DecoderStatus, Confirmed, TestVerdict;
    UninstallOutside(s);
    match ev {
      case BrrEntry(x) => EnterSound(s, x);
      case ShimBoot(_, _, stateOk) => PutIfSound(stateOk, s, MaskState(), Confirmed());
      case Revert(_) =>
      case InstallTool(_, _, e) => InstallSound(s, e);
      case SelfTest(validated, ok) => PutIfSound(ok, s, DecoderStatus(), TestVerdict(validated));
    }
  }

  lemma {:induction false} RunSound(s: Store, events: seq<Event>)
    requires Sound(s)
    ensures Sound(Run(s, events))
  {
    hide Sound, Step;
    if events != [] {
      RunSound(s, events[..|events| - 1]);
      StepSound(Run(s, events[..|events| - 1]), events[|events| - 1]);
    }
  }

  /** After any run on any machine, whatever was installed before and whichever writes are refused, the saved list is
      the one of the last confirmed entry that no uninstall followed. */
  lemma {:induction false} PagesAfterRun(s: Store, events: seq<Event>, i: nat)
    requires Sound(s) && LastSave(s, events, i)
    ensures events[i].BrrEntry?
    ensures Lookup(Run(s, events), BadPages()) == Some(BadPagesBlob.Encode(events[i].session.pages))
  {
    hide Sound, Step, Saves, Removes, BadPages, BadPagesBlob.Encode, Lookup, LastSave;
    var last := |events| - 1;
    LastSaveFront(s, events, i);
    RunSound(s, events[..last]);
    PagesAfterStep(Run(s, events[..last]), events[last]);
    if i < last {
      PagesAfterRun(s, events[..last], i);
    }
  }
}
