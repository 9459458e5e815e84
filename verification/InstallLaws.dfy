/** What install and uninstall promise: a failed install leaves nothing behind, uninstall undoes a successful one,
    and nothing of the mask's own survives it. */
module InstallLaws {
  import opened Common
  import opened Bytes
  import opened Nvram
  import opened Sweep
  import opened VarNames
  import opened LoadOption
  import opened BootList
  import opened MaskOps

  /** The variables outside the BRR namespace, the whole global boot namespace among them. */
  ghost function Outside(s: Store): map<Key, seq<Byte>> {
    map k | k in s.vars && k.guid != Brr :: s.vars[k]
  }

  lemma OutsidePut(s: Store, k: Key, data: seq<Byte>)
    requires data != []
    ensures Outside(Put(s, k, data)) == if k.guid == Brr then Outside(s) else Outside(s)[k := data]
  {
  }

  lemma OutsideDel(s: Store, k: Key)
    ensures Outside(Del(s, k)) == Outside(s) - {k}
  {
  }

  // ------------------------------------------------------------ all or nothing

  /** The variables a failure at each step deletes. */
  ghost function RolledBack(o: Outcome): set<Key> {
    match o
    case CopyFailed => {OrigBoot(), BootEntries()}
    case EntryFailed => {OrigBoot(), BootEntries()}
    case OrderFailed => {OrigBoot(), BootEntries(), BootSlot()}
    case _ => {}
  }

  lemma BackedVars(s: Store, e: Env)
    ensures Backed(s, e).vars - {OrigBoot(), BootEntries()} == s.vars - {OrigBoot(), BootEntries()}
    ensures Rollback(Backed(s, e)).vars == s.vars - {OrigBoot(), BootEntries()}
  {
    var t := SaveEntries(s, e);
    assert t.vars - {BootEntries()} == s.vars - {BootEntries()};
    assert Backed(s, e).vars - {OrigBoot()} == t.vars - {OrigBoot()};
  }

  /** A failed install changes the variables by exactly its rollback: each created variable is gone and each
      existing one outside the rolled back names keeps its value. */
  lemma InstallFailureExact(s: Store, e: Env)
    requires !Install(s, e).1.Installed?
    ensures Install(s, e).0.vars == s.vars - RolledBack(Install(s, e).1)
  {
    hide EntryData, Unconfirmed, OrigBoot, BootEntries, BootSlot, MaskState, BootOrder, BootKey, LE, Rollback, Backed,
      Unordered, Put;
    BackedVars(s, e);
    var b := Backed(s, e);
    var slot := FreeSlot(b, FIRST_SLOT);
    if e.usb && e.esp && e.copied && EntryData(e).Some? && slot < LAST_SLOT && e.entryOk {
      OrderFailureVars(b, e, slot, EntryData(e).value);
      assert s.vars - {OrigBoot(), BootEntries()} - {BootSlot()} == s.vars - {OrigBoot(), BootEntries(), BootSlot()};
    }
  }

  lemma OrderFailureVars(b: Store, e: Env, slot: Slot, opt: seq<Byte>)
    requires BootKey(slot) !in b.vars
    ensures Unordered(Put(b, BootKey(slot), opt), e, slot).vars
         == b.vars - {OrigBoot(), BootEntries()} - {BootSlot()}
  {
    hide Unordered, OrigBoot, BootEntries, BootSlot, BootKey;
    var t := Put(b, BootKey(slot), opt);
    UnorderedVars(t, e, slot);
    assert t.vars - {BootKey(slot)} == b.vars - {BootKey(slot)} == b.vars;
    assert t.vars - {BootKey(slot), BootSlot(), OrigBoot(), BootEntries()}
        == t.vars - {BootKey(slot)} - {OrigBoot(), BootEntries()} - {BootSlot()};
  }

  lemma UnorderedVars(s: Store, e: Env, slot: Slot)
    ensures Unordered(s, e, slot).vars == s.vars - {BootKey(slot), BootSlot(), OrigBoot(), BootEntries()}
  {
    hide LE, BootKey, OrigBoot, BootEntries, BootSlot;
  }

  lemma {:induction false} SameFreeSlot(a: Store, b: Store, slot: Slot)
    requires slot <= LAST_SLOT && forall v: Slot :: BootKey(v) in a.vars <==> BootKey(v) in b.vars
    ensures FreeSlot(a, slot) == FreeSlot(b, slot)
    decreases LAST_SLOT - slot
  {
    hide BootKey;
    if slot < LAST_SLOT {
      SameFreeSlot(a, b, slot + 1);
    }
  }

  /** Backing up takes no slot. */
  lemma BackedFreeSlot(s: Store, e: Env)
    ensures FreeSlot(Backed(s, e), FIRST_SLOT) == FreeSlot(s, FIRST_SLOT)
  {
    hide FreeSlot, BootKey, OrigBoot, BootEntries, Backed;
    BackedVars(s, e);
    forall v: Slot ensures BootKey(v) in Backed(s, e).vars <==> BootKey(v) in s.vars {
      SameElsewhere(Backed(s, e), s, {OrigBoot(), BootEntries()}, BootKey(v));
    }
    SameFreeSlot(Backed(s, e), s, FIRST_SLOT);
  }

  /** Every step up to the boot order can be taken: the environment allows it and a slot is free. */
  ghost predicate CanEnter(s: Store, e: Env) {
    e.usb && e.esp && e.copied && EntryData(e).Some? && e.entryOk && FreeSlot(s, FIRST_SLOT) < LAST_SLOT
  }

  /** How an install ends, read off the environment and the state before it. */
  lemma OutcomeIff(s: Store, e: Env)
    ensures Install(s, e).1.Installed? <==> CanEnter(s, e) && e.orderOk
    ensures Install(s, e).1.OrderFailed? <==> CanEnter(s, e) && !e.orderOk
  {
    hide FreeSlot, EntryData, Backed, Rollback, Ordered, Unordered;
    BackedFreeSlot(s, e);
  }

  /** Everything goes well up to a step: 0 the shim's copy, 1 the boot order, 2 none. */
  function FailingAt(step: nat): Env {
    Env(true, true, true, true, step > 0, [], true, true, true, true, step > 1, true)
  }

  lemma SmallEntryFits(e: Env)
    requires e.pool && e.device == []
    ensures EntryData(e).Some?
  {
    hide OptionBytes, Utf16, OurDescription, ShimPath;
    FileNodeSize([], ShimPath());
  }

  /** Installing from this state is all or nothing, whatever the environment does, exactly when there are no backups,
      and no slot of an earlier install or no free slot to get as far as rolling one back. */
  lemma InstallFailureIff(s: Store)
    ensures (forall e :: !Install(s, e).1.Installed? ==> Install(s, e).0.vars == s.vars)
       <==> && OrigBoot() !in s.vars && BootEntries() !in s.vars
            && (BootSlot() !in s.vars || FreeSlot(s, FIRST_SLOT) == LAST_SLOT)
  {
    hide Install, EntryData, FreeSlot, OrigBoot, BootEntries, BootSlot;
    if OrigBoot() in s.vars || BootEntries() in s.vars {
      CopyFailureDeletes(s);
    } else if BootSlot() in s.vars && FreeSlot(s, FIRST_SLOT) < LAST_SLOT {
      OrderFailureDeletes(s);
    } else {
      forall e | !Install(s, e).1.Installed? ensures Install(s, e).0.vars == s.vars {
        InstallFailureExact(s, e);
        OutcomeIff(s, e);
        NothingRemoved(s.vars, RolledBack(Install(s, e).1));
      }
    }
  }

  lemma NothingRemoved(m: map<Key, seq<Byte>>, gone: set<Key>)
    requires forall k :: k in gone ==> k !in m
    ensures m - gone == m
  {
  }

  lemma CopyFailureDeletes(s: Store)
    ensures var t := Install(s, FailingAt(0));
            t.1 == CopyFailed && OrigBoot() !in t.0.vars && BootEntries() !in t.0.vars
  {
    hide OrigBoot, BootEntries, Backed, Rollback, FreeSlot, EntryData;
    InstallFailureExact(s, FailingAt(0));
  }

  lemma OrderFailureDeletes(s: Store)
    requires FreeSlot(s, FIRST_SLOT) < LAST_SLOT
    ensures var t := Install(s, FailingAt(1)); t.1 == OrderFailed && BootSlot() !in t.0.vars
  {
    hide Install, OrigBoot, BootEntries, BootSlot, FreeSlot, EntryData;
    SmallEntryFits(FailingAt(1));
    OutcomeIff(s, FailingAt(1));
    InstallFailureExact(s, FailingAt(1));
  }

  // ----------------------------------------------------------------- success

  lemma SameElsewhere(a: Store, b: Store, keys: set<Key>, k: Key)
    requires a.vars - keys == b.vars - keys && k !in keys
    ensures k in a.vars <==> k in b.vars
    ensures k in a.vars ==> a.vars[k] == b.vars[k]
  {
    assert k in a.vars <==> k in a.vars - keys;
    assert k in b.vars <==> k in b.vars - keys;
    if k in a.vars {
      assert (a.vars - keys)[k] == a.vars[k] && (b.vars - keys)[k] == b.vars[k];
    }
  }

  lemma OutsideSame(a: Store, b: Store, keys: set<Key>)
    requires a.vars - keys == b.vars - keys && forall k :: k in keys ==> k.guid == Brr
    ensures Outside(a) == Outside(b)
  {
    forall k: Key | k.guid != Brr
      ensures k in a.vars <==> k in b.vars
      ensures k in a.vars ==> a.vars[k] == b.vars[k]
    {
      SameElsewhere(a, b, keys, k);
    }
  }

  lemma OrderedOutside(s: Store, e: Env, slot: Slot)
    ensures Outside(Ordered(s, e, slot)) == Outside(s)[BootOrder() := LE(slot, 2) + CurrentOrder(s)]
  {
    hide Unconfirmed, BootSlot, MaskState, BootOrder, LE, Put, Outside;
    var s1 := PutIf(e.slotOk, s, BootSlot(), LE(slot, 2));
    OutsidePut(s, BootSlot(), LE(slot, 2));
    assert CurrentOrder(s1) == CurrentOrder(s) by { PutElsewhere(s, BootSlot(), LE(slot, 2)); }
    var order := LE(slot, 2) + CurrentOrder(s1);
    OutsidePut(s1, BootOrder(), order);
    OutsidePut(Put(s1, BootOrder(), order), MaskState(), Unconfirmed());
  }

  lemma PutElsewhere(s: Store, k: Key, data: seq<Byte>)
    ensures forall j, cap :: j != k ==> Fetch(Put(s, k, data), j, cap) == Fetch(s, j, cap)
  {
  }

  lemma EntryNotEmpty(e: Env)
    requires EntryData(e).Some?
    ensures EntryData(e).value != []
  {
    hide FullPath, LE, Utf16, OurDescription, ShimPath;
  }

  /** A successful install creates its entry under the first free slot's name, puts that slot in front of the
      boot order, and touches nothing else outside its own namespace. */
  lemma InstallSuccess(s: Store, e: Env)
    requires Install(s, e).1.Installed?
    ensures var slot := Install(s, e).1.slot;
            && FIRST_SLOT <= slot < LAST_SLOT && BootKey(slot) !in s.vars
            && (forall v :: FIRST_SLOT <= v < slot ==> BootKey(v) in s.vars)
            && EntryData(e).Some?
            && Outside(Install(s, e).0)
               == Outside(s)[BootKey(slot) := EntryData(e).value][BootOrder() := LE(slot, 2) + CurrentOrder(s)]
  {
    hide EntryData, OrigBoot, BootEntries, BootOrder, BootKey, Ordered, Unordered, Rollback, Backed, Put, Outside,
      CurrentOrder;
    var b, slot := Backed(s, e), Install(s, e).1.slot;
    var opt, ours := EntryData(e).value, {OrigBoot(), BootEntries()};
    BackedVars(s, e);
    OutsideSame(b, s, ours);
    forall v: Slot ensures BootKey(v) in b.vars <==> BootKey(v) in s.vars {
      SameElsewhere(b, s, ours, BootKey(v));
    }
    EntryNotEmpty(e);
    OutsidePut(b, BootKey(slot), opt);
    OrderedOutside(Put(b, BootKey(slot), opt), e, slot);
    assert CurrentOrder(Put(b, BootKey(slot), opt)) == CurrentOrder(s) by { SameOrder(s, e, slot, opt); }
  }

  lemma SameOrder(s: Store, e: Env, slot: Slot, opt: seq<Byte>)
    ensures CurrentOrder(Put(Backed(s, e), BootKey(slot), opt)) == CurrentOrder(s)
  {
    hide OrigBoot, BootEntries, BootOrder, BootKey, Backed, Put;
    var b := Backed(s, e);
    BackedVars(s, e);
    SameElsewhere(b, s, {OrigBoot(), BootEntries()}, BootOrder());
    PutElsewhere(b, BootKey(slot), opt);
    assert Fetch(Put(b, BootKey(slot), opt), BootOrder(), ORDER_MAX) == Fetch(b, BootOrder(), ORDER_MAX);
  }

  // ---------------------------------------------------------- uninstall inverts

  /** No backup and no slot of an earlier install. */
  ghost predicate NotInstalled(s: Store) {
    OrigBoot() !in s.vars && LegacyBoot() !in s.vars && BootSlot() !in s.vars
  }

  lemma PutIfSound(ok: bool, s: Store, k: Key, data: seq<Byte>)
    requires Sound(s)
    ensures Sound(PutIf(ok, s, k, data))
  {
    hide Sound, Put;
    PutSound(s, k, data);
  }

  lemma BackedSound(s: Store, e: Env)
    requires Sound(s)
    ensures Sound(Backed(s, e))
  {
    hide Sound, PutIf;
    PutIfSound(e.entriesOk && SavedList(s.order) != [], s, BootEntries(), SavedList(s.order));
    var t := SaveEntries(s, e);
    match Fetch(t, BootOrder(), ORDER_MAX) {
      case Found(order) => PutIfSound(e.backupOk && order != [], t, OrigBoot(), order);
      case _ =>
    }
  }

  lemma RollbackSound(s: Store)
    requires Sound(s)
    ensures Sound(Rollback(s))
  {
    hide Sound, Del;
    DelSound(s, OrigBoot());
    DelSound(Del(s, OrigBoot()), BootEntries());
  }

  lemma InstallSound(s: Store, e: Env)
    requires Sound(s)
    ensures Sound(Install(s, e).0)
  {
    hide Sound, Put, PutIf, Del, Rollback, Backed, EntryData, FreeSlot, CurrentOrder;
    BackedSound(s, e);
    var b := Backed(s, e);
    RollbackSound(b);
    var slot := FreeSlot(b, FIRST_SLOT);
    if EntryData(e).Some? {
      var t := Put(b, BootKey(slot), EntryData(e).value);
      PutSound(b, BootKey(slot), EntryData(e).value);
      PutIfSound(e.slotOk, t, BootSlot(), LE(slot, 2));
      var u := PutIf(e.slotOk, t, BootSlot(), LE(slot, 2));
      DelSound(u, BootKey(slot));
      DelSound(Del(u, BootKey(slot)), BootSlot());
      RollbackSound(Del(Del(u, BootKey(slot)), BootSlot()));
      var order := LE(slot, 2) + CurrentOrder(u);
      PutSound(u, BootOrder(), order);
      PutIfSound(e.stateOk, Put(u, BootOrder(), order), MaskState(), Unconfirmed());
    }
  }

  lemma BackupTaken(s: Store, e: Env)
    requires Sound(s) && NotInstalled(s)
    ensures SavedOrder(Backed(s, e)) == if e.backupOk then SavableOrder(s) else NotFound
    ensures BootSlot() !in Backed(s, e).vars
  {
    hide OrigBoot, LegacyBoot, BootEntries, BootSlot, BootOrder;
    var t := SaveEntries(s, e);
    assert t.vars - {BootEntries()} == s.vars - {BootEntries()};
    SameElsewhere(t, s, {BootEntries()}, BootOrder());
    SameElsewhere(t, s, {BootEntries()}, OrigBoot());
    SameElsewhere(t, s, {BootEntries()}, LegacyBoot());
    SameElsewhere(t, s, {BootEntries()}, BootSlot());
  }

  /** The boot order the installer can read, hence save. */
  function SavableOrder(s: Store): Read {
    match Fetch(s, BootOrder(), ORDER_MAX)
    case Found(order) => Found(order)
    case _ => NotFound
  }

  /** What a successful install leaves for uninstall to find: the original order and the slot it took. */
  lemma InstallSaves(s: Store, e: Env)
    requires Sound(s) && NotInstalled(s) && Install(s, e).1.Installed?
    ensures var t, slot := Install(s, e).0, Install(s, e).1.slot;
            && SavedOrder(t) == (if e.backupOk then SavableOrder(s) else NotFound)
            && Fetch(t, BootSlot(), 2) == if e.slotOk then Found(LE(slot, 2)) else NotFound
  {
    hide OrigBoot, LegacyBoot, BootEntries, BootSlot, BootOrder, MaskState, BootKey, EntryData, Unconfirmed, LE,
      Backed, Put, Fetch, FreeSlot, CurrentOrder;
    BackupTaken(s, e);
    var b, slot := Backed(s, e), Install(s, e).1.slot;
    var opt := EntryData(e).value;
    var t := Put(b, BootKey(slot), opt);
    PutElsewhere(b, BootKey(slot), opt);
    var u := PutIf(e.slotOk, t, BootSlot(), LE(slot, 2));
    PutElsewhere(t, BootSlot(), LE(slot, 2));
    assert Fetch(b, BootSlot(), 2) == NotFound by { FetchAbsent(b, BootSlot()); }
    FetchPut(t, BootSlot(), LE(slot, 2), 2);
    var order := LE(slot, 2) + CurrentOrder(u);
    PutElsewhere(u, BootOrder(), order);
    PutElsewhere(Put(u, BootOrder(), order), MaskState(), Unconfirmed());
  }

  lemma FetchAbsent(s: Store, k: Key)
    requires k !in s.vars
    ensures forall cap :: Fetch(s, k, cap) == NotFound
  {
  }

  lemma FetchPut(s: Store, k: Key, data: seq<Byte>, cap: nat)
    requires 0 < |data| <= cap
    ensures Fetch(Put(s, k, data), k, cap) == Found(data)
  {
  }

  lemma {:induction false} DropAllVars(s: Store, keys: seq<Key>)
    ensures DropAll(s, keys).vars == s.vars - (set k | k in keys)
    ensures Sound(s) ==> Sound(DropAll(s, keys))
  {
    if keys != [] {
      var init, k := keys[..|keys| - 1], keys[|keys| - 1];
      assert keys == init + [k];
      DropAllVars(s, init);
      assert forall x :: x in keys <==> x in init || x == k;
      if Sound(s) {
        DelSound(DropAll(s, init), k);
      }
    }
  }

  lemma RestoreSound(s: Store)
    requires Sound(s)
    ensures Sound(DropEntry(RestoreOrder(s)))
  {
    hide Sound, Put, Del, BootKey;
    match SavedOrder(s) {
      case Found(order) => PutIfSound(order != [], s, BootOrder(), order);
      case _ =>
    }
    var t := RestoreOrder(s);
    match Fetch(t, BootSlot(), 2) {
      case Found(slot) => DelSound(t, BootKey(SlotValue(slot)));
      case _ =>
    }
  }

  /** Uninstall's clean-up stays inside the namespace: outside it, only the order and the entry change. */
  lemma UninstallOutside(s: Store)
    requires Sound(s)
    ensures Sound(Uninstall(s)) && Outside(Uninstall(s)) == Outside(DropEntry(RestoreOrder(s)))
  {
    hide DropEntry, RestoreOrder, Swept, Known, Sound, Reach, DropAll;
    RestoreSound(s);
    var t := DropEntry(RestoreOrder(s));
    KnownKeys();
    DropAllVars(t, Known());
    var u := DropAll(t, Known());
    SweepExact(u);
    forall k: Key | k.guid != Brr
      ensures k in Swept(u).vars <==> k in t.vars
      ensures k in t.vars ==> Swept(u).vars[k] == t.vars[k]
    {
      assert k !in Known();
    }
  }

  lemma SlotRead(slot: Slot)
    ensures SlotValue(LE(slot, 2)) == slot
  {
    LEOfTwo(slot);
  }

  /** The order and the entry as uninstall leaves them. */
  lemma UndoneOutside(t: Store)
    ensures var saved, slot := SavedOrder(t), Fetch(t, BootSlot(), 2);
            var n := if saved.Found? && saved.data != [] then Outside(t)[BootOrder() := saved.data] else Outside(t);
            Outside(DropEntry(RestoreOrder(t)))
            == if slot.Found? then n - {BootKey(SlotValue(slot.data))} else n
  {
    hide SavedOrder, BootOrder, BootSlot, BootKey, Outside, Put, Del, SlotValue;
    var u := RestoreOrder(t);
    if SavedOrder(t).Found? && SavedOrder(t).data != [] {
      OutsidePut(t, BootOrder(), SavedOrder(t).data);
      PutElsewhere(t, BootOrder(), SavedOrder(t).data);
    }
    assert Fetch(u, BootSlot(), 2) == Fetch(t, BootSlot(), 2);
    if Fetch(u, BootSlot(), 2).Found? {
      OutsideDel(u, BootKey(SlotValue(Fetch(u, BootSlot(), 2).data)));
    }
  }

  /** Prepending a slot never leaves the order as it was. */
  lemma OrderChanged(s: Store, slot: Slot)
    ensures BootOrder() in s.vars ==> LE(slot, 2) + CurrentOrder(s) != s.vars[BootOrder()]
  {
    hide LE, BootOrder;
  }

  lemma MapUndone(base: map<Key, seq<Byte>>, entry: Key, opt: seq<Byte>, order: Key, now: seq<Byte>, was: seq<Byte>)
    requires entry !in base && entry != order
    ensures var n := base[entry := opt][order := now];
            && (order in base && base[order] == was ==> n[order := was] - {entry} == base)
            && n[order := was] != base && n != base
            && (n - {entry} == base ==> order in base && base[order] == now)
  {
    var n := base[entry := opt][order := now];
    assert entry in n && entry in n[order := was];
    assert order in n - {entry} && (n - {entry})[order] == now;
  }

  /** Uninstall after a successful install restores everything outside the BRR namespace, the whole boot
      namespace included, exactly when the boot order could be read and both unchecked writes took: the backup's
      and the slot's. */
  lemma UninstallUndoesInstallIff(s: Store, e: Env)
    requires Sound(s) && NotInstalled(s) && Install(s, e).1.Installed?
    ensures Outside(Uninstall(Install(s, e).0)) == Outside(s)
       <==> e.backupOk && e.slotOk && Fetch(s, BootOrder(), ORDER_MAX).Found?
  {
    hide Install, EntryData, OrigBoot, LegacyBoot, BootEntries, BootSlot, BootOrder, BootKey, Uninstall, SavedOrder,
      LE, CurrentOrder, Put, Del, RestoreOrder, DropEntry, SlotValue;
    var t, slot := Install(s, e).0, Install(s, e).1.slot;
    InstallSound(s, e);
    InstallSaves(s, e);
    InstallSuccess(s, e);
    UninstallOutside(t);
    UndoneOutside(t);
    SlotRead(slot);
    OrderChanged(s, slot);
    var was := if SavableOrder(s).Found? then SavableOrder(s).data else [];
    MapUndone(Outside(s), BootKey(slot), EntryData(e).value, BootOrder(), LE(slot, 2) + CurrentOrder(s), was);
  }

  /** The entry a successful install creates is one the chain-loader skips as its own, so following the boot order
      never loops back. The chain-loader looks it up under the name it was written under exactly when the last two
      digits of the slot are decimal. */
  lemma InstalledEntrySkipped(s: Store, e: Env)
    requires Install(s, e).1.Installed? && AllWellFormed(e.device)
    ensures var t, slot := Install(s, e).0, Install(s, e).1.slot;
            && BootKey(slot) in t.vars && Judge(t.vars[BootKey(slot)]) == SkipSelf
            && (LoaderKey(slot) == BootKey(slot) <==> slot / 16 % 16 < 10 && slot % 16 < 10)
  {
    hide Install, Judge, BootOrder, BootKey, LoaderKey, LE, CurrentOrder, FullPath, OptionBytes, OurDescription,
      ShimPath;
    var t, slot := Install(s, e).0, Install(s, e).1.slot;
    InstallSuccess(s, e);
    OwnOptionSkipped(Prefix(e));
    SpellingsAgreeIff(slot);
    assert BootKey(slot) in Outside(t) && Outside(t)[BootKey(slot)] == EntryData(e).value;
  }

  // ------------------------------------------------------------ nothing is left

  /** The variables of the namespace the sweep cannot get to, behind a name too long to enumerate. */
  ghost function Beyond(s: Store): set<Key> {
    Ours(s.order[Reach(s.order)..])
  }

  lemma BeyondDelReached(order: seq<Key>, i: nat)
    requires Distinct(order) && i < Reach(order)
    ensures Reach(order[..i] + order[i + 1..]) == Reach(order) - 1
    ensures (order[..i] + order[i + 1..])[Reach(order) - 1..] == order[Reach(order)..]
    ensures order[i] !in order[Reach(order)..]
  {
    hide Reach, Without, Fits;
    SplitAt(order, i);
    ReachWithout(order, i);
    assert (order[..i] + order[i + 1..])[Reach(order) - 1..] == order[Reach(order)..];
    assert forall j :: Reach(order) <= j < |order| ==> order[j] != order[i];
  }

  lemma BeyondDelUnreached(order: seq<Key>, i: nat)
    requires Distinct(order) && Reach(order) <= i < |order| && Fits(order[i])
    ensures var k, r, fewer := order[i], Reach(order), order[..i] + order[i + 1..];
            Reach(fewer) == r && Ours(fewer[r..]) == Ours(order[r..]) - {k}
  {
    hide Reach, Fits;
    var k, r, fewer := order[i], Reach(order), order[..i] + order[i + 1..];
    assert !Fits(order[r]);
    ReachIs(fewer, r);
    var before, after := order[r..i], order[i + 1..];
    assert order[r..] == before + ([k] + after) && fewer[r..] == before + after;
    assert forall x :: x in before + ([k] + after) <==> x in before + after || x == k;
    assert k !in before && k !in after;
    assert forall x :: x in before + after <==> x in before || x in after;
  }

  /** Deleting a variable with a short name moves the point the sweep stops at along with it. */
  lemma OursMinus(tail: seq<Key>, k: Key)
    ensures k !in tail ==> Ours(tail) - {k} == Ours(tail)
  {
  }

  lemma NotInTail(order: seq<Key>, k: Key, r: nat)
    requires r <= |order| && k !in order
    ensures k !in order[r..]
  {
  }

  lemma TailDel(order: seq<Key>, k: Key)
    requires Distinct(order) && Fits(k)
    ensures var fewer := Without(order, k); Ours(fewer[Reach(fewer)..]) == Ours(order[Reach(order)..]) - {k}
  {
    hide Reach, Without, Fits, Ours, Distinct;
    OursMinus(order[Reach(order)..], k);
    if k !in order {
      WithoutMembers(order, k);
      NotInTail(order, k, Reach(order));
    } else {
      var i :| 0 <= i < |order| && order[i] == k;
      SplitAt(order, i);
      if i < Reach(order) {
        BeyondDelReached(order, i);
      } else {
        BeyondDelUnreached(order, i);
      }
    }
  }

  lemma BeyondDel(s: Store, k: Key)
    requires Sound(s) && Fits(k)
    ensures Beyond(Del(s, k)) == Beyond(s) - {k}
  {
    hide Reach, Without, Fits, Ours, Distinct;
    SoundOrder(s);
    TailDel(s.order, k);
  }

  lemma BeyondPut(s: Store, k: Key, data: seq<Byte>)
    requires Sound(s) && Fits(k) && k.guid != Brr && data != []
    ensures Beyond(Put(s, k, data)) == Beyond(s)
  {
    hide Reach, Fits;
    var order, r := s.order, Reach(s.order);
    if k !in s.vars {
      var more := order + [k];
      if r < |order| {
        ReachIs(more, r);
        assert more[r..] == order[r..] + [k];
      } else {
        ReachIs(more, r + 1);
      }
    }
  }

  lemma {:induction false} BeyondDropAll(s: Store, keys: seq<Key>)
    requires Sound(s) && forall k :: k in keys ==> Fits(k)
    ensures Beyond(DropAll(s, keys)) == Beyond(s) - (set k | k in keys)
  {
    hide Beyond, Fits;
    if keys != [] {
      var init, k := keys[..|keys| - 1], keys[|keys| - 1];
      assert keys == init + [k];
      BeyondDropAll(s, init);
      DropAllVars(s, init);
      BeyondDel(DropAll(s, init), k);
      assert forall x :: x in keys <==> x in init || x == k;
    }
  }

  lemma BeyondRestore(s: Store)
    requires Sound(s)
    ensures Beyond(DropEntry(RestoreOrder(s))) == Beyond(s)
  {
    hide Beyond, Sound, Put, Del;
    match SavedOrder(s) {
      case Found(order) =>
        PutIfSound(order != [], s, BootOrder(), order);
        if order != [] {
          BeyondPut(s, BootOrder(), order);
        }
      case _ =>
    }
    var t := RestoreOrder(s);
    match Fetch(t, BootSlot(), 2) {
      case Found(slot) =>
        BeyondDel(t, BootKey(SlotValue(slot)));
        assert BootKey(SlotValue(slot)) !in Beyond(t) by { BeyondOurs(t); }
      case _ =>
    }
  }

  lemma BeyondOurs(s: Store)
    ensures forall k :: k in Beyond(s) ==> k.guid == Brr
  {
  }

  /** What uninstall leaves of the namespace: exactly the variables it has no name for that are enumerated behind
      a name too long for its buffer. With no such name, nothing is left. */
  lemma UninstallLeftovers(s: Store)
    requires Sound(s)
    ensures forall k: Key :: k.guid == Brr ==> (k in Uninstall(s).vars <==> k in Beyond(s) && k !in Known())
    ensures (forall k :: k in s.vars ==> Fits(k)) ==> forall k: Key :: k.guid == Brr ==> k !in Uninstall(s).vars
  {
    hide Sound, RestoreOrder, DropEntry, Known, Reach, Swept, DropAll;
    RestoreSound(s);
    BeyondRestore(s);
    KnownKeys();
    var t := DropEntry(RestoreOrder(s));
    BeyondDropAll(t, Known());
    DropAllVars(t, Known());
    var u := DropAll(t, Known());
    LeftBehind(u);
    SoundMembers(s);
  }

  lemma LeftBehind(s: Store)
    requires Sound(s)
    ensures forall k: Key :: k.guid == Brr ==> (k in Swept(s).vars <==> k in Beyond(s))
  {
    hide Reach, Swept;
    SweepExact(s);
    assert forall k :: k in s.order[Reach(s.order)..] ==> k in s.order;
  }

  lemma SoundMembers(s: Store)
    requires Sound(s)
    ensures forall k :: k in s.order <==> k in s.vars
  {
  }

  /** Uninstalling twice is uninstalling once. */
  lemma UninstallTwice(s: Store)
    requires Sound(s)
    ensures Uninstall(Uninstall(s)) == Uninstall(s)
  {
    hide Sound, RestoreOrder, DropEntry, Known, Reach, Swept, DropAll;
    RestoreSound(s);
    KnownKeys();
    var u := DropAll(DropEntry(RestoreOrder(s)), Known());
    DropAllVars(DropEntry(RestoreOrder(s)), Known());
    SweepExact(u);
    SweepTwice(u);
    var v := Swept(u);
    assert forall k :: k in Known() ==> k !in v.vars;
    NothingSaved(v);
    DropNothing(v, Known());
  }

  lemma NothingSaved(s: Store)
    requires OrigBoot() !in s.vars && LegacyBoot() !in s.vars && BootSlot() !in s.vars
    ensures DropEntry(RestoreOrder(s)) == s
  {
  }

  lemma {:induction false} DropNothing(s: Store, keys: seq<Key>)
    requires Sound(s) && forall k :: k in keys ==> k !in s.vars
    ensures DropAll(s, keys) == s
  {
    if keys != [] {
      var init, k := keys[..|keys| - 1], keys[|keys| - 1];
      assert keys == init + [k];
      DropNothing(s, init);
      WithoutMembers(s.order, k);
      assert s.vars - {k} == s.vars;
    }
  }

  /** Outside the boot namespace uninstall only deletes. */
  lemma UninstallShrinks(s: Store, k: Key)
    requires Sound(s) && k.guid != Global
    ensures k in Uninstall(s).vars ==> k in s.vars && Uninstall(s).vars[k] == s.vars[k]
  {
    hide Sound, Swept, Known, BootOrder, BootKey, SavedOrder, SlotValue;
    RestoreSound(s);
    var t := DropEntry(RestoreOrder(s));
    DropAllVars(t, Known());
    SweepExact(DropAll(t, Known()));
  }
}
