/** Installing the mask shim and taking it out again, as updates of the firmware's variables. */
module MaskOps {
  import opened Common
  import opened Bytes
  import opened Nvram
  import opened Sweep
  import opened VarNames
  import opened LoadOption
  import opened BootList

  const ORDER_MAX: nat := 512
  const FIRST_SLOT: nat := 0x100
  const LAST_SLOT: nat := 0x1FF

  /** What the environment decides: which steps and writes succeed, and the device the shim was copied to. `pool`
      and `spare` are the two attempts to allocate its path. */
  datatype Env = Env(usb: bool, esp: bool, entriesOk: bool, backupOk: bool, copied: bool,
                     device: seq<Node>, pool: bool, spare: bool,
                     entryOk: bool, slotOk: bool, orderOk: bool, stateOk: bool)

  datatype Outcome = Installed(slot: Slot) | NoUsb | NoEsp | CopyFailed | EntryFailed | OrderFailed

  function PutIf(ok: bool, s: Store, k: Key, data: seq<Byte>): Store {
    if ok then Put(s, k, data) else s
  }

  // ------------------------------------------------------------------ install

  /** The existing boot entries (not written when there are none). */
  function SaveEntries(s: Store, e: Env): Store {
    PutIf(e.entriesOk && SavedList(s.order) != [], s, BootEntries(), SavedList(s.order))
  }

  function SaveOrder(s: Store, e: Env): Store {
    match Fetch(s, BootOrder(), ORDER_MAX)
    case Found(order) => PutIf(e.backupOk && order != [], s, OrigBoot(), order)
    case _ => s
  }

  /** The first slot from `slot` on without a variable; the limit when all are taken. */
  function FreeSlot(s: Store, slot: Slot): (r: Slot)
    requires slot <= LAST_SLOT
    ensures slot <= r <= LAST_SLOT && (r < LAST_SLOT ==> BootKey(r) !in s.vars)
    ensures forall v :: slot <= v < r ==> BootKey(v) in s.vars
    decreases LAST_SLOT - slot
  {
    if slot == LAST_SLOT || BootKey(slot) !in s.vars then slot else FreeSlot(s, slot + 1)
  }

  /** The prefix of the path: the device's own, nothing on the spare allocation. */
  function Prefix(e: Env): seq<Node> {
    if e.pool then e.device else []
  }

  /** The load option, unless there is no memory or the option is too long. */
  function EntryData(e: Env): Option<seq<Byte>> {
    if !e.pool && !e.spare then None
    else
      var path := FullPath(Prefix(e), ShimPath());
      if 6 + 2 * (|OurDescription()| + 1) + |path| > OPTION_MAX then None
      else Some(OptionBytes(OurDescription(), path))
  }

  /** The boot order the new slot is put in front of: whole entries only, none when it cannot be read. */
  function CurrentOrder(s: Store): (o: seq<Byte>)
    ensures |o| % 2 == 0
  {
    match Fetch(s, BootOrder(), ORDER_MAX)
    case Found(order) => order[..|order| / 2 * 2]
    case _ => []
  }

  function Rollback(s: Store): Store {
    Del(Del(s, OrigBoot()), BootEntries())
  }

  function Backed(s: Store, e: Env): Store {
    SaveOrder(SaveEntries(s, e), e)
  }

  function Ordered(s: Store, e: Env, slot: Slot): Store {
    var s1 := PutIf(e.slotOk, s, BootSlot(), LE(slot, 2));
    PutIf(e.stateOk, Put(s1, BootOrder(), LE(slot, 2) + CurrentOrder(s1)), MaskState(), Unconfirmed())
  }

  function Unordered(s: Store, e: Env, slot: Slot): Store {
    Rollback(Del(Del(PutIf(e.slotOk, s, BootSlot(), LE(slot, 2)), BootKey(slot)), BootSlot()))
  }

  function Install(s: Store, e: Env): (Store, Outcome) {
    if !e.usb then (s, NoUsb)
    else if !e.esp then (s, NoEsp)
    else
      var b := Backed(s, e);
      if !e.copied then (Rollback(b), CopyFailed)
      else
        var opt, slot := EntryData(e), FreeSlot(b, FIRST_SLOT);
        if opt.None? || slot == LAST_SLOT || !e.entryOk then (Rollback(b), EntryFailed)
        else
          var s1 := Put(b, BootKey(slot), opt.value);
          if e.orderOk then (Ordered(s1, e, slot), Installed(slot))
          else (Unordered(s1, e, slot), OrderFailed)
  }

  method SaveExistingBootEntries(nv: Nvram, e: Env)
    requires nv.Valid()
    modifies nv
    ensures nv.Valid() && nv.State() == SaveEntries(old(nv.State()), e)
  {
    hide Sound, SavedList;
    ghost var s := nv.State();
    var list := ListBootEntries(nv);
    assert nv.State() == s;
    if list != [] {
      var _ := nv.SetVariable(BootEntries(), list, e.entriesOk);
    }
  }

  /** The backup of the boot order. */
  method BackupBootOrder(nv: Nvram, e: Env)
    requires nv.Valid()
    modifies nv
    ensures nv.Valid() && nv.State() == SaveOrder(old(nv.State()), e)
  {
    var so := nv.GetVariable(BootOrder(), ORDER_MAX);
    if so.Found? && |so.data| > 0 {
      var _ := nv.SetVariable(OrigBoot(), so.data, e.backupOk);
    }
  }

  method DeleteBackups(nv: Nvram)
    requires nv.Valid()
    modifies nv
    ensures nv.Valid() && nv.State() == Rollback(old(nv.State()))
  {
    var _ := nv.SetVariable(OrigBoot(), [], true);
    var _ := nv.SetVariable(BootEntries(), [], true);
  }

  method FindFreeSlot(nv: Nvram) returns (v: Slot)
    ensures v == FreeSlot(nv.State(), FIRST_SLOT)
  {
    hide BootKey;
    v := FIRST_SLOT;
    while v < LAST_SLOT
      invariant v <= LAST_SLOT && FreeSlot(nv.State(), v) == FreeSlot(nv.State(), FIRST_SLOT)
    {
      var probe := nv.GetVariable(BootKey(v), 0);
      if probe.NotFound? {
        break;
      }
      v := v + 1;
    }
  }

  /** The slot search and the entry write. */
  method InstallBootEntry(nv: Nvram, e: Env) returns (slot: Option<Slot>)
    requires nv.Valid() && AllWellFormed(e.device)
    modifies nv
    ensures var s, opt, free := old(nv.State()), EntryData(e), FreeSlot(old(nv.State()), FIRST_SLOT);
            && nv.Valid()
            && slot == (if opt.None? || free == LAST_SLOT || !e.entryOk then None else Some(free))
            && nv.State() == if slot.Some? then Put(s, BootKey(free), opt.value) else s
  {
    hide OptionBytes, Sound, OurDescription, ShimPath, FreeSlot, Put, BootKey, FullPath, PathBytes, LE;
    ghost var s := nv.State();
    if !e.pool && !e.spare {
      return None;
    }
    var nodes := Prefix(e);
    var path := BuildFullPath(Some(PathBytes(nodes) + END), nodes, ShimPath());
    var data := BuildOption(OurDescription(), path);
    assert nv.State() == s && data == EntryData(e);
    if data.None? {
      return None;
    }
    var v := FindFreeSlot(nv);
    if v >= LAST_SLOT {
      return None;
    }
    assert data.value != [] by { OptionNotEmpty(OurDescription(), path); }
    var done := nv.SetVariable(BootKey(v), data.value, e.entryOk);
    slot := if done then Some(v) else None;
  }

  lemma OptionNotEmpty(desc: seq<Unit>, dp: seq<Byte>)
    ensures OptionBytes(desc, dp) != []
  {
  }

  method PrependBootOrder(nv: Nvram, slot: Slot, ok: bool) returns (done: bool)
    requires nv.Valid()
    modifies nv
    ensures nv.Valid() && done == ok
    ensures var s := old(nv.State()); nv.State() == PutIf(ok, s, BootOrder(), LE(slot, 2) + CurrentOrder(s))
  {
    var current := nv.GetVariable(BootOrder(), ORDER_MAX);
    var kept := if current.Found? then current.data[..|current.data| / 2 * 2] else [];
    done := nv.SetVariable(BootOrder(), LE(slot, 2) + kept, ok);
  }

  /** The transaction with its hand-written rollback. */
  method InstallMaskFull(nv: Nvram, e: Env) returns (o: Outcome)
    requires nv.Valid() && AllWellFormed(e.device)
    modifies nv
    ensures nv.Valid() && (nv.State(), o) == Install(old(nv.State()), e)
  {
    hide Sound, Rollback, SaveOrder, FreeSlot, EntryData, Unconfirmed, CurrentOrder, LE, Put, Del;
    if !e.usb {
      return NoUsb;
    }
    if !e.esp {
      return NoEsp;
    }
    SaveExistingBootEntries(nv, e);
    BackupBootOrder(nv, e);
    if !e.copied {
      DeleteBackups(nv);
      return CopyFailed;
    }
    var entry := InstallBootEntry(nv, e);
    if entry.None? {
      DeleteBackups(nv);
      return EntryFailed;
    }
    var slot := entry.value;
    var _ := nv.SetVariable(BootSlot(), LE(slot, 2), e.slotOk);
    var ordered := PrependBootOrder(nv, slot, e.orderOk);
    if !ordered {
      EmptyWrite(nv.State(), BootKey(slot));
      var _ := nv.SetVariable(BootKey(slot), [], true);
      EmptyWrite(nv.State(), BootSlot());
      var _ := nv.SetVariable(BootSlot(), [], true);
      DeleteBackups(nv);
      return OrderFailed;
    }
    var _ := nv.SetVariable(MaskState(), Unconfirmed(), e.stateOk);
    return Installed(slot);
  }

  lemma EmptyWrite(s: Store, k: Key)
    ensures Put(s, k, []) == Del(s, k)
  {
  }

  // ---------------------------------------------------------------- uninstall

  /** The saved order, read under its current name or, failing that, its old one. */
  function SavedOrder(s: Store): Read {
    var r := Fetch(s, OrigBoot(), ORDER_MAX);
    if r.Found? && r.data != [] then r else Fetch(s, LegacyBoot(), ORDER_MAX)
  }

  function RestoreOrder(s: Store): Store {
    match SavedOrder(s)
    case Found(order) => PutIf(order != [], s, BootOrder(), order)
    case _ => s
  }

  function DropEntry(s: Store): Store {
    match Fetch(s, BootSlot(), 2)
    case Found(slot) => Del(s, BootKey(SlotValue(slot)))
    case _ => s
  }

  function SlotValue(data: seq<Byte>): Slot
    requires |data| <= 2
  {
    if |data| == 0 then 0 else if |data| == 1 then data[0] else (data[0] as nat) + 256 * (data[1] as nat)
  }

  function DropAll(s: Store, keys: seq<Key>): Store {
    if keys == [] then s else Del(DropAll(s, keys[..|keys| - 1]), keys[|keys| - 1])
  }

  ghost function Uninstall(s: Store): Store {
    Swept(DropAll(DropEntry(RestoreOrder(s)), Known()))
  }

  method RestoreBootOrder(nv: Nvram)
    requires nv.Valid()
    modifies nv
    ensures nv.Valid() && nv.State() == RestoreOrder(old(nv.State()))
  {
    var r := nv.GetVariable(OrigBoot(), ORDER_MAX);
    if !r.Found? || |r.data| == 0 {
      r := nv.GetVariable(LegacyBoot(), ORDER_MAX);
    }
    if r.Found? && |r.data| > 0 {
      var _ := nv.SetVariable(BootOrder(), r.data, true);
    }
  }

  method DeleteBootEntry(nv: Nvram)
    requires nv.Valid()
    modifies nv
    ensures nv.Valid() && nv.State() == DropEntry(old(nv.State()))
  {
    var r := nv.GetVariable(BootSlot(), 2);
    if r.Found? {
      var _ := nv.SetVariable(BootKey(SlotValue(r.data)), [], true);
    }
  }

  method UninstallMaskFull(nv: Nvram)
    requires nv.Valid()
    modifies nv
    ensures nv.Valid() && nv.State() == Uninstall(old(nv.State()))
  {
    hide Sound, RestoreOrder, DropEntry, Swept, Known, Del;
    RestoreBootOrder(nv);
    DeleteBootEntry(nv);
    ghost var s := nv.State();
    var known := Known();
    for i := 0 to |known|
      invariant nv.Valid() && nv.State() == DropAll(s, known[..i])
    {
      EmptyWrite(nv.State(), known[i]);
      var _ := nv.SetVariable(known[i], [], true);
      assert known[..i + 1][..i] == known[..i];
    }
    assert known[..|known|] == known;
    SweepAll(nv);
  }
}
