/** The four-slot error-burst detector hooked into the tester's error path. */
module BurstDetector {
  import opened Common
  import opened BadmemLog

  const LRU_SLOTS: nat := 4
  const RUN_MAX: nat := 255
  const BURST: nat := 8
  const PASS_LIMIT: nat := 16

  datatype Slot = Slot(base: nat, run: nat)
  datatype Detector = Detector(slots: seq<Slot>, next: nat, bail: bool)

  const INITIAL := Detector([Slot(0, 0), Slot(0, 0), Slot(0, 0), Slot(0, 0)], 0, false)

  function MibBase(addr: nat): nat {
    addr - addr % MIB
  }

  /** Index of the first live slot for this MiB, or |slots|. */
  function FindSlot(slots: seq<Slot>, base: nat): (i: nat)
    ensures i <= |slots|
    ensures i < |slots| ==> slots[i].base == base && slots[i].run > 0
    ensures forall j :: 0 <= j < i ==> !(slots[j].base == base && slots[j].run > 0)
  {
    if slots == [] || (slots[0].base == base && slots[0].run > 0) then 0 else 1 + FindSlot(slots[1..], base)
  }

  ghost predicate Sane(d: Detector) {
    |d.slots| == LRU_SLOTS && d.next < LRU_SLOTS && forall i :: 0 <= i < LRU_SLOTS ==> d.slots[i].run <= RUN_MAX
  }

  /** The slot an error in this MiB lands in: the live one, or the next to be evicted. */
  function SlotFor(d: Detector, base: nat): (i: nat)
    requires Sane(d)
    ensures i < LRU_SLOTS
  {
    var f := FindSlot(d.slots, base);
    if f < LRU_SLOTS then f else d.next
  }

  /** Slot search, eviction and run count. */
  function Count(d: Detector, base: nat): (r: Detector)
    requires Sane(d)
    ensures Sane(r)
  {
    var f := FindSlot(d.slots, base);
    if f < LRU_SLOTS then d.(slots := d.slots[f := Slot(base, Min(d.slots[f].run + 1, RUN_MAX))])
    else d.(slots := d.slots[d.next := Slot(base, 1)], next := (d.next + 1) % LRU_SLOTS)
  }

  /** The eighth error of a run, unless the test is already bailing out. */
  predicate Triggers(d: Detector, base: nat)
    requires Sane(d)
  {
    Count(d, base).slots[SlotFor(d, base)].run == BURST && !d.bail
  }

  /** One error report: `counted` is false for the error types the detector ignores. */
  function Step(d: Detector, counted: bool, addr: nat, errorCount: nat): (r: Detector)
    requires Sane(d)
    ensures Sane(r)
  {
    var base := MibBase(addr);
    var c := if !counted then d
             else if Triggers(d, base) then
               Count(d, base).(slots := Count(d, base).slots[SlotFor(d, base) := Slot(0, 0)], bail := true)
             else Count(d, base);
    if errorCount >= PASS_LIMIT then c.(bail := true) else c
  }

  class Burst {
    const lru: array<Slot>
    var next: nat
    var bail: bool

    ghost predicate Valid()
      reads this, lru
    {
      lru.Length == LRU_SLOTS && next < LRU_SLOTS && forall i :: 0 <= i < LRU_SLOTS ==> lru[i].run <= RUN_MAX
    }

    ghost function State(): (d: Detector)
      reads this, lru
      requires Valid()
      ensures Sane(d)
    {
      Detector(lru[..], next, bail)
    }

    constructor ()
      ensures Valid() && fresh(lru) && State() == INITIAL
    {
      lru := new Slot[LRU_SLOTS](_ => Slot(0, 0));
      next, bail := 0, false;
      new;
      assert lru[..] == INITIAL.slots;
    }

    /** The search loop and the eviction. */
    method Claim(base: nat) returns (slot: nat)
      requires Valid()
      modifies this`next, lru
      ensures Valid() && bail == old(bail) && slot == SlotFor(old(State()), base)
      ensures lru[slot].base == base
      ensures State().(slots := lru[..][slot := Slot(base, Min(lru[slot].run + 1, RUN_MAX))])
           == Count(old(State()), base)
    {
      for i := 0 to LRU_SLOTS
        invariant forall j :: 0 <= j < i ==> !(lru[j].base == base && lru[j].run > 0)
      {
        if lru[i].base == base && lru[i].run > 0 {
          assert FindSlot(lru[..], base) == i;
          return i;
        }
      }
      assert FindSlot(lru[..], base) == LRU_SLOTS;
      slot := next;
      next := (next + 1) % LRU_SLOTS;
      lru[slot] := Slot(base, 0);
    }

    /** The detector's part of one error report; a burst adds its MiB to the skip list. */
    method Report(counted: bool, addr: nat, errorCount: nat, skips: SkipList)
      requires Valid() && skips.Valid()
      modifies this`next, this`bail, lru, skips`count, skips.table
      ensures Valid() && skips.Valid()
      ensures State() == Step(old(State()), counted, addr, errorCount)
      ensures var base := MibBase(addr);
              skips.Contents() == if counted && Triggers(old(State()), base)
                                  then AddSkip(old(skips.Contents()), base, base + MIB)
                                  else old(skips.Contents())
    {
      if counted {
        var base := MibBase(addr);
        var slot := Claim(base);
        if lru[slot].run < RUN_MAX {
          lru[slot] := Slot(lru[slot].base, lru[slot].run + 1);
        }
        assert State() == Count(old(State()), base);
        if lru[slot].run == BURST && !bail {
          skips.Add(base, base + MIB);
          bail := true;
          lru[slot] := Slot(0, 0);
        }
      }
      if errorCount >= PASS_LIMIT && !bail {
        bail := true;
      }
    }

    /** Upstream clears the flag when the next test starts. */
    method ClearBail()
      requires Valid()
      modifies this`bail
      ensures Valid() && State() == old(State()).(bail := false)
    {
      bail := false;
    }
  }

  // ------------------------------------------------------------- whole runs

  datatype Event = Error(counted: bool, addr: nat, errorCount: nat) | ClearBail

  function Apply(d: Detector, e: Event): (r: Detector)
    requires Sane(d)
    ensures Sane(r)
  {
    match e
    case Error(counted, addr, n) => Step(d, counted, addr, n)
    case ClearBail => d.(bail := false)
  }

  function Run(h: seq<Event>): (d: Detector)
    ensures Sane(d)
  {
    if h == [] then INITIAL else Apply(Run(h[..|h| - 1]), h[|h| - 1])
  }

  predicate Hit(e: Event, base: nat) {
    e.Error? && e.counted && MibBase(e.addr) == base
  }

  /** Errors reported in this MiB. */
  function Errors(h: seq<Event>, base: nat): nat {
    if h == [] then 0 else Errors(h[..|h| - 1], base) + if Hit(h[|h| - 1], base) then 1 else 0
  }

  /** How often this MiB was sent to the skip list. */
  function Bursts(h: seq<Event>, base: nat): nat {
    if h == [] then 0
    else Bursts(h[..|h| - 1], base) + if Hit(h[|h| - 1], base) && Triggers(Run(h[..|h| - 1]), base) then 1 else 0
  }

  ghost predicate Live(d: Detector, i: nat)
    requires Sane(d) && i < LRU_SLOTS
  {
    d.slots[i].run > 0
  }

  ghost predicate DistinctLive(d: Detector)
    requires Sane(d)
  {
    forall i, j :: 0 <= i < j < LRU_SLOTS && Live(d, i) && Live(d, j) ==> d.slots[i].base != d.slots[j].base
  }

  /** Whether this event takes slot `i` over for a new MiB. */
  predicate Claims(d: Detector, e: Event, i: nat)
    requires Sane(d)
  {
    e.Error? && e.counted && FindSlot(d.slots, MibBase(e.addr)) == LRU_SLOTS && d.next == i
  }

  /** How much of the history had passed when slot `i` was last claimed. */
  function ClaimedAt(h: seq<Event>, i: nat): (c: nat)
    ensures c <= |h|
  {
    if h == [] then 0
    else if Claims(Run(h[..|h| - 1]), h[|h| - 1], i) then |h| - 1
    else ClaimedAt(h[..|h| - 1], i)
  }

  lemma LiveSlotFound(d: Detector, i: nat)
    requires Sane(d) && DistinctLive(d) && i < LRU_SLOTS && Live(d, i)
    ensures FindSlot(d.slots, d.slots[i].base) == i
  {
    var f := FindSlot(d.slots, d.slots[i].base);
    assert f <= i;
    assert Live(d, f);
  }

  lemma CountKeepsDistinct(d: Detector, base: nat)
    requires Sane(d) && DistinctLive(d)
    ensures DistinctLive(Count(d, base))
  {
    var c, s := Count(d, base), SlotFor(d, base);
    forall i, j | 0 <= i < j < LRU_SLOTS && Live(c, i) && Live(c, j) ensures c.slots[i].base != c.slots[j].base {
      if i != s {
        assert c.slots[i] == d.slots[i] && Live(d, i);
      }
      if j != s {
        assert c.slots[j] == d.slots[j] && Live(d, j);
      }
    }
  }

  /** What one event does to one slot. */
  lemma SlotAfter(d: Detector, e: Event, i: nat)
    requires Sane(d) && i < LRU_SLOTS
    ensures var r := Apply(d, e);
            if e.ClearBail? || !e.counted || SlotFor(d, MibBase(e.addr)) != i then r.slots[i] == d.slots[i]
            else if Triggers(d, MibBase(e.addr)) then r.slots[i] == Slot(0, 0)
            else r.slots[i] == Count(d, MibBase(e.addr)).slots[i]
  {
  }

  /** Live slots have distinct bases, after any run. */
  lemma {:induction false} SlotsDistinct(h: seq<Event>)
    ensures DistinctLive(Run(h))
  {
    if h != [] {
      var d, e, r := Run(h[..|h| - 1]), h[|h| - 1], Run(h);
      SlotsDistinct(h[..|h| - 1]);
      if e.Error? && e.counted {
        CountKeepsDistinct(d, MibBase(e.addr));
      }
      forall i, j | 0 <= i < j < LRU_SLOTS && Live(r, i) && Live(r, j) ensures r.slots[i].base != r.slots[j].base {
        SlotAfter(d, e, i);
        SlotAfter(d, e, j);
        if e.Error? && e.counted {
          var c := Count(d, MibBase(e.addr));
          assert Live(c, i) && Live(c, j);
        } else {
          assert Live(d, i) && Live(d, j);
        }
      }
    }
  }

  lemma {:induction false} ErrorsSplit(h: seq<Event>, from: nat, base: nat)
    requires from < |h|
    ensures Errors(h[from..], base) == Errors(h[..|h| - 1][from..], base) + if Hit(h[|h| - 1], base) then 1 else 0
  {
    var t := h[from..];
    assert t[..|t| - 1] == h[..|h| - 1][from..];
  }

  /** Each live run count is the number of errors seen in its MiB since the slot was claimed, saturating. */
  lemma {:induction false} RunCountsErrors(h: seq<Event>, i: nat)
    requires i < LRU_SLOTS && Live(Run(h), i)
    ensures Run(h).slots[i].run == Min(Errors(h[ClaimedAt(h, i)..], Run(h).slots[i].base), RUN_MAX)
  {
    var front, e := h[..|h| - 1], h[|h| - 1];
    var d, base := Run(front), Run(h).slots[i].base;
    SlotAfter(d, e, i);
    SlotsDistinct(front);
    if Claims(d, e, i) {
      ErrorsSplit(h, |h| - 1, base);
      assert front[|h| - 1..] == [];
    } else {
      assert Live(d, i) && d.slots[i].base == base;
      LiveSlotFound(d, i);
      RunCountsErrors(front, i);
      ErrorsSplit(h, ClaimedAt(front, i), base);
    }
  }

  /** The run count a MiB currently has in the table, zero when it has no slot. */
  function Pending(d: Detector, base: nat): nat
    requires Sane(d)
  {
    var f := FindSlot(d.slots, base);
    if f < LRU_SLOTS then d.slots[f].run else 0
  }

  lemma PendingAfter(d: Detector, e: Event, base: nat)
    requires Sane(d) && DistinctLive(d)
    ensures Hit(e, base) && Triggers(d, base) ==> Pending(d, base) == BURST - 1
    ensures Hit(e, base) && Triggers(d, base) ==> Pending(Apply(d, e), base) == 0
    ensures Pending(Apply(d, e), base) <= Pending(d, base) + if Hit(e, base) then 1 else 0
  {
    hide Apply, Triggers;
    TriggersAtSeven(d, base);
    var r := Apply(d, e);
    var f := FindSlot(r.slots, base);
    if f < LRU_SLOTS {
      SlotAfter(d, e, f);
      if Live(d, f) {
        LiveSlotFound(d, f);
      }
    }
    if Hit(e, base) && Triggers(d, base) {
      TriggerClears(d, e, base);
    }
  }

  /** A trigger frees the slot. */
  lemma TriggerClears(d: Detector, e: Event, base: nat)
    requires Sane(d) && DistinctLive(d) && Hit(e, base) && Triggers(d, base)
    ensures Pending(Apply(d, e), base) == 0
  {
    var r, s := Apply(d, e), SlotFor(d, base);
    TriggersAtSeven(d, base);
    forall j | 0 <= j < LRU_SLOTS ensures !(r.slots[j].base == base && r.slots[j].run > 0) {
      SlotAfter(d, e, j);
      if j != s && Live(d, j) && d.slots[j].base == base {
        LiveSlotFound(d, j);
      }
    }
  }

  /** A counted error that does not trigger adds one to its MiB's run, up to saturation. */
  lemma PendingHit(d: Detector, e: Event, base: nat)
    requires Sane(d) && DistinctLive(d) && Hit(e, base) && !Triggers(d, base)
    ensures Pending(Apply(d, e), base) == Min(Pending(d, base) + 1, RUN_MAX)
  {
    var r, s := Apply(d, e), SlotFor(d, base);
    CountKeepsDistinct(d, base);
    assert r.slots == Count(d, base).slots;
    assert r.slots[s].base == base && Live(r, s);
    LiveSlotFound(r, s);
  }

  lemma TriggersAtSeven(d: Detector, base: nat)
    requires Sane(d)
    ensures Triggers(d, base) <==> Pending(d, base) == BURST - 1 && !d.bail
  {
  }

  /** Over every run: an error sends its MiB to the skip list exactly when no bail-out is under way and it is the
      eighth error of that MiB since the live slot for it was claimed. */
  lemma TriggersIff(h: seq<Event>, base: nat)
    ensures Triggers(Run(h), base)
       <==> && !Run(h).bail
            && exists i :: 0 <= i < LRU_SLOTS && Live(Run(h), i) && Run(h).slots[i].base == base
                 && Errors(h[ClaimedAt(h, i)..], base) == BURST - 1
  {
    hide Run, Errors, ClaimedAt, Triggers, Count;
    var d := Run(h);
    TriggersAtSeven(d, base);
    SlotsDistinct(h);
    var f := FindSlot(d.slots, base);
    if f < LRU_SLOTS {
      RunCountsErrors(h, f);
    }
    forall i | 0 <= i < LRU_SLOTS && Live(d, i) && d.slots[i].base == base
      ensures i == f && d.slots[i].run == Min(Errors(h[ClaimedAt(h, i)..], base), RUN_MAX)
    {
      LiveSlotFound(d, i);
      RunCountsErrors(h, i);
    }
  }

  /** Whether this event evicts the slot that holds the MiB. */
  predicate Evicts(d: Detector, e: Event, base: nat)
    requires Sane(d)
  {
    Claims(d, e, d.next) && d.slots[d.next].base == base && d.slots[d.next].run > 0
  }

  lemma PassedStep(d: Detector, e: Event, base: nat)
    requires Sane(d) && DistinctLive(d) && Pending(d, base) >= BURST && !Evicts(d, e, base)
    ensures Pending(Apply(d, e), base) >= BURST
  {
    var r, f := Apply(d, e), FindSlot(d.slots, base);
    if e.Error? && e.counted {
      CountKeepsDistinct(d, MibBase(e.addr));
    }
    TriggersAtSeven(d, base);
    SlotAfter(d, e, f);
    assert r.slots[f].base == base && r.slots[f].run >= BURST;
    forall j | 0 <= j < f ensures !(r.slots[j].base == base && r.slots[j].run > 0) {
      SlotAfter(d, e, j);
    }
    FoundAt(r.slots, base, f);
  }

  lemma {:induction false} FoundAt(s: seq<Slot>, base: nat, f: nat)
    requires f < |s| && s[f].base == base && s[f].run > 0
    requires forall j :: 0 <= j < f ==> !(s[j].base == base && s[j].run > 0)
    ensures FindSlot(s, base) == f
  {
    if f > 0 {
      FoundAt(s[1..], base, f - 1);
    }
  }

  /** An eighth error that falls into a bail-out is only counted. */
  lemma MissedAtEight(h: seq<Event>, e: Event, base: nat)
    requires Hit(e, base) && Run(h).bail && Pending(Run(h), base) == BURST - 1
    ensures Pending(Run(h + [e]), base) == BURST
  {
    hide Run, Pending, Triggers;
    SlotsDistinct(h);
    TriggersAtSeven(Run(h), base);
    PendingHit(Run(h), e, base);
    assert (h + [e])[..|h|] == h;
    RunOneMore(h + [e], h);
  }

  /** A MiB whose eighth error fell into a bail-out is not sent to the skip list by any later error, through every
      continuation of the run, until its slot is evicted. */
  lemma {:induction false} PassedStaysPassed(h: seq<Event>, more: seq<Event>, base: nat)
    requires Pending(Run(h), base) >= BURST
    requires forall j :: 0 <= j < |more| ==> !Evicts(Run(h + more[..j]), more[j], base)
    ensures Pending(Run(h + more), base) >= BURST && !Triggers(Run(h + more), base)
  {
    hide Run, Pending, Triggers, Evicts;
    if more == [] {
      assert h + more == h;
    } else {
      var front, last := more[..|more| - 1], |more| - 1;
      forall j | 0 <= j < |front| ensures !Evicts(Run(h + front[..j]), front[j], base) {
        assert front[..j] == more[..j];
      }
      PassedStaysPassed(h, front, base);
      SlotsDistinct(h + front);
      PassedStep(Run(h + front), more[last], base);
      RunOneMore(h + more, h + front);
    }
    TriggersAtSeven(Run(h + more), base);
  }

  lemma RunOneMore(h: seq<Event>, front: seq<Event>)
    requires h != [] && front == h[..|h| - 1]
    ensures Run(h) == Apply(Run(front), h[|h| - 1])
  {
  }

  /** Every time a MiB was sent to the skip list, eight more errors had been reported in it. */
  lemma {:induction false} BurstsEarned(h: seq<Event>, base: nat)
    ensures BURST * Bursts(h, base) + Pending(Run(h), base) <= Errors(h, base)
  {
    if h != [] {
      BurstsEarned(h[..|h| - 1], base);
      SlotsDistinct(h[..|h| - 1]);
      PendingAfter(Run(h[..|h| - 1]), h[|h| - 1], base);
    }
  }
}
