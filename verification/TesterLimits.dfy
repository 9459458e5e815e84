/** Where the tester's promise ends: runs whose skips fill or overrun the work lists, and a run that fills the page log.
    Every error is the only one of its test and the next test clears the bail-out, so the runs go as told whatever the
    error counter shows at each of them; `counts` is its value by the number of errors before. */
module TesterLimits {
  import opened Common
  import opened Intervals
  import opened BadmemLog
  import opened BurstDetector
  import opened Prune
  import opened VmMap
  import opened MaskPages
  import TesterRun

  /** `n` counted errors at one address, the first of them error `from` of the run. */
  function Burst(addr: nat, n: nat, counts: nat -> nat, from: nat): seq<Event> {
    if n == 0 then [] else Burst(addr, n - 1, counts, from) + [Error(true, addr, counts(from + n - 1)), ClearBail]
  }

  lemma {:induction false} SameDetector(h: seq<Event>)
    ensures TesterRun.Run(h).burst == Run(h)
  {
    hide Step, Triggers, RecordPage, AddSkip;
    if h != [] {
      SameDetector(h[..|h| - 1]);
    }
  }

  lemma RunMore(h: seq<Event>, e: Event)
    ensures Run(h + [e]) == Apply(Run(h), e)
    ensures forall base :: Errors(h + [e], base) == Errors(h, base) + if Hit(e, base) then 1 else 0
    ensures var t := TesterRun.Run(h);
            TesterRun.Run(h + [e]) == match e
              case Error(counted, addr, n) => TesterRun.Report(t, counted, addr, n)
              case ClearBail => t.(burst := t.burst.(bail := false))
  {
    assert (h + [e])[..|h|] == h;
  }

  /** One error and the next test. */
  lemma OneTest(h: seq<Event>, addr: nat, n: nat)
    ensures var e, base, r := Error(true, addr, n), MibBase(addr), h + [Error(true, addr, n), ClearBail];
            && Run(r) == Apply(Run(h), e).(bail := false)
            && (forall b :: Errors(r, b) == Errors(h, b) + if b == base then 1 else 0)
            && TesterRun.Run(r).pages == RecordPage(TesterRun.Run(h).pages, addr)
            && TesterRun.Run(r).skips == if Triggers(Run(h), base)
                                         then AddSkip(TesterRun.Run(h).skips, base, base + MIB)
                                         else TesterRun.Run(h).skips
  {
    hide Run, Errors, TesterRun.Run, AddSkip, RecordPage, Triggers, Step, MibBase;
    var e := Error(true, addr, n);
    RunMore(h, e);
    RunMore(h + [e], ClearBail);
    SameDetector(h);
    assert h + [e, ClearBail] == h + [e] + [ClearBail];
  }

  lemma BurstGrows(h: seq<Event>, addr: nat, n: nat, counts: nat -> nat, from: nat)
    requires n > 0
    ensures h + Burst(addr, n, counts, from)
         == h + Burst(addr, n - 1, counts, from) + [Error(true, addr, counts(from + n - 1)), ClearBail]
  {
  }

  /** A MiB without errors so far and no bail-out: the first seven errors only log their page, the eighth sends the
      MiB to the skip list. */
  lemma {:induction false} EightErrors(h: seq<Event>, addr: nat, n: nat, counts: nat -> nat, from: nat)
    requires Errors(h, MibBase(addr)) == 0 && !Run(h).bail && n <= BURST
    ensures var r, base := h + Burst(addr, n, counts, from), MibBase(addr);
            var t, u := TesterRun.Run(h), TesterRun.Run(r);
            && (forall b :: Errors(r, b) == Errors(h, b) + if b == base then n else 0)
            && u.pages == (if n == 0 then t.pages else RecordPage(t.pages, addr))
            && u.skips == (if n < BURST then t.skips else AddSkip(t.skips, base, base + MIB))
            && !Run(r).bail && (n < BURST ==> Pending(Run(r), base) == n)
  {
    hide Run, Errors, TesterRun.Run, AddSkip, RecordPage, Triggers, Pending, Apply, MibBase, Burst;
    var base := MibBase(addr);
    if n == 0 {
      assert h + Burst(addr, 0, counts, from) == h by { NoBurst(addr, counts, from); }
      BurstsEarned(h, base);
    } else {
      var before, count := h + Burst(addr, n - 1, counts, from), counts(from + n - 1);
      EightErrors(h, addr, n - 1, counts, from);
      BurstGrows(h, addr, n, counts, from);
      OneTest(before, addr, count);
      SlotsDistinct(before);
      TriggersAtSeven(Run(before), base);
      LoggedOnce(TesterRun.Run(h).pages, addr);
      if n < BURST {
        PendingHit(Run(before), Error(true, addr, count), base);
        PendingCleared(Apply(Run(before), Error(true, addr, count)), base);
      }
    }
  }

  lemma NoBurst(addr: nat, counts: nat -> nat, from: nat)
    ensures Burst(addr, 0, counts, from) == []
  {
  }

  lemma PendingCleared(d: Detector, base: nat)
    requires Sane(d)
    ensures Pending(d.(bail := false), base) == Pending(d, base)
  {
  }

  lemma LoggedOnce(pages: seq<nat>, addr: nat)
    ensures RecordPage(RecordPage(pages, addr), addr) == RecordPage(pages, addr)
  {
  }

  // ------------------------------------------------- counting in MiB

  function Mib(n: nat): nat {
    n * MIB
  }

  function InMib(r: Range): Range {
    Range(Mib(r.start), Mib(r.end))
  }

  function AllInMib(rs: seq<Range>): (s: seq<Range>)
    ensures |s| == |rs| && forall i :: 0 <= i < |rs| ==> s[i] == InMib(rs[i])
  {
    seq(|rs|, i requires 0 <= i < |rs| => InMib(rs[i]))
  }

  lemma AllInMibConcat(a: seq<Range>, b: seq<Range>)
    ensures AllInMib(a + b) == AllInMib(a) + AllInMib(b)
  {
  }

  function InMibs(r: Option<seq<Range>>): Option<seq<Range>> {
    match r
    case None => None
    case Some(ws) => Some(AllInMib(ws))
  }

  lemma PlaceInMib(acc: seq<Range>, w: Range, sk: Range)
    ensures Place(AllInMib(acc), InMib(w), InMib(sk)) == InMibs(Place(acc, w, sk))
  {
    var left, right := Range(w.start, sk.start), Range(sk.end, w.end);
    assert Overlaps(InMib(w), InMib(sk)) == Overlaps(w, sk);
    assert AllInMib([w]) == [InMib(w)] && AllInMib([left]) == [InMib(left)] && AllInMib([right]) == [InMib(right)];
    AllInMibConcat(acc, [w]);
    AllInMibConcat(acc, [left]);
    AllInMibConcat(acc, [right]);
    AllInMibConcat(acc + [left], [right]);
  }

  lemma {:induction false} CutInMib(ws: seq<Range>, sk: Range)
    ensures BoundedCut(AllInMib(ws), InMib(sk)) == InMibs(BoundedCut(ws, sk))
  {
    hide Place, InMib;
    if ws == [] {
      assert AllInMib([]) == [];
    } else {
      var front, w := ws[..|ws| - 1], ws[|ws| - 1];
      assert AllInMib(ws)[..|ws| - 1] == AllInMib(front);
      CutInMib(front, sk);
      if BoundedCut(front, sk).Some? {
        PlaceInMib(BoundedCut(front, sk).value, w, sk);
      }
    }
  }

  /** Counting in MiB instead of bytes changes nothing. */
  lemma {:induction false} SubtractInMib(seg: Range, skips: seq<Range>)
    ensures BoundedSubtract(InMib(seg), AllInMib(skips)) == InMibs(BoundedSubtract(seg, skips))
  {
    hide BoundedCut, InMib;
    if skips == [] {
      assert AllInMib([]) == [] && AllInMib([seg]) == [InMib(seg)];
    } else {
      var front := skips[..|skips| - 1];
      assert AllInMib(skips)[..|skips| - 1] == AllInMib(front);
      SubtractInMib(seg, front);
      if BoundedSubtract(seg, front).Some? {
        CutInMib(BoundedSubtract(seg, front).value, skips[|skips| - 1]);
      }
    }
  }

  lemma MibIsBase(n: nat)
    ensures MibBase(Mib(n)) == Mib(n) == AlignDown(Mib(n)) && Mib(n + 1) == Mib(n) + MIB
  {
  }

  lemma MibApart(m: nat, n: nat)
    ensures m < n ==> Mib(m + 1) <= Mib(n)
    ensures m + 1 < n ==> Mib(m + 1) < Mib(n)
  {
  }

  // ------------------------------------------------- bursts in separate MiBs

  /** A burst in each of the listed MiBs. */
  function BurstRun(ms: seq<nat>, counts: nat -> nat): seq<Event> {
    if ms == [] then []
    else BurstRun(ms[..|ms| - 1], counts) + Burst(Mib(ms[|ms| - 1]), BURST, counts, BURST * (|ms| - 1))
  }

  /** No two listed MiBs are the same or touch. */
  ghost predicate Separate(ms: seq<nat>) {
    |ms| <= SKIP_MAX && forall i, j :: 0 <= i < j < |ms| ==> ms[i] + 1 < ms[j] || ms[j] + 1 < ms[i]
  }

  function Firsts(ms: seq<nat>): (ps: seq<nat>)
    ensures |ps| == |ms| && forall i :: 0 <= i < |ms| ==> ps[i] == Mib(ms[i])
  {
    seq(|ms|, i requires 0 <= i < |ms| => Mib(ms[i]))
  }

  function Ones(ms: seq<nat>): (rs: seq<Range>)
    ensures |rs| == |ms| && forall i :: 0 <= i < |ms| ==> rs[i] == Range(ms[i], ms[i] + 1)
  {
    seq(|ms|, i requires 0 <= i < |ms| => Range(ms[i], ms[i] + 1))
  }

  /** What the tester holds after these bursts. */
  ghost predicate BurstState(h: seq<Event>, ms: seq<nat>) {
    && !Run(h).bail && TesterRun.Run(h).pages == Firsts(ms)
    && Ranges(TesterRun.Run(h).skips) == AllInMib(Ones(ms))
    && forall n: nat :: n !in ms ==> Errors(h, Mib(n)) == 0
  }

  lemma {:induction false} BurstRunIs(ms: seq<nat>, counts: nat -> nat)
    requires Separate(ms)
    ensures BurstState(BurstRun(ms, counts), ms)
  {
    hide BurstState, Mib, Burst;
    if ms == [] {
      NoRun();
    } else {
      var front, m := ms[..|ms| - 1], ms[|ms| - 1];
      BurstRunIs(front, counts);
      assert front + [m] == ms;
      BurstStep(BurstRun(front, counts), front, m, counts, BURST * |front|);
    }
  }

  lemma NoRun()
    ensures BurstState([], [])
  {
    assert Firsts([]) == [] && AllInMib(Ones([])) == Ranges([]);
  }

  lemma BurstStep(h: seq<Event>, ms: seq<nat>, m: nat, counts: nat -> nat, from: nat)
    requires Separate(ms + [m]) && BurstState(h, ms)
    ensures BurstState(h + Burst(Mib(m), BURST, counts, from), ms + [m])
  {
    hide TesterRun.Run, Run, Errors, Mib, AddSkip, MibBase, AlignDown, Ones, Firsts, RecordPage, Burst;
    SeparateLast(ms, m);
    MibIsBase(m);
    EightErrors(h, Mib(m), BURST, counts, from);
    BurstSkips(TesterRun.Run(h).skips, ms, m);
    BurstPages(ms, m);
    forall n: nat | n !in ms + [m]
      ensures Errors(h + Burst(Mib(m), BURST, counts, from), Mib(n)) == 0
    {
      assert n !in ms && n != m;
      MibApart(n, m);
      MibApart(m, n);
      MibIsBase(n);
    }
  }

  lemma SeparateLast(ms: seq<nat>, m: nat)
    requires Separate(ms + [m])
    ensures |ms| < SKIP_MAX && m !in ms && forall i :: 0 <= i < |ms| ==> ms[i] + 1 < m || m + 1 < ms[i]
  {
    forall i | 0 <= i < |ms| ensures ms[i] + 1 < m || m + 1 < ms[i] {
      assert (ms + [m])[i] == ms[i] && (ms + [m])[|ms|] == m;
    }
  }

  lemma AppendApart(s: seq<SkipRange>, a: nat, b: nat)
    requires |s| < SKIP_MAX && a < b && forall i :: 0 <= i < |s| ==> !s[i].range.Touches(a, b)
    ensures AddSkip(s, a, b) == s + [SkipRange(Range(a, b), 1)]
  {
  }

  lemma BurstSkips(skips: seq<SkipRange>, ms: seq<nat>, m: nat)
    requires Ranges(skips) == AllInMib(Ones(ms)) && |ms| < SKIP_MAX
    requires forall i :: 0 <= i < |ms| ==> ms[i] + 1 < m || m + 1 < ms[i]
    ensures Ranges(AddSkip(skips, Mib(m), Mib(m) + MIB)) == AllInMib(Ones(ms + [m]))
  {
    hide AddSkip, Mib;
    MibIsBase(m);
    forall i | 0 <= i < |skips| ensures !skips[i].range.Touches(Mib(m), Mib(m) + MIB) {
      assert skips[i].range == Ranges(skips)[i] == Range(Mib(ms[i]), Mib(ms[i] + 1));
      MibApart(ms[i], m);
      MibApart(m, ms[i]);
    }
    AppendApart(skips, Mib(m), Mib(m) + MIB);
    var one := SkipRange(Range(Mib(m), Mib(m) + MIB), 1);
    assert Ranges(skips + [one]) == Ranges(skips) + [one.range];
    assert AllInMib(Ones(ms + [m])) == AllInMib(Ones(ms)) + [one.range];
  }

  lemma BurstPages(ms: seq<nat>, m: nat)
    requires |ms| < SKIP_MAX && m !in ms
    ensures RecordPage(Firsts(ms), Mib(m)) == Firsts(ms + [m])
  {
    hide Mib, AlignDown;
    MibIsBase(m);
    forall i | 0 <= i < |ms| ensures Firsts(ms)[i] != Mib(m) {
      assert ms[i] in ms;
      MibApart(ms[i], m);
      MibApart(m, ms[i]);
      MibIsBase(ms[i]);
      MibIsBase(m);
    }
    assert Firsts(ms + [m]) == Firsts(ms) + [Mib(m)];
  }

  // ------------------------------------------------- a run that loses memory

  const ODD: seq<nat> := [1, 3, 5, 7, 9, 11, 13, 15]

  /** The tester's promise fails on this run, whatever the error counter shows. Eight bursts in MiBs 1, 3, .., 15 of a
      segment of 18 MiB leave nine pieces for eight slots; the last one, [16, 18) MiB, is lost although nothing was
      skipped there, and MiB 17 is in the window of no logged page. No error was dropped and the map had room. */
  lemma EightSkipsLose(maxSegments: nat, counts: nat -> nat)
    requires maxSegments >= SLOTS
    ensures var h, segs, x := BurstRun(ODD, counts), [Segment(Range(0, Mib(18)), 0, 0)], Mib(17);
            var t := TesterRun.Run(h);
            && |t.skips| == SLOTS && (forall i :: 0 <= i < |h| && h[i].Error? && h[i].counted ==> TesterRun.Taken(h, i))
            && AllPieces(segs, Ranges(t.skips)).Some? && |AllPieces(segs, Ranges(t.skips)).value| <= maxSegments
            && MapCovers(segs, x) && !MapCovers(Pruned(segs, Ranges(t.skips), maxSegments), x)
            && !TesterRun.NearPage(t.pages, x)
  {
    hide TesterRun.Run, TesterRun.Taken, BurstRun, Comb, BoundedSubtract, Kept, ODD, Window;
    var h, seg, x := BurstRun(ODD, counts), Segment(Range(0, Mib(18)), 0, 0), Mib(17);
    var t := TesterRun.Run(h);
    OddIsComb();
    BurstRunIs(ODD, counts);
    forall i | 0 <= i < |h| && h[i].Error? && h[i].counted ensures TesterRun.Taken(h, i) {
      TesterRun.RoomTakesAll(h, i);
    }
    CombLosesTail(SLOTS, Range(0, 18));
    SubtractInMib(Range(0, 18), Comb(SLOTS));
    KeptTeeth();
    OnePiece(seg, Ranges(t.skips), AllInMib(Teeth(SLOTS)));
    TeethMiss(x);
    PiecesCover(seg, AllInMib(Teeth(SLOTS)), x);
    assert SegRanges([seg])[0].Has(x);
    forall p | p in t.pages ensures !Window(TesterRun.PageRange(p)).Has(x) {
      FirstOf(ODD, p);
      TesterRun.LoggedPagesAligned(h, p);
      WindowIff(TesterRun.PageRange(p), x);
    }
  }

  lemma OddIsComb()
    ensures Ones(ODD) == Comb(SLOTS) && Separate(ODD) && |ODD| == SLOTS && forall m :: m in ODD ==> m <= 15
  {
  }

  lemma FirstOf(ms: seq<nat>, p: nat)
    requires p in Firsts(ms)
    ensures exists m :: m in ms && p == Mib(m)
  {
    hide Mib;
    var i :| 0 <= i < |ms| && Firsts(ms)[i] == p;
    assert ms[i] in ms;
  }

  lemma KeptTeeth()
    ensures Kept(SLOTS) == Teeth(SLOTS) && |Comb(SLOTS)| == SLOTS
  {
  }

  lemma OnePiece(seg: Segment, skips: seq<Range>, ws: seq<Range>)
    requires BoundedSubtract(seg.range, skips) == Some(ws)
    ensures AllPieces([seg], skips) == Some(Pieces(seg, ws))
  {
    assert [seg][..0] == [] && [] + Pieces(seg, ws) == Pieces(seg, ws);
  }

  lemma TeethMiss(x: nat)
    requires x == Mib(17)
    ensures !Covers(AllInMib(Teeth(SLOTS)), x)
  {
    forall i | 0 <= i < SLOTS ensures !AllInMib(Teeth(SLOTS))[i].Has(x) {
      assert Teeth(SLOTS)[i] == Range(2 * i, 2 * i + 1);
    }
  }

  // --------------------------------------------- a run that overruns a list

  const FOURTHS: seq<nat> := [4, 8, 12, 16, 20, 24, 28]

  /** The remnants of [0, 36) after a skip of one at each of the first `n` multiples of four. */
  function Gaps(n: nat): (ws: seq<Range>)
    ensures |ws| == n && forall i :: 0 <= i < n ==> ws[i] == Range(if i == 0 then 0 else 4 * i + 1, 4 * i + 4)
  {
    seq(n, i requires 0 <= i < n => Range(if i == 0 then 0 else 4 * i + 1, 4 * i + 4))
  }

  function Rest(n: nat): Range {
    Range(if n == 0 then 0 else 4 * n + 1, 36)
  }

  lemma {:induction false} FourthsLeave(n: nat)
    requires n <= 7
    ensures BoundedSubtract(Range(0, 36), Ones(FOURTHS)[..n]) == Some(Gaps(n) + [Rest(n)])
  {
    hide BoundedCut;
    if n == 0 {
      assert Gaps(0) + [Rest(0)] == [Range(0, 36)];
    } else {
      var skips, sk := Ones(FOURTHS)[..n], Range(4 * n, 4 * n + 1);
      FourthsLeave(n - 1);
      assert skips[..n - 1] == Ones(FOURTHS)[..n - 1] && skips[n - 1] == sk;
      GapCut(n);
    }
  }

  lemma GapCut(n: nat)
    requires 0 < n <= 7
    ensures BoundedCut(Gaps(n - 1) + [Rest(n - 1)], Range(4 * n, 4 * n + 1)) == Some(Gaps(n) + [Rest(n)])
  {
    hide BoundedCut, CutAll;
    var sk := Range(4 * n, 4 * n + 1);
    CutAllMisses(Gaps(n - 1), sk);
    BoundedCutExact(Gaps(n - 1), sk);
    BoundedCutLast(Gaps(n - 1), Rest(n - 1), sk, Gaps(n - 1));
    assert Gaps(n) == Gaps(n - 1) + [Range(Rest(n - 1).start, 4 * n)];
    assert Push(Gaps(n - 1), Range(Rest(n - 1).start, 4 * n)) == Gaps(n);
    assert Push(Gaps(n), Rest(n)) == Gaps(n) + [Rest(n)];
  }

  /** The eighth skip splits the first of eight remnants. */
  lemma FourthsOverrun()
    ensures BoundedSubtract(Range(0, 36), Ones(FOURTHS + [1])).None?
  {
    hide BoundedSubtract, BoundedCut;
    var skips, ws := Ones(FOURTHS + [1]), Gaps(7) + [Rest(7)];
    FourthsLeave(7);
    assert Ones(FOURTHS)[..7] == Ones(FOURTHS) == skips[..7] && skips[7] == Range(1, 2);
    assert Splits(ws[..SLOTS - 1][0], skips[7]);
    assert OverrunsAt(Range(0, 36), skips, 7);
    OverrunsIff(Range(0, 36), skips);
  }

  /** Nor is the store without a bounds check out of reach: bursts in MiBs 4, 8, .., 28 and then in MiB 1 of a segment
      of 36 MiB make the prune run past its eighth slot, whatever the error counter shows. */
  lemma EightSkipsOverrun(counts: nat -> nat)
    ensures var h, segs := BurstRun(FOURTHS + [1], counts), [Segment(Range(0, Mib(36)), 0, 0)];
            AllPieces(segs, Ranges(TesterRun.Run(h).skips)).None?
  {
    hide TesterRun.Run, BurstRun, BoundedSubtract, FOURTHS;
    var ms, seg := FOURTHS + [1], Segment(Range(0, Mib(36)), 0, 0);
    FourthsSeparate();
    BurstRunIs(ms, counts);
    FourthsOverrun();
    SubtractInMib(Range(0, 36), Ones(ms));
    NoPiece(seg, AllInMib(Ones(ms)));
  }

  lemma FourthsSeparate()
    ensures Separate(FOURTHS + [1])
  {
  }

  lemma NoPiece(seg: Segment, skips: seq<Range>)
    requires BoundedSubtract(seg.range, skips).None?
    ensures AllPieces([seg], skips).None?
  {
  }

  // ------------------------------------------------- a run that fills the log

  /** One error in each of the first `n` MiBs. */
  function Fill(n: nat, counts: nat -> nat): seq<Event> {
    if n == 0 then [] else Fill(n - 1, counts) + [Error(true, Mib(n - 1), counts(n - 1)), ClearBail]
  }

  function FirstPages(n: nat): seq<nat> {
    seq(n, i requires 0 <= i < n => Mib(i))
  }

  lemma {:induction false} FillIs(n: nat, counts: nat -> nat)
    requires n <= MAX_ENTRIES
    ensures var h := Fill(n, counts);
            && !Run(h).bail && TesterRun.Run(h).skips == [] && TesterRun.Run(h).pages == FirstPages(n)
            && forall b :: b >= Mib(n) ==> Errors(h, b) == 0
  {
    hide TesterRun.Run, Run, Errors, Mib, AddSkip, MibBase, Triggers, Apply, FirstPages, RecordPage;
    if n == 0 {
      NothingYet();
    } else {
      var h, addr := Fill(n - 1, counts), Mib(n - 1);
      FillIs(n - 1, counts);
      MibIsBase(n - 1);
      OneTest(h, addr, counts(n - 1));
      BurstsEarned(h, addr);
      TriggersAtSeven(Run(h), addr);
      NextPage(n - 1);
    }
  }

  lemma NothingYet()
    ensures TesterRun.Run([]) == TesterRun.Tester([], [], INITIAL) && Run([]) == INITIAL
    ensures FirstPages(0) == [] && forall b :: Errors([], b) == 0
  {
  }

  lemma NextPage(n: nat)
    requires n < MAX_ENTRIES
    ensures RecordPage(FirstPages(n), Mib(n)) == FirstPages(n + 1)
  {
    MibIsBase(n);
    assert Mib(n) !in FirstPages(n);
    assert FirstPages(n + 1) == FirstPages(n) + [Mib(n)];
  }

  /** Nor does the promise survive a full log: after 4096 logged pages a burst in MiB 5000 is still skipped, but the log
      could take none of its errors, and the skipped MiB is in the window of no logged page. */
  lemma FullLogLoses(maxSegments: nat, counts: nat -> nat)
    requires maxSegments >= 2
    ensures var h := Fill(MAX_ENTRIES, counts) + Burst(Mib(5000), BURST, counts, MAX_ENTRIES);
            var t, segs, x := TesterRun.Run(h), [Segment(Range(0, Mib(6000)), 0, 0)], Mib(5000);
            && |t.pages| == MAX_ENTRIES && Ranges(t.skips) == [Range(x, x + MIB)]
            && TesterRun.Untested(segs, Ranges(t.skips), maxSegments, x)
            && !TesterRun.TakenInMib(h, x) && !TesterRun.NearPage(t.pages, x)
  {
    hide TesterRun.Run, TesterRun.TakenInMib, Run, Fill, Burst, Lost, AllPieces, RecordPage, AddSkip, Errors, Window;
    var h := Fill(MAX_ENTRIES, counts) + Burst(Mib(5000), BURST, counts, MAX_ENTRIES);
    var t, segs, x := TesterRun.Run(h), [Segment(Range(0, Mib(6000)), 0, 0)], Mib(5000);
    FillIs(MAX_ENTRIES, counts);
    MibIsBase(5000);
    EightErrors(Fill(MAX_ENTRIES, counts), x, BURST, counts, MAX_ENTRIES);
    FullStays(FirstPages(MAX_ENTRIES), x);
    AppendApart([], x, x + MIB);
    var skips := [Range(x, x + MIB)];
    assert Ranges([SkipRange(Range(x, x + MIB), 1)]) == skips;
    SevenListsFit(segs, skips);
    PiecesFit(segs, skips);
    ListsFitLoseNothing(segs, skips, x);
    PruneIsExact(segs, skips, maxSegments, x);
    assert SegRanges(segs)[0].Has(x) && skips[0].Has(x);
    forall p | p in t.pages ensures !Window(TesterRun.PageRange(p)).Has(x) {
      assert p % PAGE == 0 by { TesterRun.LoggedPagesAligned(h, p); }
      WindowIff(TesterRun.PageRange(p), x);
    }
    TesterRun.MibLoggedIff(h, x);
    if TesterRun.OwnMibLogged(t.pages, x) {
      TesterRun.OwnMibIsNear(h, x);
    }
  }

  lemma FullStays(pages: seq<nat>, addr: nat)
    requires |pages| >= MAX_ENTRIES
    ensures RecordPage(pages, addr) == pages
  {
  }
}
