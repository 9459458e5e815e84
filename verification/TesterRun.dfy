/** The tester as a whole: error reports feed the page log and the burst detector, bursts feed the skip list,
    and every new test window is pruned by it. */
module TesterRun {
  import opened Common
  import opened Intervals
  import opened BadmemLog
  import BurstDetector
  import opened Prune
  import opened VmMap
  import opened MaskPages

  datatype Tester = Tester(pages: seq<nat>, skips: seq<SkipRange>, burst: BurstDetector.Detector)

  /** One error report: the page is logged before the detector decides anything. */
  method CommonErr(pages: PageLog, skips: SkipList, burst: BurstDetector.Burst, counted: bool, addr: nat,
                   errorCount: nat)
    requires pages.Valid() && skips.Valid() && burst.Valid()
    modifies pages`count, pages.pages, skips`count, skips.table, burst`next, burst`bail, burst.lru
    ensures pages.Valid() && skips.Valid() && burst.Valid()
    ensures Tester(pages.Contents(), skips.Contents(), burst.State()) ==
            Report(old(Tester(pages.Contents(), skips.Contents(), burst.State())), counted, addr, errorCount)
  {
    if counted {
      pages.Record(addr);
    }
    burst.Report(counted, addr, errorCount, skips);
  }

  function Report(t: Tester, counted: bool, addr: nat, errorCount: nat): (r: Tester)
    requires BurstDetector.Sane(t.burst)
    ensures BurstDetector.Sane(r.burst)
  {
    var base := BurstDetector.MibBase(addr);
    Tester(if counted then RecordPage(t.pages, addr) else t.pages,
           if counted && BurstDetector.Triggers(t.burst, base) then AddSkip(t.skips, base, base + MIB) else t.skips,
           BurstDetector.Step(t.burst, counted, addr, errorCount))
  }

  /** The tester after a run of error reports and bail clears. */
  function Run(h: seq<BurstDetector.Event>): (t: Tester)
    ensures BurstDetector.Sane(t.burst)
  {
    if h == [] then Tester([], [], BurstDetector.INITIAL)
    else
      var t := Run(h[..|h| - 1]);
      match h[|h| - 1]
      case Error(counted, addr, n) => Report(t, counted, addr, n)
      case ClearBail => t.(burst := t.burst.(bail := false))
  }

  /** Some counted error was reported in the MiB of the address. */
  ghost predicate ErrorInMib(h: seq<BurstDetector.Event>, x: nat) {
    exists i :: 0 <= i < |h| && BurstDetector.Hit(h[i], BurstDetector.MibBase(x))
  }

  /** Over every run each skipped address shares its MiB with a reported error, merged skip entries included. */
  lemma {:induction false} SkipsHaveError(h: seq<BurstDetector.Event>, x: nat)
    ensures WellFormedSkips(Run(h).skips) && (Covers(Ranges(Run(h).skips), x) ==> ErrorInMib(h, x))
  {
    hide AddSkip, Covers, RecordPage, BurstDetector.MibBase, BurstDetector.Triggers, BurstDetector.Step,
      WellFormedSkips;
    if h == [] {
      NoSkips(x);
    } else {
      var front, e := h[..|h| - 1], h[|h| - 1];
      SkipsHaveError(front, x);
      if ErrorInMib(front, x) {
        var i :| 0 <= i < |front| && BurstDetector.Hit(front[i], BurstDetector.MibBase(x));
        assert h[i] == front[i];
      }
      if e.Error? && e.counted && BurstDetector.Triggers(Run(front).burst, BurstDetector.MibBase(e.addr)) {
        var base := BurstDetector.MibBase(e.addr);
        AddCovers(Run(front).skips, base, base + MIB, x);
        MibOf(base, x, e.addr);
        assert base <= x < base + MIB ==> BurstDetector.Hit(h[|front|], BurstDetector.MibBase(x));
      }
    }
  }

  lemma NoSkips(x: nat)
    ensures WellFormedSkips([]) && !Covers(Ranges([]), x)
  {
  }

  lemma InOwnMib(x: nat)
    ensures BurstDetector.MibBase(x) <= x < BurstDetector.MibBase(x) + MIB
  {
  }

  lemma MibOf(base: nat, x: nat, addr: nat)
    requires base == BurstDetector.MibBase(addr)
    ensures base <= x < base + MIB ==> BurstDetector.MibBase(x) == base
  {
    var b := addr / MIB;
    assert addr == MIB * b + addr % MIB;
    if base <= x < base + MIB {
      assert x / MIB == b;
    }
  }

  /** The page log only ever grows at its end. */
  lemma {:induction false} PagesGrow(h: seq<BurstDetector.Event>, k: nat)
    requires k <= |h|
    ensures Run(h[..k]).pages <= Run(h).pages
  {
    if k == |h| {
      assert h[..k] == h;
    } else {
      var front := h[..|h| - 1];
      PagesGrow(front, k);
      assert front[..k] == h[..k];
    }
  }

  /** Error `i` of the run was counted and found a free entry in the log or its page already there. */
  ghost predicate Taken(h: seq<BurstDetector.Event>, i: nat)
    requires i < |h|
  {
    && h[i].Error? && h[i].counted
    && (|Run(h[..i]).pages| < MAX_ENTRIES || AlignDown(h[i].addr) in Run(h[..i]).pages)
  }

  /** The log holds exactly the pages of the errors it could take at their time. */
  lemma {:induction false} PageLoggedIff(h: seq<BurstDetector.Event>, p: nat)
    ensures p in Run(h).pages <==> exists i :: 0 <= i < |h| && Taken(h, i) && AlignDown(h[i].addr) == p
  {
    hide AlignDown, BurstDetector.Triggers, BurstDetector.Step, AddSkip;
    if h != [] {
      var front, last := h[..|h| - 1], |h| - 1;
      PageLoggedIff(front, p);
      forall i | 0 <= i < |front| ensures Taken(front, i) <==> Taken(h, i) {
        assert front[..i] == h[..i] && front[i] == h[i];
      }
      PagesGrow(h, last);
      if p in Run(front).pages {
        var i :| 0 <= i < |front| && Taken(front, i) && AlignDown(front[i].addr) == p;
        assert Taken(h, i) && h[i] == front[i];
      } else {
        assert p in Run(h).pages <==> Taken(h, last) && AlignDown(h[last].addr) == p;
        forall i | 0 <= i < last && Taken(h, i) ensures h[i].Error? && AlignDown(h[i].addr) != p {
          assert Taken(front, i) && h[i] == front[i];
        }
      }
    }
  }

  /** Some counted error of the address's MiB could be taken into the log at its time. */
  ghost predicate TakenInMib(h: seq<BurstDetector.Event>, x: nat) {
    exists i :: 0 <= i < |h| && BurstDetector.Hit(h[i], BurstDetector.MibBase(x)) && Taken(h, i)
  }

  /** A page of the address's own MiB is logged; its window holds the address. */
  ghost predicate OwnMibLogged(pages: seq<nat>, x: nat) {
    exists p :: p in pages && BurstDetector.MibBase(p) == BurstDetector.MibBase(x)
  }

  /** Over every run: the log holds a page of the MiB exactly when it could take some error of it. */
  lemma MibLoggedIff(h: seq<BurstDetector.Event>, x: nat)
    ensures OwnMibLogged(Run(h).pages, x) <==> TakenInMib(h, x)
  {
    hide Run, AlignDown, BurstDetector.MibBase;
    InOwnMib(x);
    if OwnMibLogged(Run(h).pages, x) {
      var p :| p in Run(h).pages && BurstDetector.MibBase(p) == BurstDetector.MibBase(x);
      PageLoggedIff(h, p);
      var i :| 0 <= i < |h| && Taken(h, i) && AlignDown(h[i].addr) == p;
      PageInMib(h[i].addr);
      assert BurstDetector.Hit(h[i], BurstDetector.MibBase(x));
    }
    if TakenInMib(h, x) {
      var i :| 0 <= i < |h| && BurstDetector.Hit(h[i], BurstDetector.MibBase(x)) && Taken(h, i);
      PageLoggedIff(h, AlignDown(h[i].addr));
      PageInMib(h[i].addr);
    }
  }

  lemma PageInMib(addr: nat)
    ensures BurstDetector.MibBase(AlignDown(addr)) == BurstDetector.MibBase(addr)
  {
    InOwnMib(addr);
    SameMib(addr, addr);
  }

  /** Some error the log could take lies so near that the window of its page holds the address. */
  ghost predicate TakenNear(h: seq<BurstDetector.Event>, x: nat) {
    exists i :: 0 <= i < |h| && Taken(h, i) && Window(PageRange(AlignDown(h[i].addr))).Has(x)
  }

  ghost predicate NearPage(pages: seq<nat>, x: nat) {
    exists p :: p in pages && Window(PageRange(p)).Has(x)
  }

  /** Over every run: an address lies in the window of a logged page exactly when it lies in the window of an error
      that the log could take. */
  lemma MaskedIff(h: seq<BurstDetector.Event>, x: nat)
    ensures NearPage(Run(h).pages, x) <==> TakenNear(h, x)
  {
    hide Run, AlignDown, Window;
    if NearPage(Run(h).pages, x) {
      var p :| p in Run(h).pages && Window(PageRange(p)).Has(x);
      PageLoggedIff(h, p);
    }
    if TakenNear(h, x) {
      var i :| 0 <= i < |h| && Taken(h, i) && Window(PageRange(AlignDown(h[i].addr))).Has(x);
      PageLoggedIff(h, AlignDown(h[i].addr));
    }
  }

  lemma OwnMibIsNear(h: seq<BurstDetector.Event>, x: nat)
    requires OwnMibLogged(Run(h).pages, x)
    ensures NearPage(Run(h).pages, x)
  {
    hide Run, Window, BurstDetector.MibBase;
    var p :| p in Run(h).pages && BurstDetector.MibBase(p) == BurstDetector.MibBase(x);
    LoggedPagesAligned(h, p);
    SameMibInWindow(p, x);
  }

  /** A run whose log keeps a free entry could take every counted error. */
  lemma RoomTakesAll(h: seq<BurstDetector.Event>, i: nat)
    requires i < |h| && h[i].Error? && h[i].counted && |Run(h).pages| < MAX_ENTRIES
    ensures Taken(h, i)
  {
    hide Run, AlignDown;
    PagesGrow(h, i);
  }

  lemma SameMib(addr: nat, x: nat)
    requires BurstDetector.MibBase(addr) <= x < BurstDetector.MibBase(addr) + MIB
    ensures BurstDetector.MibBase(AlignDown(addr)) == BurstDetector.MibBase(x)
  {
    var b := addr / MIB;
    assert addr == MIB * b + addr % MIB;
    assert x / MIB == b;
    assert AlignDown(addr) / MIB == b;
  }

  function PageRange(p: nat): MemRange {
    MemRange(p, PAGE)
  }

  lemma SameMibInWindow(p: nat, x: nat)
    requires p % PAGE == 0 && BurstDetector.MibBase(p) == BurstDetector.MibBase(x)
    ensures Window(PageRange(p)).Has(x)
  {
    WindowIff(PageRange(p), x);
  }

  lemma {:induction false} LoggedPagesAligned(h: seq<BurstDetector.Event>, p: nat)
    requires p in Run(h).pages
    ensures p % PAGE == 0
  {
    hide BurstDetector.Triggers, BurstDetector.Step, AddSkip;
    if h != [] && p in Run(h[..|h| - 1]).pages {
      LoggedPagesAligned(h[..|h| - 1], p);
    }
  }

  /** Over every run each skipped address shares its MiB with a counted error, and lies in the window of a logged page
      of that MiB exactly when the log could take one of the errors. */
  lemma SkippedIsMasked(h: seq<BurstDetector.Event>, x: nat)
    requires Covers(Ranges(Run(h).skips), x)
    ensures ErrorInMib(h, x)
    ensures OwnMibLogged(Run(h).pages, x) <==> TakenInMib(h, x)
    ensures TakenInMib(h, x) ==> NearPage(Run(h).pages, x)
  {
    hide Run, Covers, OwnMibLogged, TakenInMib, NearPage;
    SkipsHaveError(h, x);
    MibLoggedIff(h, x);
    if TakenInMib(h, x) {
      OwnMibIsNear(h, x);
    }
  }

  /** Over every run and for a prune at any moment `k` of it: an address the prune takes out of the test map, other
      than by a full work list or a full map, shares its MiB with an error reported by then. It lies in the window the
      shim reserves around a page of its MiB in the final log exactly when the log could take some error of the MiB. */
  lemma PrunedIsMasked(h: seq<BurstDetector.Event>, k: nat, segs: seq<Segment>, maxSegments: nat, x: nat)
    requires k <= |h| && Untested(segs, Ranges(Run(h[..k]).skips), maxSegments, x)
    ensures ErrorInMib(h[..k], x)
    ensures OwnMibLogged(Run(h).pages, x) <==> TakenInMib(h, x)
    ensures TakenInMib(h, x) ==> NearPage(Run(h).pages, x)
  {
    hide Run, Covers, OwnMibLogged, TakenInMib, NearPage, ErrorInMib, Untested;
    UntestedIsSkipped(segs, Ranges(Run(h[..k]).skips), maxSegments, x);
    SkipsHaveError(h[..k], x);
    MibLoggedIff(h, x);
    if TakenInMib(h, x) {
      OwnMibIsNear(h, x);
    }
  }

  /** An address of the test map that a prune took out of it although no full list lost it and no piece was cut
      off the map. */
  ghost predicate Untested(segs: seq<Segment>, skips: seq<Range>, maxSegments: nat, x: nat) {
    && AllPieces(segs, skips).Some? && |AllPieces(segs, skips).value| <= maxSegments && NothingLost(segs, skips, x)
    && MapCovers(segs, x) && !MapCovers(Pruned(segs, skips, maxSegments), x)
  }

  lemma UntestedIsSkipped(segs: seq<Segment>, skips: seq<Range>, maxSegments: nat, x: nat)
    requires Untested(segs, skips, maxSegments, x)
    ensures Covers(skips, x)
  {
    hide AllPieces, MapCovers, NothingLost, HeldSomewhere;
    PiecesHold(segs, skips, x);
    HeldIff(segs, skips, x);
  }
}
