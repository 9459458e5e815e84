/** Reserving the pages around every bad range, and what the printed counters account for. */
module MaskPages {
  import opened Common
  import opened Intervals

  const EXPAND: nat := MIB

  /** A page-aligned bad range as the shim holds it. */
  datatype MemRange = MemRange(start: nat, len: nat) {
    function End(): nat {
      start + len
    }
  }

  /** One MiB on either side, clamped at address zero, rounded out to whole pages. */
  function Window(r: MemRange): (w: Range)
    ensures w.start <= w.end && w.start % PAGE == 0 && w.end % PAGE == 0
  {
    Range(AlignDown(if r.start > EXPAND then r.start - EXPAND else 0), AlignUp(r.End() + EXPAND))
  }

  /** Page bases in [a, b). */
  ghost function PagesIn(a: nat, b: nat): set<nat> {
    set pa: nat | a <= pa < b && pa % PAGE == 0
  }

  ghost function WindowPages(r: MemRange): set<nat> {
    PagesIn(Window(r).start, Window(r).end)
  }

  ghost function AllWindowPages(rs: seq<MemRange>): set<nat> {
    if rs == [] then {} else AllWindowPages(rs[..|rs| - 1]) + WindowPages(rs[|rs| - 1])
  }

  function WindowSize(r: MemRange): nat {
    (Window(r).end - Window(r).start) / PAGE
  }

  /** Pages visited in all windows together, counted once per window. */
  function TotalPages(rs: seq<MemRange>): nat {
    if rs == [] then 0
    else TotalPages(rs[..|rs| - 1]) + WindowSize(rs[|rs| - 1])
  }

  /** Visits to a page the firmware refuses without owning it. */
  ghost function FaultyVisits(rs: seq<MemRange>, faulty: set<nat>): nat {
    if rs == [] then 0 else FaultyVisits(rs[..|rs| - 1], faulty) + |faulty * WindowPages(rs[|rs| - 1])|
  }

  ghost function RangesWithFault(rs: seq<MemRange>, faulty: set<nat>): nat {
    if rs == [] then 0
    else RangesWithFault(rs[..|rs| - 1], faulty) + if faulty * WindowPages(rs[|rs| - 1]) == {} then 0 else 1
  }

  datatype AllocStatus = Success | NotFound | OutOfResources

  /** The firmware's page allocator (section 7.2 of the UEFI Specification 2.8): each page is free, refused
      with a fault, or taken. */
  class PageTable {
    var free: set<nat>
    var faulty: set<nat>

    ghost predicate Valid()
      reads this
    {
      free !! faulty
    }

    method AllocateAddress(pa: nat) returns (s: AllocStatus)
      requires Valid()
      modifies this`free
      ensures Valid() && free == old(free) - {pa}
      ensures s == if pa in old(free) then Success else if pa in faulty then OutOfResources else NotFound
    {
      if pa in free {
        free := free - {pa};
        return Success;
      }
      return if pa in faulty then OutOfResources else NotFound;
    }

    /** The page loop over one window. */
    method MaskRange(r: MemRange) returns (fresh_: nat, pre: nat, gap: nat)
      requires Valid()
      modifies this`free
      ensures Valid() && free == old(free) - WindowPages(r)
      ensures fresh_ == |old(free) * WindowPages(r)| && gap == |faulty * WindowPages(r)|
      ensures fresh_ + pre + gap == WindowSize(r)
    {
      hide Window, PagesIn;
      fresh_, pre, gap := 0, 0, 0;
      var w := Window(r);
      var pa := w.start;
      ghost var was := free;
      NoPagesIn(pa);
      while pa < w.end
        invariant w.start <= pa <= w.end && pa % PAGE == 0
        invariant Valid() && free == was - PagesIn(w.start, pa)
        invariant fresh_ == |was * PagesIn(w.start, pa)| && gap == |faulty * PagesIn(w.start, pa)|
        invariant fresh_ + pre + gap == (pa - w.start) / PAGE
        decreases w.end - pa
      {
        ghost var done := PagesIn(w.start, pa);
        PagesInStep(w.start, pa, w.end);
        CardStep(was, done, pa);
        CardStep(faulty, done, pa);
        var s := AllocateAddress(pa);
        match s {
          case Success => fresh_ := fresh_ + 1;
          case NotFound => pre := pre + 1;
          case OutOfResources => gap := gap + 1;
        }
        pa := pa + PAGE;
      }
    }

    /** Every range in turn. New pages are the distinct pages that were free; a page in two windows is new
        once and counted as already reserved the second time. */
    method MaskAll(rs: seq<MemRange>) returns (covered: nat, gaps: nat, fresh_: nat, pre: nat, gap: nat)
      requires Valid()
      modifies this`free
      ensures Valid() && free == old(free) - AllWindowPages(rs)
      ensures fresh_ == |old(free) * AllWindowPages(rs)| && gap == FaultyVisits(rs, faulty)
      ensures fresh_ + pre + gap == TotalPages(rs)
      ensures covered + gaps == |rs| && gaps == RangesWithFault(rs, faulty)
    {
      hide WindowPages, WindowSize;
      covered, gaps, fresh_, pre, gap := 0, 0, 0, 0, 0;
      ghost var was := free;
      for i := 0 to |rs|
        invariant Valid() && free == was - AllWindowPages(rs[..i])
        invariant fresh_ == |was * AllWindowPages(rs[..i])| && gap == FaultyVisits(rs[..i], faulty)
        invariant fresh_ + pre + gap == TotalPages(rs[..i])
        invariant covered + gaps == i && gaps == RangesWithFault(rs[..i], faulty)
      {
        CardUnion(was, AllWindowPages(rs[..i]), WindowPages(rs[i]));
        PrefixSums(rs, i, faulty);
        var n, p, g := MaskRange(rs[i]);
        fresh_, pre, gap := fresh_ + n, pre + p, gap + g;
        if g == 0 {
          covered := covered + 1;
        } else {
          gaps := gaps + 1;
        }
      }
      assert rs[..|rs|] == rs;
    }
  }

  lemma PrefixSums(rs: seq<MemRange>, i: nat, faulty: set<nat>)
    requires i < |rs|
    ensures AllWindowPages(rs[..i + 1]) == AllWindowPages(rs[..i]) + WindowPages(rs[i])
    ensures TotalPages(rs[..i + 1]) == TotalPages(rs[..i]) + WindowSize(rs[i])
    ensures FaultyVisits(rs[..i + 1], faulty) == FaultyVisits(rs[..i], faulty) + |faulty * WindowPages(rs[i])|
    ensures RangesWithFault(rs[..i + 1], faulty) ==
            RangesWithFault(rs[..i], faulty) + if |faulty * WindowPages(rs[i])| == 0 then 0 else 1
  {
    assert rs[..i + 1][..i] == rs[..i];
  }

  lemma NoPagesIn(a: nat)
    ensures PagesIn(a, a) == {}
  {
  }

  lemma PagesInStep(a: nat, pa: nat, end: nat)
    requires a <= pa < end && a % PAGE == 0 && pa % PAGE == 0 && end % PAGE == 0
    ensures PagesIn(a, pa + PAGE) == PagesIn(a, pa) + {pa} && pa !in PagesIn(a, pa)
    ensures pa + PAGE <= end && (pa + PAGE) % PAGE == 0 && (pa + PAGE - a) / PAGE == (pa - a) / PAGE + 1
  {
  }

  lemma CardStep(s: set<nat>, t: set<nat>, x: nat)
    requires x !in t
    ensures |s * (t + {x})| == |s * t| + if x in s then 1 else 0
  {
    assert s * (t + {x}) == if x in s then s * t + {x} else s * t;
  }

  lemma CardUnion(s: set<nat>, a: set<nat>, b: set<nat>)
    ensures |s * (a + b)| == |s * a| + |(s - a) * b|
  {
    assert s * (a + b) == s * a + (s - a) * b;
    assert (s * a) !! ((s - a) * b);
  }

  // ---------------------------------------------------------------- meaning

  /** No gap range is reported exactly when no page of any window is faulty; then, with the free pages of every
      window taken, nothing in a window is left to the OS by the allocator. */
  lemma {:induction false} NoGapsIff(rs: seq<MemRange>, faulty: set<nat>)
    ensures RangesWithFault(rs, faulty) == 0 <==> faulty * AllWindowPages(rs) == {}
    ensures RangesWithFault(rs, faulty) == 0 <==> FaultyVisits(rs, faulty) == 0
  {
    if rs != [] {
      NoGapsIff(rs[..|rs| - 1], faulty);
      assert faulty * AllWindowPages(rs) ==
             faulty * AllWindowPages(rs[..|rs| - 1]) + faulty * WindowPages(rs[|rs| - 1]);
    }
  }

  lemma {:induction false} WindowPageIff(rs: seq<MemRange>, pa: nat)
    ensures pa in AllWindowPages(rs) <==> pa % PAGE == 0 && exists r :: r in rs && Window(r).Has(pa)
  {
    if rs != [] {
      var front, last := rs[..|rs| - 1], rs[|rs| - 1];
      WindowPageIff(front, pa);
      assert forall r :: r in rs <==> r in front || r == last;
    }
  }

  /** For a page-aligned range no rounding happens. */
  lemma WindowExact(r: MemRange)
    requires r.start % PAGE == 0 && r.len % PAGE == 0
    ensures Window(r) == Range(if r.start > EXPAND then r.start - EXPAND else 0, r.End() + EXPAND)
  {
    AlignedStays(if r.start > EXPAND then r.start - EXPAND else 0);
    AlignedStays(r.End() + EXPAND);
  }

  lemma AlignedStays(a: nat)
    requires a % PAGE == 0
    ensures AlignDown(a) == a && AlignUp(a) == a
  {
  }

  lemma AlignDownCut(a: nat, x: nat)
    requires a % PAGE == 0
    ensures a <= x <==> a <= AlignDown(x)
  {
  }

  /** For a page-aligned range the window is exactly the addresses within one MiB of it, in whole pages. */
  lemma WindowIff(r: MemRange, x: nat)
    requires r.start % PAGE == 0 && r.len % PAGE == 0
    ensures Window(r).Has(x) <==> r.start <= x + EXPAND && x < r.End() + EXPAND
    ensures Window(r).Has(x) <==> Window(r).Has(AlignDown(x))
  {
    WindowExact(r);
    AlignDownCut(Window(r).start, x);
    AlignDownCut(Window(r).end, x);
  }

  /** The window of a page inside a page-aligned range is inside the window of that range. */
  lemma WindowMonotone(r: MemRange, p: nat, x: nat)
    requires r.start <= p && p + PAGE <= r.End() && Window(MemRange(p, PAGE)).Has(x)
    ensures Window(r).Has(x)
  {
    hide AlignDown;
    AlignMonotone(if r.start > EXPAND then r.start - EXPAND else 0, if p > EXPAND then p - EXPAND else 0);
    AlignMonotone(p + PAGE + EXPAND + PAGE - 1, r.End() + EXPAND + PAGE - 1);
  }

  lemma AlignMonotone(a: nat, b: nat)
    requires a <= b
    ensures AlignDown(a) <= AlignDown(b)
  {
  }
}
