/** The page log and the skip list that a test run accumulates in fixed static arrays. */
module BadmemLog {
  import opened Common
  import opened Intervals

  const MAX_ENTRIES: nat := 4096
  const SKIP_MAX: nat := 64
  const HITS_MAX: nat := 0xFFFF_FFFF

  // ------------------------------------------------------------------ page log

  function RecordPage(log: seq<nat>, addr: nat): seq<nat> {
    var page := AlignDown(addr);
    if page in log || |log| >= MAX_ENTRIES then log else log + [page]
  }

  function RecordAll(addrs: seq<nat>): seq<nat> {
    if addrs == [] then [] else RecordPage(RecordAll(addrs[..|addrs| - 1]), addrs[|addrs| - 1])
  }

  class PageLog {
    const pages: array<nat>
    var count: nat

    ghost predicate Valid()
      reads this
    {
      pages.Length == MAX_ENTRIES && count <= MAX_ENTRIES
    }

    ghost function Contents(): seq<nat>
      reads this, pages
      requires Valid()
    {
      pages[..count]
    }

    constructor ()
      ensures Valid() && fresh(pages) && Contents() == []
    {
      pages := new nat[MAX_ENTRIES];
      count := 0;
    }

    method Record(addr: nat)
      requires Valid()
      modifies this`count, pages
      ensures Valid() && Contents() == RecordPage(old(Contents()), addr)
    {
      var page := AlignDown(addr);
      for i := 0 to count
        invariant page !in pages[..i]
      {
        if pages[i] == page {
          return;
        }
      }
      if count < MAX_ENTRIES {
        pages[count] := page;
        count := count + 1;
      }
    }
  }

  /** The log never holds a page twice, holds only pages of reported addresses, and holds the page of
      every reported address as long as it has a free entry left. */
  lemma {:induction false} LogComplete(addrs: seq<nat>)
    ensures var log := RecordAll(addrs);
            && Distinct(log) && |log| <= MAX_ENTRIES
            && (forall p :: p in log ==> exists a :: a in addrs && p == AlignDown(a))
            && (|log| < MAX_ENTRIES ==> forall a :: a in addrs ==> AlignDown(a) in log)
  {
    if addrs != [] {
      var front, last := addrs[..|addrs| - 1], addrs[|addrs| - 1];
      LogComplete(front);
      assert addrs == front + [last];
      forall p | p in RecordAll(addrs) ensures exists a :: a in addrs && p == AlignDown(a) {
        if p in RecordAll(front) {
          var a :| a in front && p == AlignDown(a);
          assert a in addrs;
        } else {
          assert p == AlignDown(last);
        }
      }
    }
  }

  // ----------------------------------------------------------------- skip list

  datatype SkipRange = SkipRange(range: Range, hits: nat)

  function Ranges(s: seq<SkipRange>): (r: seq<Range>)
    ensures |r| == |s| && forall i :: 0 <= i < |s| ==> r[i] == s[i].range
  {
    seq(|s|, i requires 0 <= i < |s| => s[i].range)
  }

  /** Index of the first entry that overlaps or abuts [a, b), or |s| when none does. */
  function FirstTouching(s: seq<SkipRange>, a: nat, b: nat): (i: nat)
    ensures i <= |s|
    ensures i < |s| ==> s[i].range.Touches(a, b)
    ensures forall j :: 0 <= j < i ==> !s[j].range.Touches(a, b)
  {
    if s == [] || s[0].range.Touches(a, b) then 0 else 1 + FirstTouching(s[1..], a, b)
  }

  function Merge(e: SkipRange, a: nat, b: nat): SkipRange {
    SkipRange(Range(if a < e.range.start then a else e.range.start, if b > e.range.end then b else e.range.end),
              if e.hits < HITS_MAX then e.hits + 1 else e.hits)
  }

  /** Merges into the first touching entry only; two entries may come to overlap each other. */
  function AddSkip(s: seq<SkipRange>, a: nat, b: nat): seq<SkipRange> {
    if b <= a then s
    else
      var i := FirstTouching(s, a, b);
      if i < |s| then s[i := Merge(s[i], a, b)]
      else if |s| < SKIP_MAX then s + [SkipRange(Range(a, b), 1)]
      else s
  }

  /** An add is refused when the range is empty, or when the table is full and the range touches nothing. */
  predicate Accepted(s: seq<SkipRange>, a: nat, b: nat) {
    a < b && (|s| < SKIP_MAX || exists i :: 0 <= i < |s| && s[i].range.Touches(a, b))
  }

  class SkipList {
    const table: array<SkipRange>
    var count: nat

    ghost predicate Valid()
      reads this
    {
      table.Length == SKIP_MAX && count <= SKIP_MAX
    }

    ghost function Contents(): seq<SkipRange>
      reads this, table
      requires Valid()
    {
      table[..count]
    }

    constructor ()
      ensures Valid() && fresh(table) && Contents() == []
    {
      table := new SkipRange[SKIP_MAX](_ => SkipRange(Range(0, 0), 0));
      count := 0;
    }

    method Add(a: nat, b: nat)
      requires Valid()
      modifies this`count, table
      ensures Valid() && Contents() == AddSkip(old(Contents()), a, b)
    {
      if b <= a {
        return;
      }
      for i := 0 to count
        invariant forall j :: 0 <= j < i ==> !table[j].range.Touches(a, b)
      {
        if b < table[i].range.start || a > table[i].range.end {
          continue;
        }
        assert FirstTouching(Contents(), a, b) == i;
        table[i] := Merge(table[i], a, b);
        return;
      }
      assert FirstTouching(Contents(), a, b) == count;
      if count < SKIP_MAX {
        table[count] := SkipRange(Range(a, b), 1);
        count := count + 1;
      }
    }
  }

  ghost predicate WellFormedSkips(s: seq<SkipRange>) {
    |s| <= SKIP_MAX && forall i :: 0 <= i < |s| ==> s[i].range.start < s[i].range.end && 1 <= s[i].hits <= HITS_MAX
  }

  /** One add, on any table: the covered set grows by exactly the new range, or stays. */
  lemma {:induction false} AddCovers(s: seq<SkipRange>, a: nat, b: nat, x: nat)
    requires WellFormedSkips(s)
    ensures WellFormedSkips(AddSkip(s, a, b))
    ensures Covers(Ranges(AddSkip(s, a, b)), x) <==> Covers(Ranges(s), x) || (Accepted(s, a, b) && a <= x < b)
  {
    var t := AddSkip(s, a, b);
    var i := FirstTouching(s, a, b);
    if a < b && i < |s| {
      assert forall j :: 0 <= j < |s| && j != i ==> Ranges(t)[j] == Ranges(s)[j];
      assert Ranges(t)[i].Has(x) <==> Ranges(s)[i].Has(x) || a <= x < b;
      if Covers(Ranges(s), x) {
        var j :| 0 <= j < |s| && Ranges(s)[j].Has(x);
        assert Ranges(t)[j].Has(x);
      }
    } else if a < b && |s| < SKIP_MAX {
      assert Ranges(t) == Ranges(s) + [Range(a, b)];
      CoversConcat(Ranges(s), [Range(a, b)], x);
      assert [Range(a, b)][0].Has(x) <==> a <= x < b;
    }
  }

  /** A caller can read acceptance off the table: a non-empty range was accepted exactly when all of it is
      covered afterwards, and a refused one shares no address with any entry. */
  lemma AcceptedIffCovered(s: seq<SkipRange>, a: nat, b: nat)
    requires WellFormedSkips(s) && a < b
    ensures Accepted(s, a, b) <==> forall x :: a <= x < b ==> Covers(Ranges(AddSkip(s, a, b)), x)
    ensures !Accepted(s, a, b) ==> AddSkip(s, a, b) == s && forall x :: a <= x < b ==> !Covers(Ranges(s), x)
  {
    var t := Ranges(AddSkip(s, a, b));
    forall x: nat | a <= x < b ensures Accepted(s, a, b) <==> Covers(t, x) {
      AddCovers(s, a, b, x);
    }
    assert Accepted(s, a, b) <==> Covers(t, a);
  }

  // ------------------------------------------------------------- runs of adds

  function RunAdds(adds: seq<Range>): seq<SkipRange> {
    if adds == [] then []
    else var r := adds[|adds| - 1]; AddSkip(RunAdds(adds[..|adds| - 1]), r.start, r.end)
  }

  /** The ranges of a run that were accepted at their moment, in order. */
  function AcceptedOf(adds: seq<Range>): seq<Range> {
    if adds == [] then []
    else
      var front, r := adds[..|adds| - 1], adds[|adds| - 1];
      AcceptedOf(front) + if Accepted(RunAdds(front), r.start, r.end) then [r] else []
  }

  function HitSum(s: seq<SkipRange>): nat {
    if s == [] then 0 else HitSum(s[..|s| - 1]) + s[|s| - 1].hits
  }

  lemma {:induction false} HitSumUpdate(s: seq<SkipRange>, i: nat, e: SkipRange)
    requires i < |s|
    ensures HitSum(s[i := e]) == HitSum(s) - s[i].hits + e.hits
  {
    var last := |s| - 1;
    if i == last {
      assert s[i := e][..last] == s[..last];
    } else {
      assert s[i := e][..last] == s[..last][i := e];
      HitSumUpdate(s[..last], i, e);
    }
  }

  lemma {:induction false} HitsBelowSum(s: seq<SkipRange>, i: nat)
    requires i < |s|
    ensures s[i].hits <= HitSum(s)
  {
    if i < |s| - 1 {
      HitsBelowSum(s[..|s| - 1], i);
    }
  }

  /** After any sequence of adds the covered set is exactly the union of the accepted ranges. */
  lemma {:induction false} CoverageIsAcceptedUnion(adds: seq<Range>, x: nat)
    ensures WellFormedSkips(RunAdds(adds))
    ensures Covers(Ranges(RunAdds(adds)), x) <==> Covers(AcceptedOf(adds), x)
  {
    if adds != [] {
      var front, r := adds[..|adds| - 1], adds[|adds| - 1];
      CoverageIsAcceptedUnion(front, x);
      AddCovers(RunAdds(front), r.start, r.end, x);
      CoversConcat(AcceptedOf(front), [r], x);
      assert [r][0].Has(x) <==> r.start <= x < r.end;
      CoversConcat(AcceptedOf(front), [], x);
    }
  }

  /** Below saturation the hit counters add up to the number of accepted adds. */
  lemma {:induction false} HitsCountAccepted(adds: seq<Range>)
    requires |AcceptedOf(adds)| <= HITS_MAX
    ensures HitSum(RunAdds(adds)) == |AcceptedOf(adds)|
  {
    if adds != [] {
      var front, r := adds[..|adds| - 1], adds[|adds| - 1];
      HitsCountAccepted(front);
      var s := RunAdds(front);
      var i := FirstTouching(s, r.start, r.end);
      if r.start < r.end && i < |s| {
        HitSumUpdate(s, i, Merge(s[i], r.start, r.end));
        HitsBelowSum(s, i);
      } else if r.start < r.end && |s| < SKIP_MAX {
        assert RunAdds(adds)[..|s|] == s;
      }
    }
  }
}
