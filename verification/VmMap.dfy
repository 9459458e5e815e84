/** The test map and its pruning in place through a scratch map of twice its capacity. */
module VmMap {
  import opened Common
  import opened Intervals
  import opened BadmemLog
  import opened Prune

  datatype Segment = Segment(range: Range, pmBase: nat, proximity: nat)

  function SegRanges(segs: seq<Segment>): (r: seq<Range>)
    ensures |r| == |segs| && forall i :: 0 <= i < |segs| ==> r[i] == segs[i].range
  {
    seq(|segs|, i requires 0 <= i < |segs| => segs[i].range)
  }

  /** The pieces of one segment; every other field is copied from it. */
  function Pieces(seg: Segment, ws: seq<Range>): (r: seq<Segment>)
    ensures |r| == |ws| && forall i :: 0 <= i < |ws| ==> r[i] == seg.(range := ws[i])
  {
    seq(|ws|, i requires 0 <= i < |ws| => seg.(range := ws[i]))
  }

  /** The pieces of every segment in order; `None` when a work list would overrun its eight slots. */
  function AllPieces(segs: seq<Segment>, skips: seq<Range>): Option<seq<Segment>> {
    if segs == [] then Some([])
    else
      var last := segs[|segs| - 1];
      match (AllPieces(segs[..|segs| - 1], skips), BoundedSubtract(last.range, skips))
      case (Some(before), Some(ws)) => Some(before + Pieces(last, ws))
      case _ => None
  }

  /** The map after pruning, when no work list overruns its eight slots. */
  function Pruned(segs: seq<Segment>, skips: seq<Range>, maxSegments: nat): seq<Segment>
    requires AllPieces(segs, skips).Some?
  {
    Take(AllPieces(segs, skips).value, maxSegments)
  }

  ghost predicate NoneHit(segs: seq<Segment>, skips: seq<Range>) {
    forall j :: 0 <= j < |segs| ==> !Hits(segs[j].range, skips)
  }

  class TestMap {
    const maxSegments: nat
    const entries: array<Segment>
    const scratch: array<Segment>
    var size: nat

    ghost predicate Valid()
      reads this
    {
      entries.Length == maxSegments && scratch.Length == 2 * maxSegments && entries != scratch && size <= maxSegments
    }

    ghost function Contents(): seq<Segment>
      reads this, entries
      requires Valid()
    {
      entries[..size]
    }

    constructor (maxSegments: nat)
      ensures Valid() && this.maxSegments == maxSegments && Contents() == [] && fresh(entries) && fresh(scratch)
    {
      this.maxSegments := maxSegments;
      entries := new Segment[maxSegments](_ => Segment(Range(0, 0), 0, 0));
      scratch := new Segment[2 * maxSegments](_ => Segment(Range(0, 0), 0, 0));
      size := 0;
    }

    /** The emit loop: the surviving remnants of one segment, as far as the scratch map reaches. */
    method Emit(seg: Segment, work: array<Range>, nwork: nat, start: nat) returns (out: nat)
      requires Valid() && nwork <= work.Length && start <= scratch.Length
      modifies scratch
      ensures out <= scratch.Length
      ensures scratch[..out] == Take(old(scratch[..start]) + Pieces(seg, work[..nwork]), scratch.Length)
    {
      out := start;
      ghost var before, ps := scratch[..start], Pieces(seg, work[..nwork]);
      var w := 0;
      while w < nwork && out < scratch.Length
        invariant w <= nwork && out == start + w <= scratch.Length
        invariant scratch[..out] == before + ps[..w]
      {
        scratch[out] := seg.(range := work[w]);
        out, w := out + 1, w + 1;
      }
      assert scratch[..out] == (before + ps)[..out];
      assert out == |before + ps| ==> (before + ps)[..out] == before + ps;
    }

    /** The copy-back loop. */
    method CopyBack(out: nat)
      requires Valid() && out <= scratch.Length
      modifies this`size, entries
      ensures Valid() && Contents() == Take(scratch[..out], maxSegments)
    {
      var i := 0;
      while i < out && i < maxSegments
        invariant i <= out && i <= maxSegments
        invariant entries[..i] == scratch[..i]
      {
        entries[i] := scratch[i];
        i := i + 1;
      }
      size := i;
    }

    /** One turn of the outer loop: cut the segment, emit what survives. */
    method EmitSegment(seg: Segment, skips: SkipList, start: nat) returns (out: nat, pruned: bool)
      requires Valid() && skips.Valid() && start <= scratch.Length
      requires BoundedSubtract(seg.range, Ranges(skips.Contents())).Some?
      modifies scratch
      ensures out <= scratch.Length
      ensures scratch[..out] == Take(old(scratch[..start])
                + Pieces(seg, BoundedSubtract(seg.range, Ranges(skips.Contents())).value), scratch.Length)
      ensures pruned == Hits(seg.range, Ranges(skips.Contents()))
    {
      var work, nwork;
      work, nwork, pruned := CutSegment(seg.range, skips);
      out := Emit(seg, work, nwork, start);
    }

    /** The outer loop: the pieces of every segment, in order, as far as the scratch map reaches. */
    method BuildScratch(skips: SkipList) returns (out: nat, anyPruned: bool)
      requires Valid() && skips.Valid()
      requires AllPieces(Contents(), Ranges(skips.Contents())).Some?
      modifies scratch
      ensures out <= scratch.Length
      ensures scratch[..out] == Take(AllPieces(Contents(), Ranges(skips.Contents())).value, scratch.Length)
      ensures !anyPruned ==> NoneHit(Contents(), Ranges(skips.Contents()))
    {
      ghost var segs, sks := Contents(), Ranges(skips.Contents());
      out, anyPruned := 0, false;
      for i := 0 to size
        invariant out <= scratch.Length && Contents() == segs && Ranges(skips.Contents()) == sks
        invariant AllPieces(segs[..i], sks).Some?
        invariant scratch[..out] == Take(AllPieces(segs[..i], sks).value, scratch.Length)
        invariant !anyPruned ==> NoneHit(segs[..i], sks)
      {
        AllPiecesStep(segs, sks, i);
        NoneHitStep(segs, sks, i);
        assert entries[i] == segs[i];
        TakeTwice(AllPieces(segs[..i], sks).value,
                   Pieces(segs[i], BoundedSubtract(segs[i].range, sks).value), scratch.Length);
        var pruned: bool;
        out, pruned := EmitSegment(entries[i], skips, out);
        anyPruned := anyPruned || pruned;
      }
      assert segs[..size] == segs;
    }

    method PruneMap(skips: SkipList)
      requires Valid() && skips.Valid()
      requires AllPieces(Contents(), Ranges(skips.Contents())).Some?
      modifies this`size, entries, scratch
      ensures Valid() && Contents() == Pruned(old(Contents()), Ranges(skips.Contents()), maxSegments)
    {
      if skips.count == 0 {
        NoHitsKept(Contents(), Ranges(skips.Contents()));
        return;
      }
      var out, anyPruned := BuildScratch(skips);
      if anyPruned {
        CopyBack(out);
      } else {
        NoHitsKept(Contents(), Ranges(skips.Contents()));
      }
    }
  }

  lemma {:induction false} AllPiecesPrefix(segs: seq<Segment>, skips: seq<Range>, n: nat)
    requires n <= |segs| && AllPieces(segs, skips).Some?
    ensures AllPieces(segs[..n], skips).Some?
  {
    if n == |segs| {
      assert segs[..n] == segs;
    } else {
      var front := segs[..|segs| - 1];
      AllPiecesPrefix(front, skips, n);
      assert front[..n] == segs[..n];
    }
  }

  lemma AllPiecesStep(segs: seq<Segment>, skips: seq<Range>, n: nat)
    requires n < |segs| && AllPieces(segs, skips).Some?
    ensures AllPieces(segs[..n], skips).Some? && AllPieces(segs[..n + 1], skips).Some?
    ensures BoundedSubtract(segs[n].range, skips).Some?
    ensures AllPieces(segs[..n + 1], skips).value ==
            AllPieces(segs[..n], skips).value + Pieces(segs[n], BoundedSubtract(segs[n].range, skips).value)
  {
    AllPiecesPrefix(segs, skips, n + 1);
    assert segs[..n + 1][..n] == segs[..n] && segs[..n + 1][n] == segs[n];
  }

  lemma NoneHitStep(segs: seq<Segment>, skips: seq<Range>, n: nat)
    requires n < |segs|
    ensures NoneHit(segs[..n], skips) && !Hits(segs[n].range, skips) ==> NoneHit(segs[..n + 1], skips)
  {
  }

  lemma {:induction false} NoHitKept(seg: Range, skips: seq<Range>)
    requires !Hits(seg, skips)
    ensures BoundedSubtract(seg, skips) == Some([seg])
  {
    if skips != [] {
      var front, sk := skips[..|skips| - 1], skips[|skips| - 1];
      NoHitKept(seg, front);
      assert Overlaps([seg][0], sk) ==> HitsAny([seg], sk);
      BoundedCutMissOne(seg, sk);
    }
  }

  /** When no skip meets any segment the pieces are the map itself. */
  lemma {:induction false} NoHitsKept(segs: seq<Segment>, skips: seq<Range>)
    requires NoneHit(segs, skips)
    ensures AllPieces(segs, skips) == Some(segs)
  {
    if segs != [] {
      var front, last := segs[..|segs| - 1], segs[|segs| - 1];
      NoHitsKept(front, skips);
      NoHitKept(last.range, skips);
      assert Pieces(last, [last.range]) == [last];
      assert segs == front + [last];
    }
  }

  // --------------------------------------------------------- the whole map

  ghost predicate MapCovers(segs: seq<Segment>, x: nat) {
    Covers(SegRanges(segs), x)
  }

  ghost predicate NonEmptySegments(segs: seq<Segment>) {
    forall i :: 0 <= i < |segs| ==> segs[i].range.start < segs[i].range.end
  }

  lemma MapCoversConcat(a: seq<Segment>, b: seq<Segment>, x: nat)
    ensures MapCovers(a + b, x) <==> MapCovers(a, x) || MapCovers(b, x)
  {
    assert SegRanges(a + b) == SegRanges(a) + SegRanges(b);
    CoversConcat(SegRanges(a), SegRanges(b), x);
  }

  lemma PiecesCover(seg: Segment, ws: seq<Range>, x: nat)
    ensures MapCovers(Pieces(seg, ws), x) <==> Covers(ws, x)
  {
    assert SegRanges(Pieces(seg, ws)) == ws;
  }

  /** No step over any segment needs more than the eight slots. */
  ghost predicate ListsFit(segs: seq<Segment>, skips: seq<Range>) {
    forall i :: 0 <= i < |segs| ==> Fits(segs[i].range, skips)
  }

  /** With at most seven skips every list fits. */
  lemma SevenListsFit(segs: seq<Segment>, skips: seq<Range>)
    requires NonEmptySegments(segs) && NonEmptyRanges(skips) && |skips| < SLOTS
    ensures ListsFit(segs, skips)
  {
    forall i | 0 <= i < |segs| ensures Fits(segs[i].range, skips) {
      SevenFit(segs[i].range, skips);
    }
  }

  /** Where every list fits, none overruns, and each segment yields at most 1 + nskip pieces. */
  lemma {:induction false} PiecesFit(segs: seq<Segment>, skips: seq<Range>)
    requires ListsFit(segs, skips)
    ensures AllPieces(segs, skips).Some?
    ensures NonEmptySegments(segs) && NonEmptyRanges(skips) ==>
              |AllPieces(segs, skips).value| <= |segs| * (1 + |skips|)
  {
    if segs != [] {
      hide Fits, Subtract, BoundedSubtract;
      var front, last := segs[..|segs| - 1], segs[|segs| - 1];
      PiecesFit(front, skips);
      FitsLosesNothing(last.range, skips, 0);
      if NonEmptySegments(segs) && NonEmptyRanges(skips) {
        PieceCount(last.range, skips);
        assert (|front| + 1) * (1 + |skips|) == |front| * (1 + |skips|) + (1 + |skips|);
      }
    }
  }

  /** Some skip meets a full work list of some segment strictly inside one of its first seven remnants. */
  ghost predicate Overruns(segs: seq<Segment>, skips: seq<Range>) {
    exists i :: 0 <= i < |segs| && OverrunsSome(segs[i].range, skips)
  }

  /** That is exactly when the store without a bounds check runs past a list. */
  lemma {:induction false} PiecesOverrunIff(segs: seq<Segment>, skips: seq<Range>)
    requires NonEmptySegments(segs) && NonEmptyRanges(skips)
    ensures AllPieces(segs, skips).None? <==> Overruns(segs, skips)
  {
    hide BoundedSubtract, OverrunsSome;
    if segs != [] {
      var front, last := segs[..|segs| - 1], segs[|segs| - 1];
      PiecesOverrunIff(front, skips);
      OverrunsIff(last.range, skips);
      assert forall i :: 0 <= i < |front| ==> front[i] == segs[i];
    }
  }

  /** The address is in a segment whose work lists never lost it. */
  ghost predicate HeldSomewhere(segs: seq<Segment>, skips: seq<Range>, x: nat) {
    exists i :: 0 <= i < |segs| && segs[i].range.Has(x) && !Lost(segs[i].range, skips, x)
  }

  lemma HeldLast(front: seq<Segment>, last: Segment, skips: seq<Range>, x: nat)
    ensures HeldSomewhere(front + [last], skips, x)
       <==> HeldSomewhere(front, skips, x) || (last.range.Has(x) && !Lost(last.range, skips, x))
  {
    hide Lost;
    var segs := front + [last];
    if HeldSomewhere(front, skips, x) {
      var i :| 0 <= i < |front| && front[i].range.Has(x) && !Lost(front[i].range, skips, x);
      assert segs[i] == front[i];
    }
    assert segs[|front|] == last;
  }

  /** An address that no skip covers and some segment's lists never lost stays in the map. */
  lemma {:induction false} PiecesHold(segs: seq<Segment>, skips: seq<Range>, x: nat)
    requires AllPieces(segs, skips).Some?
    ensures !Covers(skips, x) && HeldSomewhere(segs, skips, x) ==> MapCovers(AllPieces(segs, skips).value, x)
  {
    hide Lost, BoundedSubtract, MapCovers, HeldSomewhere;
    if segs == [] {
      NothingCovered(skips, x);
    } else {
      var front, last := segs[..|segs| - 1], segs[|segs| - 1];
      var ws := BoundedSubtract(last.range, skips).value;
      PiecesHold(front, skips, x);
      MapCoversConcat(AllPieces(front, skips).value, Pieces(last, ws), x);
      PiecesCover(last, ws, x);
      KeptIff(last.range, skips, x);
      HeldLast(front, last, skips, x);
      assert segs == front + [last];
    }
  }

  /** What the pieces cover: the addresses that no skip covers and some segment's lists never lost. */
  lemma {:induction false} PiecesCoverIff(segs: seq<Segment>, skips: seq<Range>, x: nat)
    requires NonEmptySegments(segs) && NonEmptyRanges(skips) && AllPieces(segs, skips).Some?
    ensures MapCovers(AllPieces(segs, skips).value, x) <==> !Covers(skips, x) && HeldSomewhere(segs, skips, x)
  {
    hide Lost, BoundedSubtract, MapCovers, HeldSomewhere;
    if segs == [] {
      NothingCovered(skips, x);
    } else {
      var front, last := segs[..|segs| - 1], segs[|segs| - 1];
      var ws := BoundedSubtract(last.range, skips).value;
      PiecesCoverIff(front, skips, x);
      MapCoversConcat(AllPieces(front, skips).value, Pieces(last, ws), x);
      PiecesCover(last, ws, x);
      KeptIff(last.range, skips, x);
      HeldLast(front, last, skips, x);
      assert segs == front + [last];
    }
  }

  lemma NothingCovered(skips: seq<Range>, x: nat)
    ensures !MapCovers([], x) && !HeldSomewhere([], skips, x)
  {
  }

  /** No list lost the address. */
  ghost predicate NothingLost(segs: seq<Segment>, skips: seq<Range>, x: nat) {
    forall i :: 0 <= i < |segs| ==> !Lost(segs[i].range, skips, x)
  }

  lemma ListsFitLoseNothing(segs: seq<Segment>, skips: seq<Range>, x: nat)
    requires ListsFit(segs, skips)
    ensures NothingLost(segs, skips, x)
  {
    forall i | 0 <= i < |segs| ensures !Lost(segs[i].range, skips, x) {
      FitsLosesNothing(segs[i].range, skips, x);
    }
  }

  lemma HeldIff(segs: seq<Segment>, skips: seq<Range>, x: nat)
    requires NothingLost(segs, skips, x)
    ensures HeldSomewhere(segs, skips, x) <==> MapCovers(segs, x)
  {
    hide Lost;
    if MapCovers(segs, x) {
      var i :| 0 <= i < |segs| && SegRanges(segs)[i].Has(x);
      assert segs[i].range.Has(x);
    }
    if HeldSomewhere(segs, skips, x) {
      var i :| 0 <= i < |segs| && segs[i].range.Has(x) && !Lost(segs[i].range, skips, x);
      assert SegRanges(segs)[i].Has(x);
    }
  }

  ghost predicate ExactAt(segs: seq<Segment>, skips: seq<Range>, maxSegments: nat, x: nat)
    requires AllPieces(segs, skips).Some?
  {
    MapCovers(Pruned(segs, skips, maxSegments), x) <==> MapCovers(segs, x) && !Covers(skips, x)
  }

  /** Pruning subtracts exactly at every address no full list lost, as long as the map holds all pieces. */
  lemma PruneIsExact(segs: seq<Segment>, skips: seq<Range>, maxSegments: nat, x: nat)
    requires NonEmptySegments(segs) && NonEmptyRanges(skips) && AllPieces(segs, skips).Some?
    requires |AllPieces(segs, skips).value| <= maxSegments && NothingLost(segs, skips, x)
    ensures ExactAt(segs, skips, maxSegments, x)
  {
    hide AllPieces, MapCovers, NothingLost, HeldSomewhere;
    PiecesCoverIff(segs, skips, x);
    HeldIff(segs, skips, x);
  }

  lemma OrderedApart(ps: seq<Segment>, n: nat, lo: nat, hi: nat)
    requires OrderedWithin(ps, lo, hi) && n < |ps|
    ensures !MapCovers(ps[..n], ps[n].range.start) && ps[n].range.Has(ps[n].range.start)
  {
    var rs := SegRanges(ps);
    assert forall i :: 0 <= i < n ==> rs[i].end <= rs[n].start;
    assert rs[n].start < rs[n].end;
  }

  lemma OneSegment(segs: seq<Segment>, i: nat, j: nat, lo: nat, hi: nat, x: nat)
    requires OrderedWithin(segs, lo, hi) && i < |segs| && j < |segs| && segs[i].range.Has(x) && segs[j].range.Has(x)
    ensures i == j
  {
    var rs := SegRanges(segs);
    assert rs[i].Has(x) && rs[j].Has(x);
  }

  /** The prune overruns nothing, and the new map covers exactly the old one minus the skips. */
  ghost predicate PrunesExactly(segs: seq<Segment>, skips: seq<Range>, maxSegments: nat) {
    AllPieces(segs, skips).Some? && forall x: nat :: ExactAt(segs, skips, maxSegments, x)
  }

  /** For every ordered map and every skip table: pruning is exact if and only if no skip splits an early remnant of a
      full list, no full list lost an address for good, and the map holds all pieces. */
  lemma PruneIsExactIff(segs: seq<Segment>, skips: seq<Range>, maxSegments: nat, lo: nat, hi: nat)
    requires OrderedWithin(segs, lo, hi) && NonEmptyRanges(skips)
    ensures PrunesExactly(segs, skips, maxSegments)
       <==> && !Overruns(segs, skips) && (forall x: nat :: NothingLost(segs, skips, x))
            && (AllPieces(segs, skips).Some? ==> |AllPieces(segs, skips).value| <= maxSegments)
  {
    hide AllPieces, NothingLost, ExactAt, Overruns;
    OrderedNonEmpty(segs, lo, hi);
    PiecesOverrunIff(segs, skips);
    if AllPieces(segs, skips).None? {
      assert !PrunesExactly(segs, skips, maxSegments);
    } else if x: nat :| !NothingLost(segs, skips, x) {
      LostNotExact(segs, skips, maxSegments, lo, hi, x);
    } else if |AllPieces(segs, skips).value| > maxSegments {
      TruncatedNotExact(segs, skips, maxSegments, lo, hi);
    } else {
      forall x: nat ensures ExactAt(segs, skips, maxSegments, x) {
        PruneIsExact(segs, skips, maxSegments, x);
      }
    }
  }

  lemma OrderedNonEmpty(segs: seq<Segment>, lo: nat, hi: nat)
    requires OrderedWithin(segs, lo, hi)
    ensures NonEmptySegments(segs)
  {
    assert forall i :: 0 <= i < |segs| ==> SegRanges(segs)[i] == segs[i].range;
  }

  lemma LostNotExact(segs: seq<Segment>, skips: seq<Range>, maxSegments: nat, lo: nat, hi: nat, x: nat)
    requires OrderedWithin(segs, lo, hi) && NonEmptyRanges(skips) && AllPieces(segs, skips).Some?
    requires !NothingLost(segs, skips, x)
    ensures !ExactAt(segs, skips, maxSegments, x)
  {
    hide AllPieces, Lost, OrderedWithin;
    OrderedNonEmpty(segs, lo, hi);
    var i :| 0 <= i < |segs| && Lost(segs[i].range, skips, x);
    LostWasGood(segs[i].range, skips, x);
    assert SegRanges(segs)[i].Has(x);
    PiecesCoverIff(segs, skips, x);
    forall j | 0 <= j < |segs| && segs[j].range.Has(x) ensures Lost(segs[j].range, skips, x) {
      OneSegment(segs, i, j, lo, hi, x);
    }
    TakeCoversLess(AllPieces(segs, skips).value, maxSegments, x);
  }

  lemma TakeCoversLess(ps: seq<Segment>, n: nat, x: nat)
    ensures MapCovers(Take(ps, n), x) ==> MapCovers(ps, x)
  {
    if MapCovers(Take(ps, n), x) {
      var i :| 0 <= i < |Take(ps, n)| && SegRanges(Take(ps, n))[i].Has(x);
      assert SegRanges(ps)[i].Has(x);
    }
  }

  lemma TruncatedNotExact(segs: seq<Segment>, skips: seq<Range>, maxSegments: nat, lo: nat, hi: nat)
    requires OrderedWithin(segs, lo, hi) && NonEmptyRanges(skips) && AllPieces(segs, skips).Some?
    requires |AllPieces(segs, skips).value| > maxSegments
    ensures exists x: nat :: !ExactAt(segs, skips, maxSegments, x)
  {
    hide AllPieces, OrderedWithin;
    var ps := AllPieces(segs, skips).value;
    PiecesKeepOrder(segs, skips, lo, hi);
    OrderedApart(ps, maxSegments, lo, hi);
    var x := ps[maxSegments].range.start;
    PruneOnlyLosesGood(segs, skips, ps[maxSegments], x);
    var i :| 0 <= i < |segs| && segs[i].range.Has(x);
    assert SegRanges(segs)[i].Has(x);
    assert !ExactAt(segs, skips, maxSegments, x);
  }

  /** Whatever the number of skips and pieces, what is tested after pruning was in the map and is not skipped:
      a dropped piece or a truncated map only loses good memory. Every piece lies in one old segment and keeps its
      other fields. */
  lemma {:induction false} PruneOnlyLosesGood(segs: seq<Segment>, skips: seq<Range>, p: Segment, x: nat)
    requires AllPieces(segs, skips).Some? && p in AllPieces(segs, skips).value && p.range.Has(x)
    ensures !Covers(skips, x)
    ensures exists i :: 0 <= i < |segs| && segs[i].range.Has(x) && p == segs[i].(range := p.range)
  {
    var front, last := segs[..|segs| - 1], segs[|segs| - 1];
    var ws := BoundedSubtract(last.range, skips).value;
    if p in AllPieces(front, skips).value {
      PruneOnlyLosesGood(front, skips, p, x);
      var i :| 0 <= i < |front| && front[i].range.Has(x) && p == front[i].(range := p.range);
      assert segs[i] == front[i];
    } else {
      assert p in Pieces(last, ws);
      var k :| 0 <= k < |ws| && p == last.(range := ws[k]);
      assert ws[k].Has(x);
      BoundedSound(last.range, skips, x);
    }
  }

  ghost predicate OrderedWithin(segs: seq<Segment>, lo: nat, hi: nat) {
    Ordered(SegRanges(segs)) && Within(SegRanges(segs), lo, hi) && lo <= hi
  }

  lemma PiecesOrdered(before: seq<Segment>, last: Segment, ws: seq<Range>, lo: nat, mid: nat)
    requires OrderedWithin(before, lo, mid) && mid <= last.range.start <= last.range.end
    requires Ordered(ws) && Within(ws, last.range.start, last.range.end)
    ensures OrderedWithin(before + Pieces(last, ws), lo, last.range.end)
  {
    assert SegRanges(before + Pieces(last, ws)) == SegRanges(before) + ws;
    OrderedConcat(SegRanges(before), ws, lo, mid, last.range.start, last.range.end);
  }

  lemma OrderedFront(segs: seq<Segment>, lo: nat, hi: nat)
    requires OrderedWithin(segs, lo, hi) && segs != []
    ensures var last := segs[|segs| - 1].range;
            last.start < last.end <= hi && lo <= last.start && OrderedWithin(segs[..|segs| - 1], lo, last.start)
  {
    var rs := SegRanges(segs);
    OrderedParts(rs);
    assert rs[..|rs| - 1] == SegRanges(segs[..|segs| - 1]);
  }

  lemma WiderWithin(segs: seq<Segment>, lo: nat, mid: nat, hi: nat)
    requires OrderedWithin(segs, lo, mid) && mid <= hi
    ensures OrderedWithin(segs, lo, hi)
  {
  }

  lemma {:induction false} PiecesKeepOrder(segs: seq<Segment>, skips: seq<Range>, lo: nat, hi: nat)
    requires OrderedWithin(segs, lo, hi) && NonEmptyRanges(skips) && AllPieces(segs, skips).Some?
    ensures OrderedWithin(AllPieces(segs, skips).value, lo, hi)
  {
    if segs != [] {
      hide BoundedSubtract, OrderedWithin;
      var front, last := segs[..|segs| - 1], segs[|segs| - 1];
      OrderedFront(segs, lo, hi);
      PiecesKeepOrder(front, skips, lo, last.range.start);
      BoundedSubtractOrdered(last.range, skips);
      var ws := BoundedSubtract(last.range, skips).value;
      PiecesOrdered(AllPieces(front, skips).value, last, ws, lo, last.range.start);
      WiderWithin(AllPieces(segs, skips).value, lo, last.range.end, hi);
    }
  }

  /** An ordered map of disjoint non-empty segments stays one, inside the same bounds, for every skip table and
      capacity. */
  lemma PruneKeepsOrder(segs: seq<Segment>, skips: seq<Range>, maxSegments: nat, lo: nat, hi: nat)
    requires OrderedWithin(segs, lo, hi) && NonEmptyRanges(skips) && AllPieces(segs, skips).Some?
    ensures OrderedWithin(Pruned(segs, skips, maxSegments), lo, hi)
  {
    hide AllPieces;
    PiecesKeepOrder(segs, skips, lo, hi);
    var ps := AllPieces(segs, skips).value;
    assert SegRanges(Take(ps, maxSegments)) == Take(SegRanges(ps), maxSegments);
  }

  lemma {:induction false} PiecesClear(segs: seq<Segment>, skips: seq<Range>)
    requires AllPieces(segs, skips).Some?
    ensures forall p, k :: p in AllPieces(segs, skips).value && 0 <= k < |skips| ==> !Overlaps(p.range, skips[k])
  {
    if segs != [] {
      var front, last := segs[..|segs| - 1], segs[|segs| - 1];
      PiecesClear(front, skips);
      BoundedClear(last.range, skips);
      var ws := BoundedSubtract(last.range, skips).value;
      forall p, k | p in AllPieces(segs, skips).value && 0 <= k < |skips| ensures !Overlaps(p.range, skips[k]) {
        if p !in AllPieces(front, skips).value {
          assert p in Pieces(last, ws);
          var i :| 0 <= i < |ws| && p == last.(range := ws[i]);
          assert ws[i] in ws;
        }
      }
    }
  }

  /** A second prune changes nothing, for every skip table and capacity. */
  lemma PruneIdempotent(segs: seq<Segment>, skips: seq<Range>, maxSegments: nat)
    requires AllPieces(segs, skips).Some?
    ensures var once := Pruned(segs, skips, maxSegments);
            AllPieces(once, skips).Some? && Pruned(once, skips, maxSegments) == once
  {
    PiecesClear(segs, skips);
    var once := Pruned(segs, skips, maxSegments);
    forall j | 0 <= j < |once| ensures !Hits(once[j].range, skips) {
      assert once[j] in AllPieces(segs, skips).value;
      ClearSegmentKept(once[j].range, skips);
    }
    NoHitsKept(once, skips);
  }
}
