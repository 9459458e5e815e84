/** Subtracting the skip table from one segment of the test map, with the eight-slot work lists of the original. */
module Prune {
  import opened Common
  import opened Intervals
  import opened BadmemLog

  const SLOTS: nat := 8

  predicate Overlaps(w: Range, sk: Range) {
    !(sk.end <= w.start || sk.start >= w.end)
  }

  // ---------------------------------------------------- unbounded subtraction

  /** What is left of one remnant: nothing, one piece or two. */
  function Cut(w: Range, sk: Range): seq<Range> {
    if !Overlaps(w, sk) then [w]
    else
      (if sk.start > w.start then [Range(w.start, sk.start)] else []) +
      (if sk.end < w.end then [Range(sk.end, w.end)] else [])
  }

  function CutAll(ws: seq<Range>, sk: Range): seq<Range> {
    if ws == [] then [] else CutAll(ws[..|ws| - 1], sk) + Cut(ws[|ws| - 1], sk)
  }

  function Subtract(seg: Range, skips: seq<Range>): seq<Range> {
    if skips == [] then [seg] else CutAll(Subtract(seg, skips[..|skips| - 1]), skips[|skips| - 1])
  }

  // ------------------------------------------- the same with eight work slots

  function Push(acc: seq<Range>, w: Range): seq<Range> {
    if |acc| < SLOTS then acc + [w] else acc
  }

  /** One remnant against one skip. The keep-as-is branch has no capacity check, so it would write past
      the eighth slot: that is `None`. A piece of a split remnant that does not fit is dropped. */
  function Place(acc: seq<Range>, w: Range, sk: Range): Option<seq<Range>> {
    if !Overlaps(w, sk) then
      if |acc| < SLOTS then Some(acc + [w]) else None
    else
      var left := if sk.start > w.start then Push(acc, Range(w.start, sk.start)) else acc;
      Some(if sk.end < w.end then Push(left, Range(sk.end, w.end)) else left)
  }

  function BoundedCut(ws: seq<Range>, sk: Range): (r: Option<seq<Range>>)
    ensures r.Some? ==> |r.value| <= SLOTS
  {
    if ws == [] then Some([])
    else
      match BoundedCut(ws[..|ws| - 1], sk)
      case None => None
      case Some(acc) => Place(acc, ws[|ws| - 1], sk)
  }

  function BoundedSubtract(seg: Range, skips: seq<Range>): (r: Option<seq<Range>>)
    ensures r.Some? ==> |r.value| <= SLOTS
  {
    if skips == [] then Some([seg])
    else
      match BoundedSubtract(seg, skips[..|skips| - 1])
      case None => None
      case Some(ws) => BoundedCut(ws, skips[|skips| - 1])
  }

  // ------------------------------------------------------------- the methods

  /** Whether some skip meets a remnant that is still there when its turn comes. */
  ghost predicate Hits(seg: Range, skips: seq<Range>) {
    skips != [] &&
    var front := skips[..|skips| - 1];
    || Hits(seg, front)
    || (BoundedSubtract(seg, front).Some? && HitsAny(BoundedSubtract(seg, front).value, skips[|skips| - 1]))
  }

  ghost predicate HitsAny(ws: seq<Range>, sk: Range) {
    exists w :: 0 <= w < |ws| && Overlaps(ws[w], sk)
  }

  lemma {:induction false} BoundedCutPrefix(ws: seq<Range>, sk: Range, n: nat)
    requires n <= |ws| && BoundedCut(ws, sk).Some?
    ensures BoundedCut(ws[..n], sk).Some?
  {
    if n == |ws| {
      assert ws[..n] == ws;
    } else {
      BoundedCutPrefix(ws[..|ws| - 1], sk, n);
      assert ws[..|ws| - 1][..n] == ws[..n];
    }
  }

  lemma BoundedCutStep(ws: seq<Range>, sk: Range, n: nat)
    requires n < |ws| && BoundedCut(ws, sk).Some?
    ensures BoundedCut(ws[..n], sk).Some? && BoundedCut(ws[..n + 1], sk).Some?
    ensures BoundedCut(ws[..n + 1], sk) == Place(BoundedCut(ws[..n], sk).value, ws[n], sk)
    ensures HitsAny(ws[..n + 1], sk) <==> HitsAny(ws[..n], sk) || Overlaps(ws[n], sk)
  {
    hide Place, Overlaps, HitsAny;
    BoundedCutPrefix(ws, sk, n + 1);
    HitsAnyAppend(ws[..n], ws[n], sk);
    assert ws[..n + 1] == ws[..n] + [ws[n]];
    var next := ws[..n + 1];
    assert next[..|next| - 1] == ws[..n] && next[|next| - 1] == ws[n];
  }

  lemma HitsAnyAppend(ws: seq<Range>, w: Range, sk: Range)
    ensures HitsAny(ws + [w], sk) <==> HitsAny(ws, sk) || Overlaps(w, sk)
  {
    if HitsAny(ws, sk) {
      var i :| 0 <= i < |ws| && Overlaps(ws[i], sk);
      assert (ws + [w])[i] == ws[i];
    }
    assert (ws + [w])[|ws|] == w;
  }

  lemma {:induction false} BoundedSubtractPrefix(seg: Range, skips: seq<Range>, n: nat)
    requires n <= |skips| && BoundedSubtract(seg, skips).Some?
    ensures BoundedSubtract(seg, skips[..n]).Some?
  {
    if n == |skips| {
      assert skips[..n] == skips;
    } else {
      BoundedSubtractPrefix(seg, skips[..|skips| - 1], n);
      assert skips[..|skips| - 1][..n] == skips[..n];
    }
  }

  /** The guarded store of one piece: dropped when the list is full. */
  method PushRange(list: array<Range>, n: nat, w: Range) returns (m: nat)
    requires list.Length == SLOTS && n <= SLOTS
    modifies list
    ensures m <= SLOTS && list[..m] == Push(old(list[..n]), w)
  {
    m := n;
    if n < SLOTS {
      list[n] := w;
      m := n + 1;
    }
  }

  /** The body of the inner loop: one remnant against one skip. */
  method PlaceRemnant(list: array<Range>, n: nat, w: Range, sk: Range) returns (m: nat, hit: bool)
    requires list.Length == SLOTS && n <= SLOTS && Place(list[..n], w, sk).Some?
    modifies list
    ensures m <= SLOTS && Place(old(list[..n]), w, sk) == Some(list[..m])
    ensures hit <==> Overlaps(w, sk)
  {
    if sk.end <= w.start || sk.start >= w.end {
      m := PushRange(list, n, w);
      return m, false;
    }
    m, hit := n, true;
    if sk.start > w.start {
      m := PushRange(list, m, Range(w.start, sk.start));
    }
    if sk.end < w.end {
      m := PushRange(list, m, Range(sk.end, w.end));
    }
  }

  /** The inner loop: every remnant of `work` against one skip range. */
  method CutRemnants(work: array<Range>, nwork: nat, sk: Range, list: array<Range>) returns (m: nat, hit: bool)
    requires work.Length == SLOTS == list.Length && work != list && nwork <= SLOTS
    requires BoundedCut(work[..nwork], sk).Some?
    modifies list
    ensures m <= SLOTS && BoundedCut(work[..nwork], sk) == Some(list[..m])
    ensures hit == HitsAny(work[..nwork], sk)
  {
    m, hit := 0, false;
    ghost var ws := work[..nwork];
    for w := 0 to nwork
      invariant work[..nwork] == ws && m <= SLOTS
      invariant BoundedCut(ws[..w], sk) == Some(list[..m])
      invariant hit == HitsAny(ws[..w], sk)
    {
      BoundedCutStep(ws, sk, w);
      var h: bool;
      m, h := PlaceRemnant(list, m, work[w], sk);
      hit := hit || h;
    }
    assert ws[..nwork] == ws;
  }

  lemma {:induction false} NothingLeft(seg: Range, skips: seq<Range>, k: nat)
    requires k <= |skips| && BoundedSubtract(seg, skips[..k]) == Some([])
    ensures BoundedSubtract(seg, skips) == Some([]) && Hits(seg, skips) == Hits(seg, skips[..k])
    decreases |skips|
  {
    if k == |skips| {
      assert skips[..k] == skips;
    } else {
      assert skips[..|skips| - 1][..k] == skips[..k];
      NothingLeft(seg, skips[..|skips| - 1], k);
    }
  }

  /** The middle loop: one segment against the whole skip table. */
  method CutSegment(seg: Range, skips: SkipList) returns (work: array<Range>, nwork: nat, pruned: bool)
    requires skips.Valid() && BoundedSubtract(seg, Ranges(skips.Contents())).Some?
    ensures fresh(work) && work.Length == SLOTS && nwork <= SLOTS
    ensures BoundedSubtract(seg, Ranges(skips.Contents())) == Some(work[..nwork])
    ensures pruned == Hits(seg, Ranges(skips.Contents()))
  {
    work := new Range[SLOTS](_ => seg);
    nwork, pruned := 1, false;
    ghost var sks := Ranges(skips.Contents());
    assert work[..1] == [seg];
    var k := 0;
    while k < skips.count && nwork > 0
      invariant fresh(work) && work.Length == SLOTS && nwork <= SLOTS && k <= skips.count
      invariant BoundedSubtract(seg, sks[..k]) == Some(work[..nwork])
      invariant pruned == Hits(seg, sks[..k])
    {
      BoundedSubtractPrefix(seg, sks, k + 1);
      assert sks[..k + 1][..k] == sks[..k];
      var list := new Range[SLOTS](_ => seg);
      var m, hit := CutRemnants(work, nwork, skips.table[k].range, list);
      pruned := pruned || hit;
      work, nwork, k := list, m, k + 1;
    }
    if nwork == 0 {
      NothingLeft(seg, sks, k);
    } else {
      assert sks[..k] == sks;
    }
  }

  // ------------------------------------------------------ exactness and loss

  lemma {:induction false} CutAllCovers(ws: seq<Range>, sk: Range, x: nat)
    ensures Covers(CutAll(ws, sk), x) <==> Covers(ws, x) && !sk.Has(x)
  {
    if ws != [] {
      var front, w := ws[..|ws| - 1], ws[|ws| - 1];
      CutAllCovers(front, sk, x);
      CoversConcat(CutAll(front, sk), Cut(w, sk), x);
      CoversConcat(front, [w], x);
      assert ws == front + [w];
      CutCovers(w, sk, x);
    }
  }

  lemma CutCovers(w: Range, sk: Range, x: nat)
    ensures Covers(Cut(w, sk), x) <==> w.Has(x) && !sk.Has(x)
    ensures Covers([w], x) <==> w.Has(x)
  {
    assert [w][0] == w;
    var left := if sk.start > w.start then [Range(w.start, sk.start)] else [];
    var right := if sk.end < w.end then [Range(sk.end, w.end)] else [];
    CoversConcat(left, right, x);
    assert left != [] ==> (Covers(left, x) <==> left[0].Has(x));
    assert right != [] ==> (Covers(right, x) <==> right[0].Has(x));
  }

  /** Unbounded subtraction is set difference. */
  lemma {:induction false} SubtractCovers(seg: Range, skips: seq<Range>, x: nat)
    ensures Covers(Subtract(seg, skips), x) <==> seg.Has(x) && !Covers(skips, x)
  {
    if skips == [] {
      CutCovers(seg, Range(0, 0), x);
    } else {
      var front, sk := skips[..|skips| - 1], skips[|skips| - 1];
      SubtractCovers(seg, front, x);
      CutAllCovers(Subtract(seg, front), sk, x);
      CoversConcat(front, [sk], x);
      assert skips == front + [sk];
      assert Covers([sk], x) <==> [sk][0].Has(x);
    }
  }

  /** Placing keeps as many of the exact pieces as there are free slots; only a split may lose one. */
  lemma PlacePrefix(acc: seq<Range>, w: Range, sk: Range)
    requires |acc| <= SLOTS
    ensures Place(acc, w, sk).Some? ==> Place(acc, w, sk).value == acc + Take(Cut(w, sk), SLOTS - |acc|)
    ensures |acc| + |Cut(w, sk)| <= SLOTS ==> Place(acc, w, sk).Some?
  {
    var left := if sk.start > w.start then [Range(w.start, sk.start)] else [];
    var right := if sk.end < w.end then [Range(sk.end, w.end)] else [];
    assert (acc + left) + right == acc + (left + right);
    assert left + [] == left && [] + right == right && acc + [] == acc;
  }

  /** One skip is applied without loss exactly when the pieces fit the eight slots. */
  lemma {:induction false} BoundedCutExact(ws: seq<Range>, sk: Range)
    ensures BoundedCut(ws, sk) == Some(CutAll(ws, sk)) <==> |CutAll(ws, sk)| <= SLOTS
  {
    if ws != [] && |CutAll(ws, sk)| <= SLOTS {
      BoundedCutExact(ws[..|ws| - 1], sk);
      PlacePrefix(CutAll(ws[..|ws| - 1], sk), ws[|ws| - 1], sk);
    }
  }

  ghost predicate LosslessAt(seg: Range, skips: seq<Range>, k: nat)
    requires k <= |skips|
  {
    BoundedSubtract(seg, skips[..k]) == Some(Subtract(seg, skips[..k]))
  }

  ghost predicate FitsAt(seg: Range, skips: seq<Range>, k: nat)
    requires k <= |skips|
  {
    |Subtract(seg, skips[..k])| <= SLOTS
  }

  /** The whole skip table is applied to a segment without losing a piece at any step exactly when no step
      of the unbounded subtraction leaves more than eight pieces. */
  lemma LosslessIff(seg: Range, skips: seq<Range>)
    ensures (forall k :: 0 <= k <= |skips| ==> LosslessAt(seg, skips, k))
       <==> (forall k :: 0 <= k <= |skips| ==> FitsAt(seg, skips, k))
  {
    if forall k :: 0 <= k <= |skips| ==> FitsAt(seg, skips, k) {
      forall k | 0 <= k <= |skips| ensures LosslessAt(seg, skips, k) {
        FitsLossless(seg, skips, k);
      }
    } else {
      var k :| 0 <= k <= |skips| && !FitsAt(seg, skips, k);
      assert !LosslessAt(seg, skips, k);
    }
  }

  lemma {:induction false} FitsLossless(seg: Range, skips: seq<Range>, k: nat)
    requires k <= |skips| && forall j :: 0 <= j <= |skips| ==> FitsAt(seg, skips, j)
    ensures LosslessAt(seg, skips, k)
  {
    if k > 0 {
      FitsLossless(seg, skips, k - 1);
      assert skips[..k][..k - 1] == skips[..k - 1];
      assert FitsAt(seg, skips, k);
      BoundedCutExact(Subtract(seg, skips[..k - 1]), skips[k - 1]);
    }
  }

  ghost predicate Splits(w: Range, sk: Range) {
    w.start < sk.start && sk.end < w.end
  }

  ghost predicate SplitsAny(ws: seq<Range>, sk: Range) {
    exists i :: 0 <= i < |ws| && Splits(ws[i], sk)
  }

  ghost predicate Within(ws: seq<Range>, lo: nat, hi: nat) {
    forall i :: 0 <= i < |ws| ==> lo <= ws[i].start && ws[i].end <= hi
  }

  lemma OrderedConcat(a: seq<Range>, b: seq<Range>, lo: nat, mid: nat, mid': nat, hi: nat)
    requires Ordered(a) && Ordered(b) && Within(a, lo, mid) && Within(b, mid', hi) && lo <= mid <= mid' <= hi
    ensures Ordered(a + b) && Within(a + b, lo, hi)
  {
  }

  lemma CutOrdered(w: Range, sk: Range)
    requires w.start < w.end && sk.start < sk.end
    ensures Ordered(Cut(w, sk)) && Within(Cut(w, sk), w.start, w.end)
    ensures |Cut(w, sk)| <= if Splits(w, sk) then 2 else 1
  {
  }

  lemma OrderedParts(ws: seq<Range>)
    requires Ordered(ws) && ws != []
    ensures var front, w := ws[..|ws| - 1], ws[|ws| - 1];
            && Ordered(front) && w.start < w.end
            && (front != [] ==> front[0].start < front[|front| - 1].end <= w.start)
  {
  }

  /** Pieces stay ordered and disjoint, and one skip splits at most one remnant in two. */
  lemma {:induction false} AtMostOneSplit(ws: seq<Range>, sk: Range)
    requires Ordered(ws) && sk.start < sk.end
    ensures Ordered(CutAll(ws, sk))
    ensures ws != [] ==> Within(CutAll(ws, sk), ws[0].start, ws[|ws| - 1].end)
    ensures |CutAll(ws, sk)| <= |ws| + if SplitsAny(ws, sk) then 1 else 0
  {
    if ws != [] {
      var front, w := ws[..|ws| - 1], ws[|ws| - 1];
      OrderedParts(ws);
      AtMostOneSplit(front, sk);
      CutOrdered(w, sk);
      if front != [] {
        var f := front[|front| - 1];
        OrderedConcat(CutAll(front, sk), Cut(w, sk), front[0].start, f.end, w.start, w.end);
      }
      if SplitsAny(front, sk) {
        var i :| 0 <= i < |front| && Splits(front[i], sk);
        assert Splits(ws[i], sk) && !Splits(w, sk);
      }
    }
  }

  /** Whatever the table, what the eight slots hold stays ordered and inside the hull of what they held. */
  lemma {:induction false} BoundedCutOrdered(ws: seq<Range>, sk: Range)
    requires Ordered(ws) && sk.start < sk.end && BoundedCut(ws, sk).Some?
    ensures Ordered(BoundedCut(ws, sk).value)
    ensures ws != [] ==> Within(BoundedCut(ws, sk).value, ws[0].start, ws[|ws| - 1].end)
  {
    if ws != [] {
      var front, w := ws[..|ws| - 1], ws[|ws| - 1];
      var acc := BoundedCut(front, sk).value;
      OrderedParts(ws);
      BoundedCutOrdered(front, sk);
      CutOrdered(w, sk);
      PlacePrefix(acc, w, sk);
      var kept := Take(Cut(w, sk), SLOTS - |acc|);
      assert Ordered(kept) && Within(kept, w.start, w.end);
      assert BoundedCut(ws, sk).value == acc + kept;
      if front == [] {
        assert acc == [] && acc + kept == kept;
      } else {
        OrderedConcat(acc, kept, front[0].start, front[|front| - 1].end, w.start, w.end);
      }
    }
  }

  lemma {:induction false} CutAllMisses(ws: seq<Range>, sk: Range)
    requires forall i :: 0 <= i < |ws| ==> !Overlaps(ws[i], sk)
    ensures CutAll(ws, sk) == ws
  {
    if ws != [] {
      CutAllMisses(ws[..|ws| - 1], sk);
    }
  }

  /** A skip inside one remnant of an ordered list touches no other, so it leaves exactly one piece more. */
  lemma SplitAddsOne(ws: seq<Range>, sk: Range)
    requires Ordered(ws) && sk.start < sk.end && SplitsAny(ws, sk)
    ensures |CutAll(ws, sk)| == |ws| + 1
    decreases |ws|
  {
    var front, w := ws[..|ws| - 1], ws[|ws| - 1];
    var i :| 0 <= i < |ws| && Splits(ws[i], sk);
    if i < |front| {
      assert Splits(front[i], sk) && !Overlaps(w, sk);
      SplitAddsOne(front, sk);
    } else {
      CutAllMisses(front, sk);
    }
  }

  /** The store without a bounds check runs past the eighth slot exactly when the list is full and the skip lies
      strictly inside one of its first seven remnants. */
  lemma CutOverrunsIff(ws: seq<Range>, sk: Range)
    requires Ordered(ws) && sk.start < sk.end && |ws| <= SLOTS
    ensures BoundedCut(ws, sk).None? <==> |ws| == SLOTS && SplitsAny(ws[..SLOTS - 1], sk)
  {
    if ws != [] {
      hide CutAll, BoundedCut, Splits;
      var front, w := ws[..|ws| - 1], ws[|ws| - 1];
      OrderedParts(ws);
      AtMostOneSplit(front, sk);
      BoundedCutExact(front, sk);
      BoundedCutAtEnd(ws, sk);
      if SplitsAny(front, sk) {
        SplitAddsOne(front, sk);
        SplitMissesLast(ws, sk);
      }
    }
  }

  lemma BoundedCutAtEnd(ws: seq<Range>, sk: Range)
    requires ws != [] && BoundedCut(ws[..|ws| - 1], sk).Some?
    ensures BoundedCut(ws, sk) == Place(BoundedCut(ws[..|ws| - 1], sk).value, ws[|ws| - 1], sk)
  {
  }

  lemma SplitMissesLast(ws: seq<Range>, sk: Range)
    requires ws != [] && Ordered(ws) && SplitsAny(ws[..|ws| - 1], sk)
    ensures !Overlaps(ws[|ws| - 1], sk)
  {
  }

  /** Skip `k` meets a full work list and lies strictly inside one of its first seven remnants. */
  ghost predicate OverrunsAt(seg: Range, skips: seq<Range>, k: nat)
    requires k < |skips|
  {
    && BoundedSubtract(seg, skips[..k]).Some? && |BoundedSubtract(seg, skips[..k]).value| == SLOTS
    && SplitsAny(BoundedSubtract(seg, skips[..k]).value[..SLOTS - 1], skips[k])
  }

  ghost predicate OverrunsSome(seg: Range, skips: seq<Range>) {
    exists k :: 0 <= k < |skips| && OverrunsAt(seg, skips, k)
  }

  lemma OverrunsLast(seg: Range, front: seq<Range>, sk: Range)
    ensures OverrunsSome(seg, front + [sk]) <==> OverrunsSome(seg, front) || OverrunsAt(seg, front + [sk], |front|)
  {
    hide BoundedSubtract, SplitsAny;
    var skips := front + [sk];
    forall k | 0 <= k < |front| ensures OverrunsAt(seg, front, k) <==> OverrunsAt(seg, skips, k) {
      assert front[..k] == skips[..k] && front[k] == skips[k];
    }
    if OverrunsSome(seg, front) {
      var k :| 0 <= k < |front| && OverrunsAt(seg, front, k);
      assert OverrunsAt(seg, skips, k);
    }
  }

  /** A whole skip table overruns the work list of a segment exactly when one of its skips does that. */
  lemma {:induction false} OverrunsIff(seg: Range, skips: seq<Range>)
    requires seg.start < seg.end && NonEmptyRanges(skips)
    ensures BoundedSubtract(seg, skips).None? <==> OverrunsSome(seg, skips)
  {
    if skips != [] {
      hide BoundedCut, SplitsAny, OverrunsSome;
      var front, sk := skips[..|skips| - 1], skips[|skips| - 1];
      assert skips == front + [sk] && skips[..|front|] == front;
      OverrunsIff(seg, front);
      OverrunsLast(seg, front, sk);
      if BoundedSubtract(seg, front).Some? {
        BoundedSubtractOrdered(seg, front);
        CutOverrunsIff(BoundedSubtract(seg, front).value, sk);
      }
    }
  }

  ghost predicate NonEmptyRanges(skips: seq<Range>) {
    forall i :: 0 <= i < |skips| ==> skips[i].start < skips[i].end
  }

  lemma {:induction false} BoundedSubtractOrdered(seg: Range, skips: seq<Range>)
    requires seg.start < seg.end && NonEmptyRanges(skips) && BoundedSubtract(seg, skips).Some?
    ensures var ws := BoundedSubtract(seg, skips).value; Ordered(ws) && Within(ws, seg.start, seg.end)
  {
    if skips != [] {
      var front := skips[..|skips| - 1];
      BoundedSubtractOrdered(seg, front);
      BoundedCutOrdered(BoundedSubtract(seg, front).value, skips[|skips| - 1]);
    }
  }

  // --------------------------------------------------- what a full list loses

  /** The pieces past the eighth that a skip leaves of a work list. */
  function Refused(ws: seq<Range>, sk: Range): seq<Range> {
    var ps := CutAll(ws, sk);
    if |ps| <= SLOTS then [] else ps[SLOTS..]
  }

  /** The address was in a piece that a full work list refused, and no later skip covers it. */
  ghost predicate Lost(seg: Range, skips: seq<Range>, x: nat) {
    skips != [] &&
    var front, sk := skips[..|skips| - 1], skips[|skips| - 1];
    || (Lost(seg, front, x) && !sk.Has(x))
    || (BoundedSubtract(seg, front).Some? && Covers(Refused(BoundedSubtract(seg, front).value, sk), x))
  }

  /** What the eight slots hold after one skip is the first eight of the exact pieces. */
  lemma {:induction false} BoundedCutTake(ws: seq<Range>, sk: Range)
    requires BoundedCut(ws, sk).Some?
    ensures BoundedCut(ws, sk).value == Take(CutAll(ws, sk), SLOTS)
  {
    hide Cut, Place;
    if ws != [] {
      var front, w := ws[..|ws| - 1], ws[|ws| - 1];
      BoundedCutTake(front, sk);
      PlacePrefix(BoundedCut(front, sk).value, w, sk);
      TakeFirst(CutAll(front, sk), Cut(w, sk), SLOTS);
    }
  }

  lemma TakeFirst<T>(a: seq<T>, b: seq<T>, n: nat)
    ensures Take(a + b, n) == Take(a, n) + Take(b, n - |Take(a, n)|)
  {
  }

  lemma TakenOrRefused(ws: seq<Range>, sk: Range, x: nat)
    ensures var ps := CutAll(ws, sk);
            && (Covers(ps, x) <==> Covers(Take(ps, SLOTS), x) || Covers(Refused(ws, sk), x))
            && (Ordered(ps) ==> !(Covers(Take(ps, SLOTS), x) && Covers(Refused(ws, sk), x)))
  {
    hide CutAll;
    var ps := CutAll(ws, sk);
    CoversConcat(Take(ps, SLOTS), Refused(ws, sk), x);
    assert ps == Take(ps, SLOTS) + Refused(ws, sk);
    if Ordered(ps) {
      forall i, j | 0 <= i < |Take(ps, SLOTS)| && 0 <= j < |Refused(ws, sk)|
        ensures !(Take(ps, SLOTS)[i].Has(x) && Refused(ws, sk)[j].Has(x))
      {
        assert ps[i].end <= ps[SLOTS + j].start;
      }
    }
  }

  /** An address stays in the map when it is not skipped and no full list lost it; for a non-empty segment and
      skips, exactly then. */
  lemma {:induction false} KeptIff(seg: Range, skips: seq<Range>, x: nat)
    requires BoundedSubtract(seg, skips).Some?
    ensures var kept := Covers(BoundedSubtract(seg, skips).value, x);
            && (seg.Has(x) && !Covers(skips, x) && !Lost(seg, skips, x) ==> kept)
            && (seg.start < seg.end && NonEmptyRanges(skips) && kept ==>
                  seg.Has(x) && !Covers(skips, x) && !Lost(seg, skips, x))
  {
    hide CutAll, BoundedCut, Refused;
    if skips == [] {
      assert Covers([seg], x) <==> [seg][0].Has(x);
    } else {
      var front, sk := skips[..|skips| - 1], skips[|skips| - 1];
      var ws := BoundedSubtract(seg, front).value;
      KeptIff(seg, front, x);
      BoundedCutTake(ws, sk);
      CutAllCovers(ws, sk, x);
      TakenOrRefused(ws, sk, x);
      CoversLast(skips, x);
      if seg.start < seg.end && NonEmptyRanges(skips) {
        BoundedSubtractOrdered(seg, front);
        AtMostOneSplit(ws, sk);
      }
    }
  }

  /** What is lost was memory worth testing. */
  lemma {:induction false} LostWasGood(seg: Range, skips: seq<Range>, x: nat)
    requires Lost(seg, skips, x)
    ensures seg.Has(x) && !Covers(skips, x)
  {
    hide CutAll, BoundedCut, Refused;
    var front, sk := skips[..|skips| - 1], skips[|skips| - 1];
    CoversLast(skips, x);
    if Lost(seg, front, x) && !sk.Has(x) {
      LostWasGood(seg, front, x);
    } else {
      var ws := BoundedSubtract(seg, front).value;
      TakenOrRefused(ws, sk, x);
      CutAllCovers(ws, sk, x);
      BoundedSound(seg, front, x);
    }
  }

  lemma CoversLast(skips: seq<Range>, x: nat)
    requires skips != []
    ensures Covers(skips, x) <==> Covers(skips[..|skips| - 1], x) || skips[|skips| - 1].Has(x)
  {
    var front, sk := skips[..|skips| - 1], skips[|skips| - 1];
    CoversConcat(front, [sk], x);
    assert skips == front + [sk];
    assert Covers([sk], x) <==> [sk][0].Has(x);
  }

  /** Every step of the exact subtraction fits the eight slots. */
  ghost predicate Fits(seg: Range, skips: seq<Range>) {
    forall k :: 0 <= k <= |skips| ==> FitsAt(seg, skips, k)
  }

  /** Then no store runs past the eighth slot and nothing is lost. */
  lemma {:induction false} FitsLosesNothing(seg: Range, skips: seq<Range>, x: nat)
    requires Fits(seg, skips)
    ensures BoundedSubtract(seg, skips) == Some(Subtract(seg, skips)) && !Lost(seg, skips, x)
  {
    FitsLossless(seg, skips, |skips|);
    assert skips[..|skips|] == skips;
    if skips != [] {
      var front := skips[..|skips| - 1];
      FitsLossless(seg, skips, |front|);
      forall k | 0 <= k <= |front| ensures FitsAt(seg, front, k) {
        assert FitsAt(seg, skips, k) && front[..k] == skips[..k];
      }
      FitsLosesNothing(seg, front, x);
      assert FitsAt(seg, skips, |skips|);
    }
  }

  /** Seven skips always fit. */
  lemma SevenFit(seg: Range, skips: seq<Range>)
    requires seg.start < seg.end && NonEmptyRanges(skips) && |skips| < SLOTS
    ensures Fits(seg, skips)
  {
    forall k | 0 <= k <= |skips| ensures FitsAt(seg, skips, k) {
      PieceCount(seg, skips[..k]);
    }
  }

  lemma {:induction false} PieceCount(seg: Range, skips: seq<Range>)
    requires seg.start < seg.end && NonEmptyRanges(skips)
    ensures Ordered(Subtract(seg, skips)) && |Subtract(seg, skips)| <= 1 + |skips|
  {
    if skips != [] {
      PieceCount(seg, skips[..|skips| - 1]);
      AtMostOneSplit(Subtract(seg, skips[..|skips| - 1]), skips[|skips| - 1]);
    }
  }

  /** Seven skips never need more than the eight slots, so pruning a segment is exact set difference. */
  lemma {:induction false} SevenSuffice(seg: Range, skips: seq<Range>)
    requires seg.start < seg.end && NonEmptyRanges(skips) && |skips| < SLOTS
    ensures BoundedSubtract(seg, skips) == Some(Subtract(seg, skips))
  {
    if skips != [] {
      SevenSuffice(seg, skips[..|skips| - 1]);
      PieceCount(seg, skips);
      BoundedCutExact(Subtract(seg, skips[..|skips| - 1]), skips[|skips| - 1]);
    }
  }

  // Seven is tight. On the segment [0, 18): [1,2), [3,4), ..., [15,16), then the last one repeated.

  function Comb(n: nat): seq<Range> {
    seq(n, i requires 0 <= i < n => var j := Min(i, SLOTS - 1); Range(2 * j + 1, 2 * j + 2))
  }

  function Teeth(n: nat): seq<Range> {
    seq(n, i requires 0 <= i < n => Range(2 * i, 2 * i + 1))
  }

  lemma {:induction false} CombMisses(n: nat, sk: Range)
    requires n <= SLOTS && 2 * n <= sk.start + 1
    ensures BoundedCut(Teeth(n), sk) == Some(Teeth(n))
  {
    if n > 0 {
      assert Teeth(n)[..n - 1] == Teeth(n - 1);
      CombMisses(n - 1, sk);
      assert Teeth(n) == Teeth(n - 1) + [Range(2 * n - 2, 2 * n - 1)];
    }
  }

  /** The remnants left after the first `n` skips: from the eighth on, [16, 18) has been lost. */
  function Kept(n: nat): seq<Range> {
    if n < SLOTS then Teeth(n) + [Range(2 * n, 18)] else Teeth(SLOTS)
  }

  function CombTooth(n: nat): Range {
    if 1 <= n <= SLOTS then Range(2 * n - 1, 2 * n) else Range(15, 16)
  }

  lemma BoundedCutLast(ws: seq<Range>, w: Range, sk: Range, acc: seq<Range>)
    requires BoundedCut(ws, sk) == Some(acc)
    ensures BoundedCut(ws + [w], sk) == Place(acc, w, sk)
  {
    assert (ws + [w])[..|ws|] == ws;
  }

  lemma CombCut(n: nat)
    requires n >= 1
    ensures BoundedCut(Kept(n - 1), CombTooth(n)) == Some(Kept(n))
  {
    var sk := CombTooth(n);
    if n <= SLOTS {
      var last, left, right := Range(2 * n - 2, 18), Range(2 * n - 2, 2 * n - 1), Range(2 * n, 18);
      CombMisses(n - 1, sk);
      BoundedCutLast(Teeth(n - 1), last, sk, Teeth(n - 1));
      assert Push(Teeth(n - 1), left) == Teeth(n);
      assert Push(Teeth(n), right) == Kept(n);
    } else {
      CombMisses(SLOTS, sk);
    }
  }

  lemma {:induction false} CombLosesTail(n: nat, seg: Range)
    requires seg == Range(0, 18)
    ensures BoundedSubtract(seg, Comb(n)) == Some(Kept(n))
  {
    if n == 0 {
      assert Comb(0) == [] && Kept(0) == [seg];
    } else {
      CombLosesTail(n - 1, seg);
      assert Comb(n)[..n - 1] == Comb(n - 1);
      assert Comb(n)[n - 1] == CombTooth(n);
      CombCut(n);
    }
  }

  /** A table of `n` skips is subtracted exactly from every segment just when n is at most seven. */
  lemma ExactForEveryTableIff(n: nat)
    ensures (forall seg: Range, skips: seq<Range> ::
               |skips| == n && NonEmptyRanges(skips) && seg.start < seg.end ==>
                 && BoundedSubtract(seg, skips).Some?
                 && forall x: nat :: Covers(BoundedSubtract(seg, skips).value, x) <==> seg.Has(x) && !Covers(skips, x))
            <==> n < SLOTS
  {
    if n < SLOTS {
      forall seg: Range, skips: seq<Range> | |skips| == n && NonEmptyRanges(skips) && seg.start < seg.end
        ensures BoundedSubtract(seg, skips).Some?
        ensures forall x: nat :: Covers(BoundedSubtract(seg, skips).value, x) <==> seg.Has(x) && !Covers(skips, x)
      {
        SevenSuffice(seg, skips);
        forall x: nat {
          SubtractCovers(seg, skips, x);
        }
      }
    } else {
      var seg := Range(0, 18);
      CombLosesTail(n, seg);
      assert seg.Has(17) && !Covers(Comb(n), 17) && !Covers(Kept(n), 17);
      assert NonEmptyRanges(Comb(n)) && |Comb(n)| == n;
    }
  }

  /** Whatever the table: pruning never leaves a skipped address in the map and adds nothing to it. */
  lemma {:induction false} BoundedCutSound(ws: seq<Range>, sk: Range, x: nat)
    requires BoundedCut(ws, sk).Some? && Covers(BoundedCut(ws, sk).value, x)
    ensures Covers(ws, x) && !sk.Has(x)
  {
    if ws != [] {
      var front, w := ws[..|ws| - 1], ws[|ws| - 1];
      var acc, r := BoundedCut(front, sk).value, BoundedCut(ws, sk).value;
      var i :| 0 <= i < |r| && r[i].Has(x);
      if i < |acc| {
        assert acc[i].Has(x);
        BoundedCutSound(front, sk, x);
        var j :| 0 <= j < |front| && front[j].Has(x);
        assert ws[j].Has(x);
      } else {
        assert w.Has(x) && !sk.Has(x);
      }
    }
  }

  lemma {:induction false} BoundedSound(seg: Range, skips: seq<Range>, x: nat)
    requires BoundedSubtract(seg, skips).Some? && Covers(BoundedSubtract(seg, skips).value, x)
    ensures seg.Has(x) && !Covers(skips, x)
  {
    if skips != [] {
      var front, sk := skips[..|skips| - 1], skips[|skips| - 1];
      BoundedCutSound(BoundedSubtract(seg, front).value, sk, x);
      BoundedSound(seg, front, x);
      CoversConcat(front, [sk], x);
      assert skips == front + [sk];
    }
  }

  /** No surviving piece meets a skip, so a second pass over it keeps it as it is. */
  lemma {:induction false} BoundedClear(seg: Range, skips: seq<Range>)
    requires BoundedSubtract(seg, skips).Some?
    ensures forall w, k :: w in BoundedSubtract(seg, skips).value && 0 <= k < |skips| ==> !Overlaps(w, skips[k])
  {
    if skips != [] {
      hide BoundedCut, Overlaps;
      var front, sk := skips[..|skips| - 1], skips[|skips| - 1];
      BoundedClear(seg, front);
      assert forall k :: 0 <= k < |front| ==> skips[k] == front[k];
      BoundedCutClear(BoundedSubtract(seg, front).value, sk, front);
    }
  }

  lemma {:induction false} BoundedCutClear(ws: seq<Range>, sk: Range, done: seq<Range>)
    requires BoundedCut(ws, sk).Some?
    requires forall w, k :: w in ws && 0 <= k < |done| ==> !Overlaps(w, done[k])
    ensures forall w :: w in BoundedCut(ws, sk).value ==> !Overlaps(w, sk)
    ensures forall w, k :: w in BoundedCut(ws, sk).value && 0 <= k < |done| ==> !Overlaps(w, done[k])
  {
    if ws != [] {
      var front, w := ws[..|ws| - 1], ws[|ws| - 1];
      assert w in ws && forall v :: v in front ==> v in ws;
      BoundedCutClear(front, sk, done);
      assert forall k :: 0 <= k < |done| ==> !Overlaps(w, done[k]);
    }
  }

  lemma {:induction false} ClearSegmentKept(seg: Range, skips: seq<Range>)
    requires forall k :: 0 <= k < |skips| ==> !Overlaps(seg, skips[k])
    ensures BoundedSubtract(seg, skips) == Some([seg]) && !Hits(seg, skips)
  {
    if skips != [] {
      ClearSegmentKept(seg, skips[..|skips| - 1]);
      BoundedCutMissOne(seg, skips[|skips| - 1]);
    }
  }

  lemma BoundedCutMissOne(seg: Range, sk: Range)
    requires !Overlaps(seg, sk)
    ensures BoundedCut([seg], sk) == Some([seg])
  {
    var ws := [seg];
    assert ws[..|ws| - 1] == [] && [] + [seg] == ws;
  }
}
