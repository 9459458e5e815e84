/** Half-open address ranges and the set of addresses a list of them covers. */
module Intervals {

  datatype Range = Range(start: nat, end: nat) {
    predicate Has(x: nat) {
      start <= x < end
    }

    /** Overlaps or abuts: the union with [a, b) is again one range. */
    predicate Touches(a: nat, b: nat) {
      a <= end && start <= b
    }
  }

  ghost predicate Covers(rs: seq<Range>, x: nat) {
    exists i :: 0 <= i < |rs| && rs[i].Has(x)
  }

  /** Non-empty, in increasing order and pairwise disjoint. */
  ghost predicate Ordered(rs: seq<Range>) {
    && (forall i :: 0 <= i < |rs| ==> rs[i].start < rs[i].end)
    && (forall i, j :: 0 <= i < j < |rs| ==> rs[i].end <= rs[j].start)
  }

  lemma CoversConcat(a: seq<Range>, b: seq<Range>, x: nat)
    ensures Covers(a + b, x) <==> Covers(a, x) || Covers(b, x)
  {
    if Covers(a, x) {
      var i :| 0 <= i < |a| && a[i].Has(x);
      assert (a + b)[i].Has(x);
    }
    if Covers(b, x) {
      var i :| 0 <= i < |b| && b[i].Has(x);
      assert (a + b)[|a| + i].Has(x);
    }
  }
}
