/** The BrrBadPages variable: written by brr-entry, merged by the shim into its range table. */
module BadPagesBlob {
  import opened Common
  import opened Bytes
  import opened MaskPages

  const MAX_PAGES: nat := 4096
  const HEADER: nat := 8

  // ------------------------------------------------------------------ writing

  function EncodeAddresses(pas: seq<nat>): (s: seq<Byte>)
    ensures |s| == 8 * |pas|
  {
    if pas == [] then [] else EncodeAddresses(pas[..|pas| - 1]) + LE(pas[|pas| - 1], 8)
  }

  function Encode(pas: seq<nat>): seq<Byte> {
    var kept := Take(pas, MAX_PAGES);
    LE(1, 4) + LE(|kept|, 4) + EncodeAddresses(kept)
  }

  lemma EncodeNext(pas: seq<nat>, i: nat)
    requires i < |pas|
    ensures EncodeAddresses(pas[..i + 1]) == EncodeAddresses(pas[..i]) + LE(pas[i], 8)
  {
    hide LE;
    assert pas[..i + 1][..i] == pas[..i];
  }

  lemma NothingEncoded(pas: seq<nat>)
    ensures EncodeAddresses(pas[..0]) == [] && pas[..|pas|] == pas
  {
  }

  /** The copy loop behind the header. */
  method StoreAddresses(buf: array<Byte>, pas: seq<nat>)
    requires HEADER + 8 * |pas| <= buf.Length
    modifies buf
    ensures buf[..HEADER + 8 * |pas|] == old(buf[..HEADER]) + EncodeAddresses(pas)
  {
    hide EncodeAddresses, LE;
    NothingEncoded(pas);
    ghost var header := buf[..HEADER];
    for i := 0 to |pas|
      invariant buf[..HEADER + 8 * i] == header + EncodeAddresses(pas[..i])
    {
      var off := HEADER + 8 * i;
      Store(buf, off, pas[i], 8);
      EncodeNext(pas, i);
      Assoc(header, EncodeAddresses(pas[..i]), LE(pas[i], 8));
      assert buf[..off + 8] == buf[..off] + buf[off..off + 8];
    }
  }

  method WriteBadPages(pas: seq<nat>) returns (blob: seq<Byte>)
    ensures blob == Encode(pas)
  {
    var buf := new Byte[HEADER + MAX_PAGES * 8](_ => 0);
    var kept := if |pas| > MAX_PAGES then pas[..MAX_PAGES] else pas;
    Store(buf, 0, 1, 4);
    ghost var version := buf[..4];
    assert version == buf[0..4];
    Store(buf, 4, |kept|, 4);
    ghost var header := buf[..HEADER];
    assert header == version + LE(|kept|, 4) by {
      assert header == buf[..4] + buf[4..8];
    }
    StoreAddresses(buf, kept);
    blob := buf[..HEADER + 8 * |kept|];
  }

  // ------------------------------------------------------------------ reading

  function AddressAt(blob: seq<Byte>, i: nat): nat
    requires HEADER + 8 * i + 8 <= |blob|
  {
    FromLE(blob[HEADER + 8 * i..HEADER + 8 * i + 8])
  }

  /** The addresses of a well-formed blob; `None` for a short, unknown or inconsistent one. */
  function Decode(blob: seq<Byte>): (r: Option<seq<nat>>)
    ensures r.Some? ==> |r.value| <= MAX_PAGES
  {
    if |blob| < HEADER then None
    else if FromLE(blob[0..4]) != 1 then None
    else
      var count := FromLE(blob[4..8]);
      if |blob| < HEADER + count * 8 || count > MAX_PAGES then None
      else Some(seq(count, i requires 0 <= i < count => AddressAt(blob, i)))
  }

  predicate Absorbed(ranges: seq<MemRange>, page: nat) {
    exists r :: r in ranges && r.start <= page < r.End()
  }

  /** One saved address: dropped when a range already holds its page or the table is full. */
  function MergePage(ranges: seq<MemRange>, pa: nat, cap: nat): seq<MemRange> {
    var page := AlignDown(pa);
    if Absorbed(ranges, page) || |ranges| >= cap then ranges else ranges + [MemRange(page, PAGE)]
  }

  function MergePages(ranges: seq<MemRange>, pas: seq<nat>, cap: nat): seq<MemRange> {
    if pas == [] then ranges else MergePage(MergePages(ranges, pas[..|pas| - 1], cap), pas[|pas| - 1], cap)
  }

  /** The dedup scan. */
  method IsAbsorbed(ranges: array<MemRange>, n: nat, page: nat) returns (dup: bool)
    requires n <= ranges.Length
    ensures dup == Absorbed(ranges[..n], page)
  {
    for j := 0 to n
      invariant forall k :: 0 <= k < j ==> !(ranges[k].start <= page < ranges[k].End())
    {
      if ranges[j].start <= page < ranges[j].End() {
        assert ranges[..n][j] == ranges[j];
        return true;
      }
    }
    return false;
  }

  /** Appends the saved pages to the range table in place. */
  method ReadBadPages(blob: seq<Byte>, ranges: array<MemRange>, existing: nat) returns (added: nat)
    requires existing <= ranges.Length
    modifies ranges
    ensures existing + added <= ranges.Length
    ensures ranges[..existing + added] ==
            match Decode(blob)
            case None => old(ranges[..existing])
            case Some(pas) => MergePages(old(ranges[..existing]), pas, ranges.Length)
  {
    hide Absorbed, MergePages, Decode, AlignDown;
    NothingMerged(ranges[..existing], ranges.Length);
    added := 0;
    var decoded := Decode(blob);
    if decoded.None? {
      return;
    }
    var pas := decoded.value;
    var cap := ranges.Length;
    ghost var was := ranges[..existing];
    assert pas[..0] == [];
    for i := 0 to |pas|
      invariant existing + added <= cap
      invariant ranges[..existing + added] == MergePages(was, pas[..i], cap)
    {
      MergeStep(was, pas, i, cap);
      var page := AlignDown(pas[i]);
      var dup := IsAbsorbed(ranges, existing + added, page);
      if dup {
        continue;
      }
      if existing + added >= cap {
        FullStays(was, pas, i, cap);
        return;
      }
      ghost var before := ranges[..existing + added];
      ranges[existing + added] := MemRange(page, PAGE);
      added := added + 1;
      assert ranges[..existing + added] == before + [MemRange(page, PAGE)];
    }
    assert pas[..|pas|] == pas;
  }

  lemma NothingMerged(ranges: seq<MemRange>, cap: nat)
    ensures MergePages(ranges, [], cap) == ranges
  {
  }

  lemma MergeStep(ranges: seq<MemRange>, pas: seq<nat>, i: nat, cap: nat)
    requires i < |pas|
    ensures MergePages(ranges, pas[..i + 1], cap) == MergePage(MergePages(ranges, pas[..i], cap), pas[i], cap)
  {
    hide MergePage;
    assert pas[..i + 1][..i] == pas[..i];
  }

  /** A full table takes nothing more, so stopping at the first page that does not fit changes nothing. */
  lemma {:induction false} FullStays(ranges: seq<MemRange>, pas: seq<nat>, i: nat, cap: nat)
    requires i <= |pas| && |MergePages(ranges, pas[..i], cap)| >= cap
    ensures MergePages(ranges, pas, cap) == MergePages(ranges, pas[..i], cap)
  {
    if i == |pas| {
      assert pas[..i] == pas;
    } else {
      assert pas[..|pas| - 1][..i] == pas[..i];
      FullStays(ranges, pas[..|pas| - 1], i, cap);
    }
  }

  // ------------------------------------------------------------------ meaning

  lemma {:induction false} EncodedAt(pas: seq<nat>, i: nat)
    requires i < |pas|
    ensures EncodeAddresses(pas)[8 * i..8 * i + 8] == LE(pas[i], 8)
  {
    var front := pas[..|pas| - 1];
    if i < |front| {
      EncodedAt(front, i);
      assert EncodeAddresses(pas)[8 * i..8 * i + 8] == EncodeAddresses(front)[8 * i..8 * i + 8];
    }
  }

  lemma BlobFields(pas: seq<nat>)
    ensures var kept, blob := Take(pas, MAX_PAGES), Encode(pas);
            && |blob| == HEADER + 8 * |kept| && blob[0..4] == LE(1, 4) && blob[4..8] == LE(|kept|, 4)
            && blob[HEADER..] == EncodeAddresses(kept)
  {
    hide LE, EncodeAddresses, Take;
    var kept := Take(pas, MAX_PAGES);
    Parts3(LE(1, 4), LE(|kept|, 4), EncodeAddresses(kept));
  }

  lemma StoredAddress(pas: seq<nat>, i: nat)
    requires i < |Take(pas, MAX_PAGES)| && Take(pas, MAX_PAGES)[i] < TWO64
    ensures HEADER + 8 * i + 8 <= |Encode(pas)| && AddressAt(Encode(pas), i) == Take(pas, MAX_PAGES)[i]
  {
    hide LE, EncodeAddresses, Encode;
    var kept, blob := Take(pas, MAX_PAGES), Encode(pas);
    BlobFields(pas);
    assert HEADER + 8 * i + 8 <= |blob| && |EncodeAddresses(kept)| == 8 * |kept|;
    EncodedAt(kept, i);
    SliceOf(blob, HEADER, EncodeAddresses(kept), 8 * i, 8 * i + 8);
    WordSizes();
    assert kept[i] < TWO64 == Pow256(8);
    LERoundTrip(kept[i], 8);
  }

  /** What brr-entry writes is what the shim reads, up to the 4096 entries of the format. */
  lemma BlobRoundTrip(pas: seq<nat>)
    requires forall i :: 0 <= i < |pas| ==> pas[i] < TWO64
    ensures Decode(Encode(pas)) == Some(Take(pas, MAX_PAGES))
  {
    hide LE, FromLE, EncodeAddresses, Encode;
    var kept, blob := Take(pas, MAX_PAGES), Encode(pas);
    BlobFields(pas);
    WordSizes();
    LERoundTrip(1, 4);
    LERoundTrip(|kept|, 4);
    forall i | 0 <= i < |kept| ensures HEADER + 8 * i + 8 <= |blob| && AddressAt(blob, i) == kept[i] {
      StoredAddress(pas, i);
    }
    assert FromLE(blob[0..4]) == 1 && FromLE(blob[4..8]) == |kept| <= MAX_PAGES;
    assert Decode(blob).Some?;
    var r := Decode(blob).value;
    assert |r| == |kept| && forall i :: 0 <= i < |kept| ==> r[i] == AddressAt(blob, i);
    assert r == kept;
  }

  ghost predicate PageAligned(ranges: seq<MemRange>) {
    forall r :: r in ranges ==> r.start % PAGE == 0 && r.len % PAGE == 0 && r.len > 0
  }

  /** The merge into a table that never fills. */
  function MergeAll(ranges: seq<MemRange>, pas: seq<nat>): seq<MemRange> {
    if pas == [] then ranges
    else
      var before, page := MergeAll(ranges, pas[..|pas| - 1]), AlignDown(pas[|pas| - 1]);
      if Absorbed(before, page) then before else before + [MemRange(page, PAGE)]
  }

  /** A full table has kept the first ranges of it. */
  lemma {:induction false} MergeIsPrefix(ranges: seq<MemRange>, pas: seq<nat>, cap: nat)
    requires |ranges| <= cap
    ensures MergePages(ranges, pas, cap) == Take(MergeAll(ranges, pas), cap)
  {
    hide AlignDown;
    if pas != [] {
      MergeIsPrefix(ranges, pas[..|pas| - 1], cap);
    }
  }

  lemma {:induction false} MergeGrowth(ranges: seq<MemRange>, pas: seq<nat>)
    ensures |MergeAll(ranges, pas)| <= |ranges| + |pas| && ranges <= MergeAll(ranges, pas)
  {
    hide Absorbed, AlignDown;
    if pas != [] {
      MergeGrowth(ranges, pas[..|pas| - 1]);
    }
  }

  lemma {:induction false} MergeAllCovers(ranges: seq<MemRange>, pas: seq<nat>, i: nat)
    requires i < |pas|
    ensures Absorbed(MergeAll(ranges, pas), AlignDown(pas[i]))
  {
    hide AlignDown, Absorbed;
    var front := pas[..|pas| - 1];
    var before, m, page := MergeAll(ranges, front), MergeAll(ranges, pas), AlignDown(pas[|pas| - 1]);
    if i < |front| {
      MergeAllCovers(ranges, front, i);
      StillAbsorbed(before, m, AlignDown(front[i]));
    } else if !Absorbed(before, page) {
      PageAbsorbsItself(m, page, |before|);
    }
  }

  lemma PageAbsorbsItself(ranges: seq<MemRange>, page: nat, j: nat)
    requires j < |ranges| && ranges[j] == MemRange(page, PAGE)
    ensures Absorbed(ranges, page)
  {
    assert ranges[j] in ranges;
  }

  /** A new range is there because the ranges before it did not hold its page. */
  lemma {:induction false} MergeAllNew(ranges: seq<MemRange>, pas: seq<nat>, j: nat)
    requires |ranges| <= j < |MergeAll(ranges, pas)|
    ensures exists i :: 0 <= i < |pas| && !Absorbed(MergeAll(ranges, pas)[..j], AlignDown(pas[i]))
  {
    hide AlignDown, Absorbed;
    var front := pas[..|pas| - 1];
    var before, m := MergeAll(ranges, front), MergeAll(ranges, pas);
    if j < |before| {
      MergeAllNew(ranges, front, j);
      var i :| 0 <= i < |front| && !Absorbed(before[..j], AlignDown(front[i]));
      assert m[..j] == before[..j] && front[i] == pas[i];
    } else {
      assert m[..j] == before;
    }
  }

  lemma {:induction false} MergeAligned(ranges: seq<MemRange>, pas: seq<nat>)
    requires PageAligned(ranges)
    ensures PageAligned(MergeAll(ranges, pas))
  {
    hide Absorbed;
    if pas != [] {
      MergeAligned(ranges, pas[..|pas| - 1]);
    }
  }

  /** Every saved page lies in a range of the merged table, so the windows of the table hold its window, exactly when
      the table has room for the ranges that dropping duplicates leaves. The old ranges stay in any case. */
  lemma MergeCoversIff(ranges: seq<MemRange>, pas: seq<nat>, cap: nat)
    requires PageAligned(ranges) && |ranges| <= cap
    ensures var m := MergePages(ranges, pas, cap);
            && PageAligned(m) && ranges <= m
            && ((forall i :: 0 <= i < |pas| ==> Absorbed(m, AlignDown(pas[i]))) <==> |MergeAll(ranges, pas)| <= cap)
  {
    hide AlignDown, Absorbed, MergePages, MergeAll;
    MergeIsPrefix(ranges, pas, cap);
    MergeGrowth(ranges, pas);
    MergeAligned(ranges, pas);
    if |MergeAll(ranges, pas)| <= cap {
      forall i | 0 <= i < |pas| ensures Absorbed(MergeAll(ranges, pas), AlignDown(pas[i])) {
        MergeAllCovers(ranges, pas, i);
      }
    } else {
      MergeAllNew(ranges, pas, cap);
    }
  }

  lemma StillAbsorbed(a: seq<MemRange>, b: seq<MemRange>, page: nat)
    requires a <= b && Absorbed(a, page)
    ensures Absorbed(b, page)
  {
    var r :| r in a && r.start <= page < r.End();
    assert r in b;
  }

  /** An absorbed page keeps its whole window. */
  lemma AbsorbedKeepsWindow(ranges: seq<MemRange>, page: nat, x: nat)
    requires PageAligned(ranges) && page % PAGE == 0 && Absorbed(ranges, page)
    requires Window(MemRange(page, PAGE)).Has(x)
    ensures exists r :: r in ranges && Window(r).Has(x)
  {
    var r :| r in ranges && r.start <= page < r.End();
    NextPage(page, r.start, r.len);
    WindowMonotone(r, page, x);
  }

  lemma NextPage(page: nat, start: nat, len: nat)
    requires page % PAGE == 0 && start % PAGE == 0 && len % PAGE == 0 && page < start + len
    ensures page + PAGE <= start + len
  {
  }
}
