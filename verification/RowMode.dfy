/** Row mode end to end: rows recorded by the tester, carried in the row variable, expanded by the shim. */
module RowMode {
  import opened Common
  import opened Bytes
  import opened Imc
  import opened MaskPages
  import TesterDecoder
  import opened ShimDecoder
  import RowEnumeration

  const MAX_BAD_ROWS: nat := 256
  const HEADER: nat := 8

  // ---------------------------------------------------------------- the row log

  function RecordRow(log: seq<RowTuple>, t: RowTuple): seq<RowTuple> {
    if t in log || |log| >= MAX_BAD_ROWS then log else log + [t]
  }

  class RowLog {
    const rows: array<RowTuple>
    var count: nat

    ghost predicate Valid()
      reads this
    {
      rows.Length == MAX_BAD_ROWS && count <= MAX_BAD_ROWS
    }

    ghost function Contents(): seq<RowTuple>
      reads this, rows
      requires Valid()
    {
      rows[..count]
    }

    constructor ()
      ensures Valid() && fresh(rows) && Contents() == []
    {
      rows := new RowTuple[MAX_BAD_ROWS](_ => RowTuple(0, 0, 0, 0, 0));
      count := 0;
    }

    method Record(t: RowTuple)
      requires Valid()
      modifies this`count, rows
      ensures Valid() && Contents() == RecordRow(old(Contents()), t)
    {
      for i := 0 to count
        invariant t !in rows[..i]
      {
        if rows[i] == t {
          return;
        }
      }
      if count >= MAX_BAD_ROWS {
        return;
      }
      rows[count] := t;
      count := count + 1;
    }
  }

  /** The tuple recorded for an address; a rank that is not known is recorded as zero. */
  function TupleOf(d: Decoded): RowTuple {
    RowTuple(d.channel, d.rank.value, d.bankGroup, d.bank, d.row)
  }

  function RecordDecoded(log: seq<RowTuple>, pa: nat, r: Regs): seq<RowTuple> {
    var d := TesterDecoder.DecodePa(pa, r);
    if d.valid then RecordRow(log, TupleOf(d)) else log
  }

  function DecodeAll(pages: seq<nat>, r: Regs): seq<RowTuple> {
    if pages == [] then [] else RecordDecoded(DecodeAll(pages[..|pages| - 1], r), pages[|pages| - 1], r)
  }

  /** The pass-end walk over the logged pages. */
  method DecodePass(pages: seq<nat>, r: Regs) returns (log: RowLog)
    ensures fresh(log) && log.Valid() && log.Contents() == DecodeAll(pages, r)
  {
    log := new RowLog();
    for i := 0 to |pages|
      invariant fresh(log) && fresh(log.rows) && log.Valid() && log.Contents() == DecodeAll(pages[..i], r)
    {
      assert pages[..i + 1][..i] == pages[..i];
      var d := TesterDecoder.DecodePa(pages[i], r);
      if d.valid {
        log.Record(TupleOf(d));
      }
    }
    assert pages[..|pages|] == pages;
  }

  /** Page `i` of the list decodes, and its row found a free entry in the row log or was already there. */
  ghost predicate RowTaken(pages: seq<nat>, r: Regs, i: nat)
    requires i < |pages|
  {
    var d, log := TesterDecoder.DecodePa(pages[i], r), DecodeAll(pages[..i], r);
    d.valid && (|log| < MAX_BAD_ROWS || TupleOf(d) in log)
  }

  /** The row log holds exactly the rows of the pages that it could take at their turn. */
  lemma {:induction false} RowLoggedIff(pages: seq<nat>, r: Regs, t: RowTuple)
    ensures t in DecodeAll(pages, r)
       <==> exists i :: 0 <= i < |pages| && RowTaken(pages, r, i) && TupleOf(TesterDecoder.DecodePa(pages[i], r)) == t
  {
    hide TesterDecoder.DecodePa;
    if pages != [] {
      var front, last := pages[..|pages| - 1], |pages| - 1;
      RowLoggedIff(front, r, t);
      forall i | 0 <= i < last ensures RowTaken(front, r, i) <==> RowTaken(pages, r, i) {
        assert front[..i] == pages[..i] && front[i] == pages[i];
      }
      if t in DecodeAll(front, r) {
        var i :| 0 <= i < |front| && RowTaken(front, r, i) && TupleOf(TesterDecoder.DecodePa(front[i], r)) == t;
        assert RowTaken(pages, r, i) && pages[i] == front[i];
      } else {
        assert t in DecodeAll(pages, r) <==>
                 RowTaken(pages, r, last) && TupleOf(TesterDecoder.DecodePa(pages[last], r)) == t;
        forall i | 0 <= i < last && RowTaken(pages, r, i)
          ensures TupleOf(TesterDecoder.DecodePa(pages[i], r)) != t
        {
          assert RowTaken(front, r, i) && pages[i] == front[i];
        }
      }
    }
  }

  lemma {:induction false} RowLogGrows(pages: seq<nat>, r: Regs, i: nat)
    requires i <= |pages|
    ensures |DecodeAll(pages[..i], r)| <= |DecodeAll(pages, r)|
  {
    hide TesterDecoder.DecodePa;
    if i == |pages| {
      assert pages[..i] == pages;
    } else {
      var front := pages[..|pages| - 1];
      RowLogGrows(front, r, i);
      assert front[..i] == pages[..i];
    }
  }

  /** So until the row log is full it holds the tuple of every logged page. */
  lemma EveryPageHasItsRow(pages: seq<nat>, r: Regs, pa: nat)
    requires pa in pages && TesterDecoder.DecodePa(pa, r).valid && |DecodeAll(pages, r)| < MAX_BAD_ROWS
    ensures TupleOf(TesterDecoder.DecodePa(pa, r)) in DecodeAll(pages, r)
  {
    hide TesterDecoder.DecodePa, DecodeAll;
    var i :| 0 <= i < |pages| && pages[i] == pa;
    RowLogGrows(pages, r, i);
    assert RowTaken(pages, r, i);
    RowLoggedIff(pages, r, TupleOf(TesterDecoder.DecodePa(pa, r)));
  }

  // -------------------------------------------------------------- the row blob

  function EncodeRow(t: RowTuple): (s: seq<Byte>)
    ensures |s| == 8
  {
    LE(t.channel, 1) + LE(t.rank, 1) + LE(t.bankGroup, 1) + LE(t.bank, 1) + LE(t.row, 4)
  }

  function EncodeRows(rows: seq<RowTuple>): (s: seq<Byte>)
    ensures |s| == 8 * |rows|
  {
    if rows == [] then [] else EncodeRows(rows[..|rows| - 1]) + EncodeRow(rows[|rows| - 1])
  }

  /** The documented layout of the row variable: version 1, count, then packed tuples. */
  function RowBlob(rows: seq<RowTuple>): seq<Byte> {
    LE(1, 4) + LE(|rows|, 4) + EncodeRows(rows)
  }

  function RowAt(blob: seq<Byte>, i: nat): RowTuple
    requires HEADER + 8 * i + 8 <= |blob|
  {
    var o := HEADER + 8 * i;
    RowTuple(FromLE(blob[o..o + 1]), FromLE(blob[o + 1..o + 2]), FromLE(blob[o + 2..o + 3]),
             FromLE(blob[o + 3..o + 4]), FromLE(blob[o + 4..o + 8]))
  }

  /** The tuples of a blob, none when it is short or of another version; never more than 256. */
  function ParseRows(blob: seq<Byte>): seq<RowTuple> {
    if |blob| < HEADER || FromLE(blob[0..4]) != 1 then []
    else
      var count := Min(FromLE(blob[4..8]), MAX_BAD_ROWS);
      if |blob| < HEADER + 8 * count then []
      else seq(count, i requires 0 <= i < count => RowAt(blob, i))
  }

  method ParseRowsBlob(blob: seq<Byte>, out: array<RowTuple>) returns (n: nat)
    modifies out
    ensures n <= out.Length && out[..n] == Take(ParseRows(blob), out.Length)
  {
    if |blob| < HEADER || out.Length == 0 {
      return 0;
    }
    if FromLE(blob[0..4]) != 1 {
      return 0;
    }
    var count := FromLE(blob[4..8]);
    if count == 0 {
      return 0;
    }
    if count > MAX_BAD_ROWS {
      count := MAX_BAD_ROWS;
    }
    if |blob| < HEADER + 8 * count {
      return 0;
    }
    n := if count < out.Length then count else out.Length;
    for i := 0 to n
      invariant forall j :: 0 <= j < i ==> out[j] == RowAt(blob, j)
    {
      out[i] := RowAt(blob, i);
    }
    assert out[..n] == Take(ParseRows(blob), out.Length);
  }

  ghost predicate Storable(t: RowTuple) {
    t.channel < 256 && t.rank < 256 && t.bankGroup < 256 && t.bank < 256 && t.row < 0x1_0000_0000
  }

  lemma {:induction false} EncodedRowAt(rows: seq<RowTuple>, i: nat)
    requires i < |rows|
    ensures EncodeRows(rows)[8 * i..8 * i + 8] == EncodeRow(rows[i])
  {
    hide EncodeRow;
    var front := rows[..|rows| - 1];
    if i < |front| {
      EncodedRowAt(front, i);
      assert EncodeRows(rows)[8 * i..8 * i + 8] == EncodeRows(front)[8 * i..8 * i + 8];
    }
  }

  lemma Parts5(a: seq<Byte>, b: seq<Byte>, c: seq<Byte>, d: seq<Byte>, e: seq<Byte>)
    requires |a| == |b| == |c| == |d| == 1
    ensures var s := a + b + c + d + e;
            s[0..1] == a && s[1..2] == b && s[2..3] == c && s[3..4] == d && s[4..|s|] == e
  {
    var s := a + b + c + d + e;
    assert s[0..1] == a && s[1..2] == b;
    assert s[2..3] == c && s[3..4] == d;
    assert s[4..|s|] == e;
  }

  /** One byte a field, four for the row. */
  lemma RowFields(t: RowTuple)
    requires Storable(t)
    ensures var s := EncodeRow(t);
            && FromLE(s[0..1]) == t.channel && FromLE(s[1..2]) == t.rank && FromLE(s[2..3]) == t.bankGroup
            && FromLE(s[3..4]) == t.bank && FromLE(s[4..8]) == t.row
  {
    hide LE, FromLE;
    WordSizes();
    assert Pow256(1) == 256 * Pow256(0);
    Parts5(LE(t.channel, 1), LE(t.rank, 1), LE(t.bankGroup, 1), LE(t.bank, 1), LE(t.row, 4));
    LERoundTrip(t.channel, 1);
    LERoundTrip(t.rank, 1);
    LERoundTrip(t.bankGroup, 1);
    LERoundTrip(t.bank, 1);
    LERoundTrip(t.row, 4);
  }

  lemma RowBytes(blob: seq<Byte>, i: nat, t: RowTuple)
    requires HEADER + 8 * i + 8 <= |blob| && Storable(t)
    requires blob[HEADER + 8 * i..HEADER + 8 * i + 8] == EncodeRow(t)
    ensures RowAt(blob, i) == t
  {
    hide EncodeRow, FromLE, Storable;
    var o := HEADER + 8 * i;
    RowFields(t);
    FieldsOf(blob, o);
  }

  lemma FieldsOf(blob: seq<Byte>, o: nat)
    requires o + 8 <= |blob|
    ensures var s := blob[o..o + 8];
            && blob[o..o + 1] == s[0..1] && blob[o + 1..o + 2] == s[1..2] && blob[o + 2..o + 3] == s[2..3]
            && blob[o + 3..o + 4] == s[3..4] && blob[o + 4..o + 8] == s[4..8]
  {
    SubSlice(blob, o, o + 8, 0, 1);
    SubSlice(blob, o, o + 8, 1, 2);
    SubSlice(blob, o, o + 8, 2, 3);
    SubSlice(blob, o, o + 8, 3, 4);
    SubSlice(blob, o, o + 8, 4, 8);
  }

  /** A stored row table is read back as it was. */
  lemma RowBlobRoundTrip(rows: seq<RowTuple>)
    requires |rows| <= MAX_BAD_ROWS && forall t :: t in rows ==> Storable(t)
    ensures ParseRows(RowBlob(rows)) == rows
  {
    hide LE, FromLE, EncodeRow, EncodeRows, RowAt, Storable;
    var blob := RowBlob(rows);
    WordSizes();
    LERoundTrip(1, 4);
    LERoundTrip(|rows|, 4);
    Parts3(LE(1, 4), LE(|rows|, 4), EncodeRows(rows));
    forall i | 0 <= i < |rows| ensures RowAt(blob, i) == rows[i] {
      EncodedRowAt(rows, i);
      SliceOf(blob, HEADER, EncodeRows(rows), 8 * i, 8 * i + 8);
      RowBytes(blob, i, rows[i]);
    }
  }

  // ------------------------------------------------------------- the row mask

  function Enumerated(r: Regs, t: RowTuple): seq<nat> {
    Take(RowPages(r, t, Pages(r)), RowEnumeration.ROW_ENUM_CAP)
  }

  ghost function ToSet(s: seq<nat>): set<nat> {
    set pa | pa in s
  }

  /** All pages that the row mask visits. */
  ghost function MaskedPages(r: Regs, rows: seq<RowTuple>): set<nat> {
    if rows == [] then {}
    else MaskedPages(r, rows[..|rows| - 1]) + ToSet(Enumerated(r, rows[|rows| - 1]))
  }

  /** The inner loop: reserve what the walk found for one row. */
  method ReserveFound(buf: array<nat>, n: nat, table: PageTable)
    requires table.Valid() && n <= buf.Length
    modifies table`free
    ensures table.Valid() && table.free == old(table.free) - ToSet(buf[..n])
  {
    for j := 0 to n
      invariant table.Valid() && table.free == old(table.free) - ToSet(buf[..j])
    {
      assert buf[..j + 1] == buf[..j] + [buf[j]];
      var s := table.AllocateAddress(buf[j]);
    }
  }

  /** Reserves every page that the walk finds for every row, through one shared page buffer. */
  method MaskRows(r: Regs, rows: seq<RowTuple>, table: PageTable)
    requires table.Valid()
    modifies table`free
    ensures table.Valid() && table.free == old(table.free) - MaskedPages(r, rows)
  {
    hide RowPages, Pages, Take, ToSet;
    var buf := new nat[RowEnumeration.ROW_ENUM_CAP];
    for i := 0 to |rows|
      invariant table.Valid() && table.free == old(table.free) - MaskedPages(r, rows[..i])
    {
      assert rows[..i + 1][..i] == rows[..i];
      var n := EnumerateRow(r, rows[i], buf);
      assert buf[..n] == Enumerated(r, rows[i]);
      ReserveFound(buf, n, table);
    }
    assert rows[..|rows|] == rows;
  }

  lemma {:induction false} MaskedPagesIff(r: Regs, rows: seq<RowTuple>, pa: nat)
    ensures pa in MaskedPages(r, rows) <==> exists t :: t in rows && pa in Enumerated(r, t)
  {
    hide Enumerated;
    if rows != [] {
      var front, last := rows[..|rows| - 1], rows[|rows| - 1];
      assert rows == front + [last];
      MaskedPagesIff(r, front, pa);
      assert last in rows;
    }
  }

  lemma TupleStorable(pa: nat, r: Regs)
    requires TesterDecoder.DecodePa(pa, r).valid
    ensures Storable(TupleOf(TesterDecoder.DecodePa(pa, r)))
  {
    hide Bit, Xor, Parity, And, TesterDecoder.RowBits, TesterDecoder.ReadConfig;
    TesterDecoder.RowBitsClosed(r);
    Pow2Monotone(TesterDecoder.RowBits(TesterDecoder.ReadConfig(r)), 18);
    RowEnumeration.Powers();
  }

  lemma {:induction false} LoggedRowsStorable(pages: seq<nat>, r: Regs, t: RowTuple)
    requires t in DecodeAll(pages, r)
    ensures Storable(t) && |DecodeAll(pages, r)| <= MAX_BAD_ROWS
  {
    hide TesterDecoder.DecodePa, Storable;
    var front, last := pages[..|pages| - 1], pages[|pages| - 1];
    LogBounded(pages, r);
    if t in DecodeAll(front, r) {
      LoggedRowsStorable(front, r, t);
    } else {
      TupleStorable(last, r);
    }
  }

  lemma {:induction false} LogBounded(pages: seq<nat>, r: Regs)
    ensures |DecodeAll(pages, r)| <= MAX_BAD_ROWS
  {
    hide TesterDecoder.DecodePa;
    if pages != [] {
      LogBounded(pages[..|pages| - 1], r);
    }
  }

  /** A page below the total matches the tuple that was recorded for it. */
  lemma PageFindsItself(pa: nat, r: Regs)
    requires pa % PAGE == 0 && pa < TotalMemory(r) && TesterDecoder.DecodePa(pa, r).valid
    ensures pa in RowPages(r, TupleOf(TesterDecoder.DecodePa(pa, r)), Pages(r))
  {
    hide DecodePa, TesterDecoder.DecodePa, TotalMemory, TesterDecoder.TotalMemory, RowPages;
    DecodersAgree(pa, r);
    RowPagesExact(r, TupleOf(DecodePa(pa, r)), Pages(r), pa);
  }

  /** The rows of a run are read back from their variable as they were. */
  lemma RowLogStored(pages: seq<nat>, r: Regs)
    ensures ParseRows(RowBlob(DecodeAll(pages, r))) == DecodeAll(pages, r)
  {
    hide DecodeAll, ParseRows, RowBlob, Storable;
    var rows := DecodeAll(pages, r);
    LogBounded(pages, r);
    forall u | u in rows ensures Storable(u) {
      LoggedRowsStorable(pages, r, u);
    }
    RowBlobRoundTrip(rows);
  }

  /** The loop closes: a page below the total whose row was recorded is among those the shim reserves for the rows it
      read back, unless the walk's table filled. */
  lemma RowModeCoversPage(pages: seq<nat>, r: Regs, pa: nat)
    requires pa % PAGE == 0 && pa < TotalMemory(r) && TesterDecoder.DecodePa(pa, r).valid
    requires TupleOf(TesterDecoder.DecodePa(pa, r)) in DecodeAll(pages, r)
    requires |RowPages(r, TupleOf(TesterDecoder.DecodePa(pa, r)), Pages(r))| <= RowEnumeration.ROW_ENUM_CAP
    ensures pa in MaskedPages(r, ParseRows(RowBlob(DecodeAll(pages, r))))
  {
    hide DecodeAll, TesterDecoder.DecodePa, RowPages, TotalMemory, MaskedPages, ParseRows, RowBlob, Pages;
    RowLogStored(pages, r);
    PageFindsItself(pa, r);
    MaskedPagesIff(r, DecodeAll(pages, r), pa);
    assert pa in Enumerated(r, TupleOf(TesterDecoder.DecodePa(pa, r)));
  }
}
