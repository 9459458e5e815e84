/** The comma-separated chip list: appended to by the tester, split by the shim. */
module ChipList {
  import opened Common

  const BUF_SIZE: nat := 256
  const DESIG_MAX: nat := 16

  // ------------------------------------------------------------------ writing

  /** Position of the first comma from `off` on, or the end. */
  function EntryEnd(s: string, off: nat): (e: nat)
    requires off <= |s|
    ensures off <= e <= |s| && (e < |s| ==> s[e] == ',')
    ensures forall i :: off <= i < e ==> s[i] != ','
    decreases |s| - off
  {
    if off == |s| || s[off] == ',' then off else EntryEnd(s, off + 1)
  }

  /** Whether `d` is one of the comma-separated entries from `off` on. */
  predicate HasEntry(s: string, off: nat, d: string)
    requires off <= |s|
    decreases |s| - off
  {
    off < |s| &&
    var e := EntryEnd(s, off);
    s[off..e] == d || (e < |s| && HasEntry(s, e + 1, d))
  }

  lemma EntryStep(s: string, off: nat, d: string)
    requires off < |s|
    ensures var e := EntryEnd(s, off);
            HasEntry(s, off, d) <==> s[off..e] == d || HasEntry(s, if e < |s| then e + 1 else e, d)
  {
  }

  lemma NoEntryLeft(s: string, d: string)
    ensures !HasEntry(s, |s|, d)
  {
  }

  /** Appends a new designator if it fits with its separator and the final NUL. */
  function Record(s: string, d: string): string {
    var sep := if |s| > 0 then "," else "";
    if d == "" || |s| + |sep| + |d| + 1 > BUF_SIZE || HasEntry(s, 0, d) then s else s + sep + d
  }

  class ChipBuffer {
    const buf: array<char>
    var used: nat

    ghost predicate Valid()
      reads this
    {
      buf.Length == BUF_SIZE && used < BUF_SIZE
    }

    ghost function Contents(): string
      reads this, buf
      requires Valid()
    {
      buf[..used]
    }

    constructor ()
      ensures Valid() && fresh(buf) && Contents() == ""
    {
      buf := new char[BUF_SIZE](_ => '\0');
      used := 0;
    }

    method FindComma(off: nat) returns (e: nat)
      requires Valid() && off <= used
      ensures e == EntryEnd(Contents(), off)
    {
      e := off;
      while e < used && buf[e] != ','
        invariant off <= e <= used && EntryEnd(Contents(), e) == EntryEnd(Contents(), off)
      {
        e := e + 1;
      }
    }

    /** The dedup scan over the entries. */
    method Scan(d: string) returns (found: bool)
      requires Valid()
      ensures found == HasEntry(Contents(), 0, d)
    {
      hide HasEntry, EntryEnd;
      found := false;
      var off := 0;
      ghost var s := Contents();
      while off < used
        invariant off <= used && HasEntry(s, off, d) == HasEntry(s, 0, d)
      {
        var e := FindComma(off);
        EntryStep(s, off, d);
        SubSlice(buf[..], 0, used, off, e);
        assert buf[..][0..used] == s && buf[..][off..e] == buf[off..e];
        if buf[off..e] == d {
          return true;
        }
        off := if e < used then e + 1 else e;
      }
      NoEntryLeft(s, d);
    }

    method RecordChip(d: string)
      requires Valid()
      modifies this`used, buf
      ensures Valid() && Contents() == Record(old(Contents()), d)
    {
      if d == "" {
        return;
      }
      var sep := if used > 0 then 1 else 0;
      if used + sep + |d| + 1 > BUF_SIZE {
        return;
      }
      var dup := Scan(d);
      if dup {
        return;
      }
      ghost var before := Contents();
      if sep == 1 {
        AppendChar(',');
      }
      AppendText(d);
      assert before + "" == before;
    }

    method AppendChar(c: char)
      requires Valid() && used + 1 < BUF_SIZE
      modifies this`used, buf
      ensures Valid() && Contents() == old(Contents()) + [c]
    {
      buf[used] := c;
      used := used + 1;
    }

    /** The copy loop and the NUL behind it. */
    method AppendText(d: string)
      requires Valid() && used + |d| < BUF_SIZE
      modifies this`used, buf
      ensures Valid() && Contents() == old(Contents()) + d
    {
      ghost var before := Contents();
      for i := 0 to |d|
        invariant Valid() && used == |before| + i && Contents() == before + d[..i]
      {
        AppendChar(d[i]);
        assert d[..i + 1] == d[..i] + [d[i]];
      }
      assert d[..|d|] == d;
      buf[used] := '\0';
    }
  }

  // ------------------------------------------------------------------ reading

  predicate IsGap(c: char) {
    c == ',' || c == ' '
  }

  function GapEnd(s: string, p: nat): (q: nat)
    requires p <= |s|
    ensures p <= q <= |s| && (q < |s| ==> !IsGap(s[q]))
    decreases |s| - p
  {
    if p < |s| && IsGap(s[p]) then GapEnd(s, p + 1) else p
  }

  /** A designator stops at a comma, at the end, or when its field is full. */
  function DesignatorEnd(s: string, q: nat): (e: nat)
    requires q < |s| && !IsGap(s[q])
    ensures q < e <= |s|
  {
    Min(EntryEnd(s, q), q + DESIG_MAX - 1)
  }

  /** The designators from `p` on. */
  function Split(s: string, p: nat): seq<string>
    requires p <= |s|
    decreases |s| - p
  {
    var q := GapEnd(s, p);
    if q == |s| then [] else [s[q..DesignatorEnd(s, q)]] + Split(s, DesignatorEnd(s, q))
  }

  /** Copies one designator. */
  method CopyDesignator(s: string, q: nat) returns (d: string, e: nat)
    requires q < |s| && !IsGap(s[q])
    ensures e == DesignatorEnd(s, q) && d == s[q..e]
  {
    d, e := "", q;
    while e < |s| && s[e] != ',' && |d| + 1 < DESIG_MAX
      invariant q <= e <= |s| && e <= EntryEnd(s, q) && d == s[q..e] && |d| <= DESIG_MAX - 1
      invariant EntryEnd(s, e) == EntryEnd(s, q)
    {
      d, e := d + [s[e]], e + 1;
    }
  }

  lemma GapStep(s: string, q: nat)
    requires q <= |s|
    ensures GapEnd(s, q) == if q < |s| && IsGap(s[q]) then GapEnd(s, q + 1) else q
  {
  }

  lemma SplitStep(s: string, p: nat)
    requires p <= |s|
    ensures var q := GapEnd(s, p);
            Split(s, p) == if q == |s| then [] else [s[q..DesignatorEnd(s, q)]] + Split(s, DesignatorEnd(s, q))
    ensures p == |s| ==> Split(s, p) == []
  {
  }

  method ReadChips(s: string, chips: array<string>) returns (n: nat)
    modifies chips
    ensures n <= chips.Length && chips[..n] == Take(Split(s, 0), chips.Length)
  {
    hide Split, GapEnd, DesignatorEnd;
    n := 0;
    var p := 0;
    while p < |s| && n < chips.Length
      invariant p <= |s| && n <= chips.Length && chips[..n] + Split(s, p) == Split(s, 0)
      decreases |s| - p
    {
      var q := p;
      ghost var before := chips[..n];
      SplitStep(s, p);
      while q < |s| && (s[q] == ',' || s[q] == ' ')
        invariant p <= q <= |s| && GapEnd(s, q) == GapEnd(s, p) && chips[..n] == before
      {
        GapStep(s, q);
        q := q + 1;
      }
      GapStep(s, q);
      if q == |s| {
        SplitStep(s, q);
        p := q;
        break;
      }
      var d, e := CopyDesignator(s, q);
      chips[n] := d;
      ghost var rest := Split(s, e);
      assert Split(s, p) == [d] + rest;
      Assoc(before, [d], rest);
      assert chips[..n + 1] == before + [d];
      n, p := n + 1, e;
    }
    SplitStep(s, p);
    assert p == |s| ==> chips[..n] + Split(s, p) == chips[..n];
  }

  // -------------------------------------------------------------- round trip

  /** One to fifteen characters, none of them a comma or a blank. */
  predicate Designator(d: string) {
    0 < |d| < DESIG_MAX && forall i :: 0 <= i < |d| ==> !IsGap(d[i])
  }

  ghost predicate Designators(ds: seq<string>) {
    forall i :: 0 <= i < |ds| ==> Designator(ds[i])
  }

  function Join(ds: seq<string>): string {
    if ds == [] then "" else Join(ds[..|ds| - 1]) + (if |ds| > 1 then "," else "") + ds[|ds| - 1]
  }

  function RecordAll(ds: seq<string>): string {
    if ds == [] then "" else Record(RecordAll(ds[..|ds| - 1]), ds[|ds| - 1])
  }

  /** First-seen order, no repeats, as long as the joined text and its NUL fit. */
  function Fitting(ds: seq<string>): seq<string> {
    if ds == [] then []
    else
      Fit(Fitting(ds[..|ds| - 1]), ds[|ds| - 1])
  }

  function Fit(kept: seq<string>, d: string): seq<string> {
    if d in kept || |Join(kept + [d])| >= BUF_SIZE then kept else kept + [d]
  }

  function JoinFrom(ds: seq<string>, k: nat): string
    requires k <= |ds|
    decreases |ds| - k
  {
    if k == |ds| then "" else ds[k] + (if k + 1 < |ds| then "," else "") + JoinFrom(ds, k + 1)
  }

  lemma {:induction false} JoinSplit(ds: seq<string>, k: nat)
    requires k < |ds|
    ensures Join(ds) == Join(ds[..k]) + (if k > 0 then "," else "") + JoinFrom(ds, k)
    decreases |ds| - k
  {
    var sep := if k > 0 then "," else "";
    if k + 1 == |ds| {
      assert JoinFrom(ds, k + 1) == "";
      assert ds[k] + "" + "" == ds[k];
    } else {
      JoinSplit(ds, k + 1);
      assert ds[..k + 1][..k] == ds[..k];
      Chain(Join(ds[..k]), sep, ds[k], ",", JoinFrom(ds, k + 1));
    }
  }

  lemma Chain(a: string, b: string, c: string, d: string, e: string)
    ensures ((a + b + c) + d) + e == a + b + (c + d + e)
  {
  }

  lemma {:induction false} EntryEndIs(s: string, p: nat, e: nat)
    requires p <= e <= |s| && (forall i :: p <= i < e ==> s[i] != ',') && (e < |s| ==> s[e] == ',')
    ensures EntryEnd(s, p) == e
    decreases e - p
  {
    if p < e {
      EntryEndIs(s, p + 1, e);
    }
  }

  /** In a joined text the entry at `k` starts where the text from `k` on starts. */
  lemma EntryAt(ds: seq<string>, k: nat, s: string, p: nat)
    requires Designators(ds) && k < |ds| && p <= |s| && s[p..] == JoinFrom(ds, k)
    ensures var e := EntryEnd(s, p);
            && p < |s| && !IsGap(s[p]) && e == p + |ds[k]| && s[p..e] == ds[k]
            && (if k + 1 < |ds| then e + 1 <= |s| && s[e] == ',' && s[e + 1..] == JoinFrom(ds, k + 1) else e == |s|)
  {
    var t, d, e := s[p..], ds[k], p + |ds[k]|;
    assert forall i :: p <= i < |s| ==> s[i] == t[i - p];
    assert forall i :: p <= i < e ==> s[i] == d[i - p];
    EntryEndIs(s, p, e);
    assert s[p..e] == d;
    if k + 1 < |ds| {
      assert t[|d| + 1..] == JoinFrom(ds, k + 1);
    }
  }

  lemma {:induction false} SplitJoined(ds: seq<string>, k: nat, s: string, p: nat)
    requires Designators(ds) && k <= |ds| && p <= |s| && s[p..] == JoinFrom(ds, k)
    ensures Split(s, p) == ds[k..]
    decreases |ds| - k
  {
    hide JoinFrom, EntryEnd, Split, IsGap, GapEnd;
    if k == |ds| {
      NothingLeft(ds, s, p);
    } else {
      EntryAt(ds, k, s, p);
      var e := EntryEnd(s, p);
      assert ds[k..] == [ds[k]] + ds[k + 1..];
      SplitEntry(s, p, e);
      if k + 1 < |ds| {
        SplitJoined(ds, k + 1, s, e + 1);
        EntryAt(ds, k + 1, s, e + 1);
        SplitComma(s, e);
      } else {
        SplitEnd(s);
      }
    }
  }

  lemma NothingLeft(ds: seq<string>, s: string, p: nat)
    requires p <= |s| && s[p..] == JoinFrom(ds, |ds|)
    ensures Split(s, p) == []
  {
  }

  /** An entry that does not start with a gap is the next designator, as long as it fits its field. */
  lemma SplitEntry(s: string, p: nat, e: nat)
    requires p < |s| && !IsGap(s[p]) && e == EntryEnd(s, p) && DesignatorEnd(s, p) == e
    ensures Split(s, p) == [s[p..e]] + Split(s, e)
  {
    assert GapEnd(s, p) == p;
  }

  /** A single comma in front of an entry is skipped. */
  lemma SplitComma(s: string, e: nat)
    requires e + 1 < |s| && s[e] == ',' && !IsGap(s[e + 1])
    ensures Split(s, e) == Split(s, e + 1)
  {
    assert GapEnd(s, e) == e + 1 == GapEnd(s, e + 1);
  }

  lemma SplitEnd(s: string)
    ensures Split(s, |s|) == []
  {
  }

  lemma NoJoinLeft(ds: seq<string>)
    ensures JoinFrom(ds, |ds|) == ""
  {
  }

  lemma {:induction false} EntriesOfJoined(ds: seq<string>, k: nat, s: string, p: nat, d: string)
    requires Designators(ds) && k <= |ds| && p <= |s| && s[p..] == JoinFrom(ds, k)
    ensures HasEntry(s, p, d) <==> d in ds[k..]
    decreases |ds| - k
  {
    hide JoinFrom, EntryEnd, Designators, IsGap;
    if k == |ds| {
      NoJoinLeft(ds);
    } else {
      EntryAt(ds, k, s, p);
      assert ds[k..] == [ds[k]] + ds[k + 1..];
      if k + 1 < |ds| {
        EntriesOfJoined(ds, k + 1, s, EntryEnd(s, p) + 1, d);
      }
    }
  }

  lemma JoinedFromStart(ds: seq<string>)
    ensures Join(ds)[0..] == JoinFrom(ds, 0)
  {
    if ds != [] {
      JoinSplit(ds, 0);
    }
  }

  lemma {:induction false} JoinNonEmpty(ds: seq<string>)
    requires Designators(ds)
    ensures Join(ds) == "" <==> ds == []
  {
  }

  /** The buffer always holds the fitting designators joined by commas, in at most 255 characters. */
  lemma {:induction false} BufferIsJoined(ds: seq<string>)
    requires Designators(ds)
    ensures RecordAll(ds) == Join(Fitting(ds)) && |RecordAll(ds)| < BUF_SIZE
    ensures Designators(Fitting(ds)) && Distinct(Fitting(ds))
  {
    hide HasEntry, JoinFrom, IsGap, Join, Record;
    if ds != [] {
      var front, d := ds[..|ds| - 1], ds[|ds| - 1];
      BufferIsJoined(front);
      RecordJoined(Fitting(front), d);
    } else {
      assert Join([]) == "" by { NothingJoined(); }
    }
  }

  lemma NothingJoined()
    ensures Join([]) == ""
  {
  }

  lemma JoinMore(kept: seq<string>, d: string)
    ensures Join(kept + [d]) == if kept == [] then d else Join(kept) + "," + d
  {
    assert (kept + [d])[..|kept|] == kept;
  }

  /** Recording one designator keeps the buffer the joined list of those that fitted. */
  lemma RecordJoined(kept: seq<string>, d: string)
    requires Designators(kept) && Distinct(kept) && Designators([d]) && |Join(kept)| < BUF_SIZE
    ensures var now := Fit(kept, d);
            && Record(Join(kept), d) == Join(now) && |Join(now)| < BUF_SIZE && Designators(now) && Distinct(now)
  {
    hide HasEntry, JoinFrom, IsGap, Join;
    JoinedFromStart(kept);
    EntriesOfJoined(kept, 0, Join(kept), 0, d);
    JoinNonEmpty(kept);
    JoinMore(kept, d);
    assert kept[0..] == kept;
    assert "" + "" + d == d;
    assert Designator([d][0]);
  }

  /** After any run of recorded designators the shim reads back exactly the distinct ones that fitted, in
      first-seen order, as many as its table holds. */
  lemma ChipRoundTrip(ds: seq<string>, cap: nat)
    requires Designators(ds)
    ensures Take(Split(RecordAll(ds), 0), cap) == Take(Fitting(ds), cap)
  {
    BufferIsJoined(ds);
    var kept := Fitting(ds);
    JoinedFromStart(kept);
    SplitJoined(kept, 0, Join(kept), 0);
    assert kept[0..] == kept;
  }

  /** The distinct designators of a run in first-seen order. */
  function FirstSeen(ds: seq<string>): seq<string> {
    if ds == [] then []
    else
      var before, d := FirstSeen(ds[..|ds| - 1]), ds[|ds| - 1];
      if d in before then before else before + [d]
  }

  lemma {:induction false} FirstSeenHas(ds: seq<string>, d: string)
    ensures d in FirstSeen(ds) <==> d in ds
  {
    if ds != [] {
      var front, last := ds[..|ds| - 1], ds[|ds| - 1];
      assert ds == front + [last];
      FirstSeenHas(front, d);
    }
  }

  /** A designator that once did not fit never fits again: the buffer only grows. */
  lemma {:induction false} StaysOut(ds: seq<string>, d: string)
    requires d in ds && d !in Fitting(ds)
    ensures |Join(Fitting(ds) + [d])| >= BUF_SIZE
  {
    hide Join;
    var front, last := ds[..|ds| - 1], ds[|ds| - 1];
    assert ds == front + [last];
    var kept := Fitting(front);
    if d in front {
      StaysOut(front, d);
      JoinMore(kept, d);
      JoinMore(kept, last);
      JoinMore(kept + [last], d);
      NothingJoined();
    }
  }

  /** As long as the distinct designators fit together, all of them are kept in that order. */
  lemma {:induction false} AllKeptInOrder(ds: seq<string>)
    requires |Join(FirstSeen(ds))| < BUF_SIZE
    ensures Fitting(ds) == FirstSeen(ds)
  {
    hide Join;
    if ds != [] {
      var front, last := ds[..|ds| - 1], ds[|ds| - 1];
      JoinMore(FirstSeen(front), last);
      NothingJoined();
      AllKeptInOrder(front);
    }
  }

  lemma NotLater(ds: seq<string>, last: string, d: string)
    requires d in ds && d in Fitting(ds + [last])
    ensures d in Fitting(ds)
  {
    hide Join;
    assert (ds + [last])[..|ds|] == ds;
    if d !in Fitting(ds) {
      StaysOut(ds, d);
    }
  }

  /** And if all are kept they fit together. */
  lemma {:induction false} KeptFits(ds: seq<string>)
    requires forall d :: d in ds ==> d in Fitting(ds)
    ensures |Join(FirstSeen(ds))| < BUF_SIZE
  {
    hide Join;
    if ds == [] {
      NothingJoined();
    } else {
      var front, last := ds[..|ds| - 1], ds[|ds| - 1];
      assert ds == front + [last];
      forall d | d in front ensures d in Fitting(front) {
        assert d in ds;
        NotLater(front, last, d);
      }
      KeptFits(front);
      AllKeptInOrder(front);
      assert last in Fitting(ds);
    }
  }

  /** The shim gets back every designator of a run exactly when the distinct ones, joined in first-seen order, are
      shorter than the buffer; then it gets them in that order. */
  lemma AllKeptIff(ds: seq<string>)
    ensures (forall d :: d in ds ==> d in Fitting(ds)) <==> |Join(FirstSeen(ds))| < BUF_SIZE
    ensures |Join(FirstSeen(ds))| < BUF_SIZE ==> Fitting(ds) == FirstSeen(ds)
  {
    hide Join, Fitting, FirstSeen;
    if |Join(FirstSeen(ds))| < BUF_SIZE {
      AllKeptInOrder(ds);
      forall d | d in ds ensures d in Fitting(ds) {
        FirstSeenHas(ds, d);
      }
    } else if forall d :: d in ds ==> d in Fitting(ds) {
      KeptFits(ds);
    }
  }
}
