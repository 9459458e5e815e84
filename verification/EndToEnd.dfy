/** From an error report to a reserved page: the tester logs and skips, the user copies the dump into brr-entry,
    the list survives in the firmware's variables, and the shim reserves windows around it on every later boot. */
module EndToEnd {
  import opened Common
  import opened Intervals
  import opened BadmemLog
  import BurstDetector
  import opened Prune
  import opened VmMap
  import opened MaskPages
  import TesterRun
  import opened BadPagesBlob
  import opened AddressLines
  import opened LineInput
  import opened AddressDump
  import opened Nvram
  import opened VarNames
  import opened MaskOps
  import opened InstallLaws
  import BootFlow
  import BootLaws
  import MaskMode
  import MaskBoot
  import Bytes
  import Imc

  const TYPED_MAX: nat := 256

  /** The line a user types from the screen: the dumped rows, each behind the same blanks. */
  function DumpedLine(ps: seq<nat>, indent: string): string {
    Typed(DumpRows(ps), indent)
  }

  /** What the line editor leaves of a typed line. */
  function Kept(line: string): string {
    Take(line, LINE_BUFFER - 1)
  }

  /** What brr-entry parses from it. */
  function Parsed(line: string): seq<nat> {
    Take(Values(Kept(line), 0), TYPED_MAX)
  }

  /** Merged into a range table that has room for the list, a listed page brings its whole window. */
  lemma ListedPageReserved(existing: seq<MemRange>, ps: seq<nat>, cap: nat, p: nat, x: nat)
    requires PageAligned(existing) && |existing| <= cap && |MergeAll(existing, ps)| <= cap
    requires p in ps && p % PAGE == 0 && Window(MemRange(p, PAGE)).Has(x)
    ensures AlignDown(x) in AllWindowPages(MergePages(existing, ps, cap))
  {
    hide MergePages, MergeAll, Absorbed, AllWindowPages, Window;
    var m := MergePages(existing, ps, cap);
    MergeCoversIff(existing, ps, cap);
    assert Absorbed(m, p) by {
      var i :| 0 <= i < |ps| && ps[i] == p;
      assert AlignDown(ps[i]) == p;
    }
    AbsorbedKeepsWindow(m, p, x);
    var r :| r in m && Window(r).Has(x);
    WindowIff(r, x);
    WindowPageIff(m, AlignDown(x));
  }

  /** Every merged range was there before or is a listed page. */
  lemma {:induction false} MergedFrom(existing: seq<MemRange>, ps: seq<nat>, r: MemRange)
    requires r in MergeAll(existing, ps)
    ensures r in existing || exists p :: p in ps && r == TesterRun.PageRange(AlignDown(p))
  {
    hide Absorbed, AlignDown;
    if ps != [] {
      var front, last := ps[..|ps| - 1], ps[|ps| - 1];
      assert last in ps && forall p :: p in front ==> p in ps;
      if r in MergeAll(existing, front) {
        MergedFrom(existing, front, r);
      }
    }
  }

  ghost predicate InWindow(ranges: seq<MemRange>, x: nat) {
    exists r :: r in ranges && Window(r).Has(x)
  }

  ghost predicate AllPages(ps: seq<nat>) {
    forall i :: 0 <= i < |ps| ==> ps[i] % PAGE == 0
  }

  /** As long as the table has room, it reserves exactly the windows of the ranges it held and of the listed pages. */
  lemma ReservedIff(existing: seq<MemRange>, ps: seq<nat>, cap: nat, x: nat)
    requires PageAligned(existing) && |existing| <= cap && |MergeAll(existing, ps)| <= cap && AllPages(ps)
    ensures AlignDown(x) in AllWindowPages(MergePages(existing, ps, cap))
       <==> InWindow(existing, x) || TesterRun.NearPage(ps, x)
  {
    hide MergePages, MergeAll, Absorbed, AllWindowPages, Window, AlignDown;
    var m := MergePages(existing, ps, cap);
    MergeCoversIff(existing, ps, cap);
    MergeIsPrefix(existing, ps, cap);
    WindowPageIff(m, AlignDown(x));
    if AlignDown(x) in AllWindowPages(m) {
      var r :| r in m && Window(r).Has(AlignDown(x));
      WindowIff(r, x);
      MergedFrom(existing, ps, r);
      if r !in existing {
        var p :| p in ps && r == TesterRun.PageRange(AlignDown(p));
        OwnBase(p);
      }
    }
    if TesterRun.NearPage(ps, x) {
      var p :| p in ps && Window(TesterRun.PageRange(p)).Has(x);
      ListedPageReserved(existing, ps, cap, p, x);
    } else if InWindow(existing, x) {
      var r :| r in existing && Window(r).Has(x);
      WindowIff(r, x);
      BaseIsPage(x);
    }
  }

  lemma OwnBase(p: nat)
    ensures p % PAGE == 0 ==> AlignDown(p) == p
  {
  }

  lemma BaseIsPage(x: nat)
    ensures AlignDown(x) % PAGE == 0
  {
  }

  lemma CutIsGood(line: string, n: nat)
    requires GoodLine(line)
    ensures GoodLine(Take(line, n))
  {
    var cut := Take(line, n);
    forall i | 0 <= i < |cut| ensures GoodChar(cut, i) {
      assert GoodChar(line, i);
    }
  }

  lemma KeptPage(line: string, q: nat)
    requires q < |line|
    ensures Words(Keep(TokenValue(line, q))) && AllPages(Keep(TokenValue(line, q)))
    ensures TokenStop(line, q) <= |line| && TokenStop(line, q) >= q
  {
  }

  lemma {:induction false} ParsedWords(line: string, p: nat)
    requires p <= |line|
    ensures Words(Values(line, p)) && AllPages(Values(line, p))
    decreases |line| - p
  {
    hide TokenValue, TokenStop, DigitsStart, Keep;
    var q := SepEnd(line, p);
    if q < |line| && TokenStop(line, q) != q {
      KeptPage(line, q);
      ParsedWords(line, TokenStop(line, q));
    }
  }

  /** A parsed list is stored and read back unchanged. */
  lemma ParsedIsStored(line: string)
    ensures Decode(Encode(Parsed(line))) == Some(Parsed(line)) && AllPages(Parsed(line))
  {
    hide Values, Encode, Decode, Kept;
    ParsedWords(Kept(line), 0);
    BlobRoundTrip(Parsed(line));
  }

  /** The dump of a run's log, typed key by key and submitted, always parses to its end, and parses to the log itself
      exactly when the log holds no page zero and its text fits the line buffer. */
  lemma LogSurvivesIff(h: seq<BurstDetector.Event>, indent: string)
    requires Words(TesterRun.Run(h).pages) && Blanks(indent)
    ensures var line := DumpedLine(TesterRun.Run(h).pages, indent);
            && Line(Keys(line) + [Stroke.Key('\r')], "", LINE_BUFFER) == Submitted(Kept(line))
            && Stops(Kept(line), TYPED_MAX)
    ensures var ps, line := TesterRun.Run(h).pages, DumpedLine(TesterRun.Run(h).pages, indent);
            Parsed(line) == ps <==> 0 !in ps && |line| < LINE_BUFFER
  {
    hide Values, Typed, DumpRows, Words, GoodLine, Line, Keys, Stops, Blanks, Separators, Printable;
    var ps := TesterRun.Run(h).pages;
    var line := DumpedLine(ps, indent);
    forall i | 0 <= i < |ps| ensures ps[i] % PAGE == 0 {
      TesterRun.LoggedPagesAligned(h, ps[i]);
    }
    DumpPrintable(ps, indent);
    TypedLine(line, "", LINE_BUFFER);
    NothingTaken("", line);
    DumpThenParse(ps, indent);
    CutIsGood(line, LINE_BUFFER - 1);
    StopsIff(Kept(line), TYPED_MAX);
    CutRoundTripIff(ps, indent, LINE_BUFFER - 1, TYPED_MAX);
  }

  lemma LogIsPages(h: seq<BurstDetector.Event>)
    ensures AllPages(TesterRun.Run(h).pages)
  {
    var ps := TesterRun.Run(h).pages;
    forall i | 0 <= i < |ps| ensures ps[i] % PAGE == 0 {
      TesterRun.LoggedPagesAligned(h, ps[i]);
    }
  }

  /** An address that a prune at moment `k` of a run took out of the test map shares its MiB with an error. From the
      list saved for that run the shim reserves exactly the windows of the errors that the log could take, and of the
      ranges it had before; one error of the MiB is enough for the page of the address. */
  lemma PrunedIsReserved(h: seq<BurstDetector.Event>, k: nat, segs: seq<Segment>, maxSegments: nat,
                         existing: seq<MemRange>, cap: nat, x: nat)
    requires k <= |h| && TesterRun.Untested(segs, Ranges(TesterRun.Run(h[..k]).skips), maxSegments, x)
    requires PageAligned(existing) && |existing| <= cap && |MergeAll(existing, TesterRun.Run(h).pages)| <= cap
    ensures TesterRun.ErrorInMib(h[..k], x) && (TesterRun.TakenInMib(h, x) ==> TesterRun.TakenNear(h, x))
    ensures AlignDown(x) in AllWindowPages(MergePages(existing, TesterRun.Run(h).pages, cap))
       <==> InWindow(existing, x) || TesterRun.TakenNear(h, x)
  {
    hide MergePages, MergeAll, AllWindowPages, TesterRun.Run, TesterRun.Untested, TesterRun.TakenNear, AllPages,
      TesterRun.TakenInMib, TesterRun.ErrorInMib, TesterRun.NearPage, Window;
    TesterRun.PrunedIsMasked(h, k, segs, maxSegments, x);
    TesterRun.MaskedIff(h, x);
    LogIsPages(h);
    ReservedIff(existing, TesterRun.Run(h).pages, cap, x);
  }

  /** Whatever the length of the dump: a logged page whose text ends inside the line buffer is on the typed list. */
  lemma WholeTextTyped(h: seq<BurstDetector.Event>, indent: string, j: nat)
    requires var log := TesterRun.Run(h).pages;
             && Words(log) && Separators(indent) && j < |log| && log[j] != 0 && TextEnd(log, j, indent) < LINE_BUFFER
    ensures var log := TesterRun.Run(h).pages; log[j] in Parsed(DumpedLine(log, indent))
  {
    hide Values, Typed, DumpRows, Words, Separators;
    LogIsPages(h);
    CutKeepsWhole(TesterRun.Run(h).pages, indent, LINE_BUFFER - 1, TYPED_MAX, j);
  }

  /** The shim finds the list that a session saved. */
  lemma SavedListFound(s: Store, ps: seq<nat>)
    requires BootLaws.Lookup(s, BadPages()) == Some(Encode(ps)) && Decode(Encode(ps)) == Some(ps)
    ensures MaskMode.SavedPages(s) == Some(ps)
  {
    hide Decode;
    assert |Encode(ps)| <= BootFlow.BLOB_MAX;
  }

  /** A session of a run saved what it parsed from the typed dump; then come any sessions, boots, reverts, tool runs
      and self-tests that neither save another list nor uninstall. On a machine without a chip trial, rows or chips
      the next boot that the user does not decline masks by that list, whatever was installed before and whichever
      writes the firmware refused. */
  lemma TypedListIsUsed(s: Store, events: seq<BootFlow.Event>, i: nat, line: string)
    requires Sound(s) && MaskMode.PageReady(s)
    requires BootLaws.LastSave(s, events, i) && events[i].BrrEntry? && events[i].session.pages == Parsed(line)
    ensures MaskMode.SavedPages(BootLaws.Run(s, events)) == Some(Parsed(line))
    ensures forall answer :: !MaskMode.Declined(BootLaws.Run(s, events), false, answer) ==>
              MaskMode.ModeOf(BootLaws.Run(s, events), false, answer) == MaskMode.ByPage
  {
    hide Encode, Decode, Parsed, BootLaws.LastSave, BootLaws.Run, Sound, BadPages, BootLaws.Lookup, AllPages,
      MaskMode.SavedPages, MaskMode.Declined, MaskMode.ModeOf, MaskMode.PageReady;
    var now := BootLaws.Run(s, events);
    BootLaws.PagesAfterRun(s, events, i);
    ParsedIsStored(line);
    SavedListFound(now, Parsed(line));
    MaskMode.RunKeepsReady(s, events);
    forall answer | !MaskMode.Declined(now, false, answer)
      ensures MaskMode.ModeOf(now, false, answer) == MaskMode.ByPage
    {
      MaskMode.ReadyByPage(now, answer);
    }
  }

  /** The address shares its MiB with a logged page whose text the line buffer holds. */
  ghost predicate TypedNear(log: seq<nat>, indent: string, x: nat) {
    exists j :: 0 <= j < |log| && log[j] != 0 && TextEnd(log, j, indent) < LINE_BUFFER
             && BurstDetector.MibBase(log[j]) == BurstDetector.MibBase(x)
  }

  lemma TypedNearIsNear(h: seq<BurstDetector.Event>, indent: string, x: nat)
    requires Words(TesterRun.Run(h).pages) && Blanks(indent)
    requires TypedNear(TesterRun.Run(h).pages, indent, x)
    ensures TesterRun.NearPage(Parsed(DumpedLine(TesterRun.Run(h).pages, indent)), x)
  {
    hide TesterRun.Run, Words, Blanks, Separators, TextEnd, Window, BurstDetector.MibBase, Parsed, DumpedLine;
    var log := TesterRun.Run(h).pages;
    var j :| 0 <= j < |log| && log[j] != 0 && TextEnd(log, j, indent) < LINE_BUFFER
          && BurstDetector.MibBase(log[j]) == BurstDetector.MibBase(x);
    TesterRun.LoggedPagesAligned(h, log[j]);
    TesterRun.SameMibInWindow(log[j], x);
    DumpPrintable(log, indent);
    WholeTextTyped(h, indent, j);
  }

  /** What the next boot that is not declined does with the free pages: it takes the windows of the typed list and of
      badmem.txt, and nothing else. */
  lemma BootReserves(s: Store, events: seq<BootFlow.Event>, i: nat, line: string, regs: Imc.Regs,
                     existing: seq<MemRange>, cap: nat, free: set<nat>, answer: BootFlow.Answer, x: nat)
    requires Sound(s) && MaskMode.PageReady(s)
    requires BootLaws.LastSave(s, events, i) && events[i].BrrEntry? && events[i].session.pages == Parsed(line)
    requires PageAligned(existing) && |existing| <= cap && |MergeAll(existing, Parsed(line))| <= cap
    requires !MaskMode.Declined(BootLaws.Run(s, events), false, answer)
    ensures AlignDown(x) in MaskBoot.FreeAfter(BootLaws.Run(s, events), free, regs, existing, cap, false, answer)
       <==> AlignDown(x) in free && !InWindow(existing, x) && !TesterRun.NearPage(Parsed(line), x)
  {
    hide MergePages, MergeAll, AllWindowPages, Parsed, AllPages, BootLaws.LastSave, BootLaws.Run, Sound, InWindow,
      MaskMode.SavedPages, MaskMode.Declined, MaskMode.ModeOf, MaskMode.PageReady, TesterRun.NearPage, AlignDown;
    TypedListIsUsed(s, events, i, line);
    ParsedIsStored(line);
    ReservedIff(existing, Parsed(line), cap, x);
  }

  /** The whole promise, for an address that a prune at any moment `k` of a run took out of the test map: an error was
      reported in its MiB by then. The dump of the final log is typed and saved; after any later events that neither
      save another list nor uninstall, on a machine in any state but a chip trial, rows or chips, a boot that is not
      declined masks by the typed list and takes exactly its windows and those of badmem.txt out of the free pages. The
      list is the log exactly when the log holds no page zero and its text fits the line buffer; then it takes the page
      of the address if the log could take some error of its MiB, and just as well when the line cut the list but a
      page of the MiB was typed whole. */
  lemma BadMemoryStaysReserved(h: seq<BurstDetector.Event>, k: nat, segs: seq<Segment>, maxSegments: nat,
                               indent: string, s: Store, events: seq<BootFlow.Event>, i: nat, regs: Imc.Regs,
                               existing: seq<MemRange>, cap: nat, free: set<nat>, answer: BootFlow.Answer, x: nat)
    requires Words(TesterRun.Run(h).pages) && Blanks(indent)
    requires k <= |h| && TesterRun.Untested(segs, Ranges(TesterRun.Run(h[..k]).skips), maxSegments, x)
    requires Sound(s) && MaskMode.PageReady(s)
    requires BootLaws.LastSave(s, events, i) && events[i].BrrEntry?
    requires events[i].session.pages == Parsed(DumpedLine(TesterRun.Run(h).pages, indent))
    requires PageAligned(existing) && |existing| <= cap && |MergeAll(existing, events[i].session.pages)| <= cap
    requires !MaskMode.Declined(BootLaws.Run(s, events), false, answer)
    ensures TesterRun.ErrorInMib(h[..k], x)
    ensures MaskMode.ModeOf(BootLaws.Run(s, events), false, answer) == MaskMode.ByPage
    ensures AlignDown(x) in MaskBoot.FreeAfter(BootLaws.Run(s, events), free, regs, existing, cap, false, answer)
       <==> AlignDown(x) in free && !InWindow(existing, x) && !TesterRun.NearPage(events[i].session.pages, x)
    ensures var log, list := TesterRun.Run(h).pages, events[i].session.pages;
            && (list == log <==> 0 !in log && |DumpedLine(log, indent)| < LINE_BUFFER)
            && (list == log ==> (TesterRun.NearPage(list, x) <==> TesterRun.TakenNear(h, x)))
            && (list == log && TesterRun.TakenInMib(h, x) ==> TesterRun.NearPage(list, x))
            && (TypedNear(log, indent, x) ==> TesterRun.NearPage(list, x))
  {
    hide MergeAll, Parsed, DumpedLine, Words, Blanks, PageAligned, BootLaws.Saves, BootLaws.Run, Sound, InWindow,
      MaskMode.Declined, MaskMode.ModeOf, MaskMode.PageReady, TesterRun.Run, TesterRun.Untested, TesterRun.NearPage,
      TesterRun.TakenNear, TesterRun.TakenInMib, TesterRun.ErrorInMib, TypedNear, MaskBoot.FreeAfter, AlignDown;
    var log := TesterRun.Run(h).pages;
    var line := DumpedLine(log, indent);
    LogSurvivesIff(h, indent);
    TypedListIsUsed(s, events, i, line);
    BootReserves(s, events, i, line, regs, existing, cap, free, answer, x);
    TesterRun.PrunedIsMasked(h, k, segs, maxSegments, x);
    TesterRun.MaskedIff(h, x);
    if TypedNear(log, indent, x) {
      TypedNearIsNear(h, indent, x);
    }
  }

  /** And a reserved page is out of the firmware's free pool once the shim has gone over its table; with no range
      reported as a gap, no page of any window is faulty either. */
  method ReserveSaved(table: PageTable, blob: seq<Bytes.Byte>, ranges: array<MemRange>, existing: nat)
    returns (gaps: nat, ghost held: set<nat>)
    requires table.Valid() && existing <= ranges.Length && Decode(blob).Some?
    modifies table, ranges
    ensures table.Valid() && table.free == old(table.free) - held
    ensures held == AllWindowPages(MergePages(old(ranges[..existing]), Decode(blob).value, ranges.Length))
    ensures gaps == 0 <==> held * table.faulty == {}
  {
    hide MergePages, Decode, AllWindowPages;
    var added := ReadBadPages(blob, ranges, existing);
    ghost var merged := ranges[..existing + added];
    var _, g, _, _, _ := table.MaskAll(ranges[..existing + added]);
    NoGapsIff(merged, table.faulty);
    gaps, held := g, AllWindowPages(merged);
    assert held * table.faulty == table.faulty * held;
  }
}
