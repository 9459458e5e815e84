/** A boot of the shim from its variables to the firmware's free pages. */
module MaskBoot {
  import opened Common
  import opened Nvram
  import opened VarNames
  import opened BootFlow
  import opened MaskPages
  import opened BadPagesBlob
  import opened MaskMode
  import BootLaws
  import InstallLaws
  import Imc
  import RowMode

  /** The range table of page mode: what badmem.txt gave, with the saved list merged in. */
  function PageRanges(s: Store, existing: seq<MemRange>, cap: nat): seq<MemRange> {
    match SavedPages(s)
    case None => existing
    case Some(pages) => MergePages(existing, pages, cap)
  }

  /** What page mode and row mode leave of the free pages; chip mode is not modelled. */
  ghost function FreeAfter(s: Store, free: set<nat>, regs: Imc.Regs, existing: seq<MemRange>, cap: nat,
                           noMask: bool, answer: Answer): set<nat> {
    match ModeOf(s, noMask, answer)
    case ByPage => free - AllWindowPages(PageRanges(s, existing, cap))
    case ByRow => free - RowMode.MaskedPages(regs, Take(SavedRows(s), 256))
    case _ => free
  }

  /** Finds the page list under its own or its legacy name and merges it into the range table. */
  method ReadSavedPages(nv: Nvram, ranges: array<MemRange>, existing: nat) returns (added: nat)
    requires existing <= ranges.Length
    modifies ranges
    ensures existing + added <= ranges.Length
    ensures ranges[..existing + added] == PageRanges(nv.State(), old(ranges[..existing]), ranges.Length)
  {
    hide MergePages, Decode;
    var r := nv.GetVariable(BadPages(), BLOB_MAX);
    if !r.Found? {
      r := nv.GetVariable(LegacyPages(), BLOB_MAX);
    }
    if !r.Found? {
      return 0;
    }
    added := ReadBadPages(r.data, ranges, existing);
  }

  /** Confirming the installation leaves the saved list as it was. */
  lemma ListUntouched(s: Store, answer: Answer, stateOk: bool)
    requires !(AwaitsConfirmation(s) && answer == No)
    ensures SavedPages(Boot(s, false, answer, stateOk)) == SavedPages(s)
  {
    hide MaskState, BadPages, Put, Fetch, Decode, InState;
    InstallLaws.PutElsewhere(s, MaskState(), Confirmed());
  }

  /** The state branch, the choice of mode, and the reservation it leads to. */
  method MaskingBoot(nv: Nvram, table: PageTable, regs: Imc.Regs, ranges: array<MemRange>, existing: nat,
                     noMask: bool, answer: Answer, stateOk: bool) returns (mode: Mode)
    requires nv.Valid() && table.Valid() && existing <= ranges.Length
    modifies nv, table, ranges
    ensures nv.Valid() && table.Valid()
    ensures nv.State() == Boot(old(nv.State()), noMask, answer, stateOk)
    ensures mode == ModeOf(old(nv.State()), noMask, answer)
    ensures mode != ByChip ==>
              table.free == FreeAfter(old(nv.State()), old(table.free), regs, old(ranges[..existing]), ranges.Length,
                                      noMask, answer)
  {
    hide Boot, SavedRows, PageRanges, AllWindowPages, RowMode.MaskedPages, DecoderIs, InState;
    ghost var s, was := nv.State(), ranges[..existing];
    mode := ChooseMode(nv, noMask, answer, stateOk);
    match mode {
      case ByPage =>
        ListUntouched(s, answer, stateOk);
        SameRanges(s, nv.State(), was, ranges.Length);
        var added := ReadSavedPages(nv, ranges, existing);
        var _, _, _, _, _ := table.MaskAll(ranges[..existing + added]);
      case ByRow =>
        RecordsUntouched(s, answer, stateOk);
        var rows := new Imc.RowTuple[256](_ => Imc.RowTuple(0, 0, 0, 0, 0));
        var n := ReadBadRows(nv, rows);
        RowMode.MaskRows(regs, rows[..n], table);
      case _ =>
    }
  }

  lemma SameRanges(s: Store, t: Store, existing: seq<MemRange>, cap: nat)
    requires SavedPages(s) == SavedPages(t)
    ensures PageRanges(s, existing, cap) == PageRanges(t, existing, cap)
  {
  }
}
