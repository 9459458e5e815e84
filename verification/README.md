# Bad RAM: from an error report to a reserved page

The system keeps a machine with defective memory usable. A patched memory tester logs the pages that fail and, when
errors come in bursts, stops testing the MiB they are in. The user copies the addresses from the screen into
`brr-entry`, which saves them in a firmware variable and installs a small EFI program, the mask shim, in front of the
normal boot order. On every boot the shim reserves the pages around each saved address and then starts the operating
system. A revert program takes everything out again.

These modules model that logic and prove what it promises. The programs that update state step by step are classes and
methods proved against step functions; the promises are lemmas about those functions, over all inputs and all runs.

| modules | part of the system |
|---|---|
| `BadmemLog`, `BurstDetector`, `Prune`, `VmMap`, `TesterRun` | page log, skip list, burst detector, pruning of the test map |
| `TesterLimits` | runs that show what a full work list, an overrun one and a full log lead to |
| `AddressDump`, `LineInput`, `AddressLines`, `BadPagesBlob`, `ChipList`, `BadmemParse` | printers, line editor, parsers and blobs, and their round trips |
| `MaskPages` | reserving windows and accounting for them |
| `Imc`, `Counting`, `TesterDecoder`, `ShimDecoder`, `RowEnumeration`, `RowMode`, `RowFilter` | the two address decoders and row mode |
| `LoadOption` | device paths and load options (sections 10.3 and 3.1.3 of the UEFI Specification 2.8) |
| `Nvram`, `Sweep`, `VarNames`, `BootList`, `MaskOps`, `InstallLaws` | firmware variables (section 8.2 of the same), install and uninstall |
| `BootFlow`, `BootLaws`, `MaskMode`, `MaskBoot` | sessions, boots and reverts over whole runs, and what a boot masks by |
| `EndToEnd` | the chain from error report to reserved page |
| `Common`, `Intervals`, `Bytes` | shared vocabulary |

What the environment decides is a parameter: which firmware writes succeed, whether volumes open and files copy, the
register values, the user's answers. Page reservation follows section 7.2 of the UEFI Specification 2.8 with each page
free, faulty or taken.

Where the code does less than its comments or documentation say, the model follows the code and the exact condition is
proved:

- Eight work slots are enough for every table of at most seven skips and for no larger number
  (`Prune.ExactForEveryTableIff`). The store that keeps a remnant as it is has no bounds check, and the model makes
  running past the last slot an outcome of its own: it happens exactly when some skip lies strictly inside one of the
  first seven remnants of a full list (`VmMap.PiecesOverrunIff`), and bursts in eight MiBs bring it about
  (`TesterLimits.EightSkipsOverrun`). Nothing is claimed of memory after that.
- Pruning an ordered map is exact if and only if no list is overrun, the map holds all pieces, and every piece that found
  its work list full is skipped by a later entry (`VmMap.PruneIsExactIff`); for the lists it is enough that the pieces
  fit the slots at each step (`VmMap.PiecesFit`, `VmMap.ListsFitLoseNothing`). Bursts in eight separate MiBs lose good
  memory this way (`TesterLimits.EightSkipsLose`).
- What pruning takes out otherwise shares its MiB with an error, and a page of that MiB is in the page log exactly when
  the log could take one of its errors (`TesterRun.PrunedIsMasked`). A burst after the log filled is skipped without
  (`TesterLimits.FullLogLoses`).
- A MiB whose eighth error falls into a bail-out is not skipped, however many errors follow, until its slot in the
  detector is evicted (`BurstDetector.MissedAtEight`, `BurstDetector.PassedStaysPassed`).
- The input line keeps 511 characters and drops the rest, so the dump of a long log is cut before it is parsed. The
  typed list is the log exactly when its text fits and page zero is not in it (`EndToEnd.LogSurvivesIff`); the pages
  typed whole are kept in any case (`AddressDump.CutKeepsWhole`).
- The address line parser makes no progress on a character it does not know (`AddressLines.StopsIff`).
- The 2048-entry page table of row mode can be too short: a source comment expects two pages a row, but a bank row has
  four in every matching 256 KiB block (`RowEnumeration.PagesOfBankRow`). For all register values the exact condition
  is `RowFilter.TableSufficesIff`, with a machine as an example in `RowFilter.UnequalSlotsOverflow`.
- The backup of the boot order and the slot are written without a check, and an order that is missing or longer than
  512 bytes is not backed up; uninstall undoes install exactly without those cases
  (`InstallLaws.UninstallUndoesInstallIff`).
- A failed install also deletes variables of the names it rolls back that were there before; which prior states are
  safe from that is `InstallLaws.InstallFailureIff`.
- A session leaves the next boot at the confirmation prompt when its second write of the trial state is refused
  (`MaskMode.PromptAfterEntryIff`).
- A chip trial with a validated decoder and no recorded rows consults no record and masks nothing
  (the `Nothing` mode of `MaskMode.ModeOf`).
- The sweep stops at the first name longer than its buffer (`InstallLaws.UninstallLeftovers`).
- The installer spells a boot variable with lower-case digits, the chain-loader with upper-case ones
  (`VarNames.SpellingsAgreeIff`); the load option round trip is therefore about the bytes of the variable.
- The install tool does not ask for an existing install, and a second one is never undone
  (`BootLaws.ReinstallNotUndone`); in the runs of `BootLaws.RunKeeps` it is used only without a backup.

No program of the repository writes the row variable `BrrBadRows`. The chain through row mode (`RowMode.RowLogStored`,
`RowMode.RowModeCoversPage`, `RowFilter.ReservedIffRecorded`) therefore passes through a writer taken from the layout
that the reader documents (efi/badmem_parse.c:210-221).

## Model

| member | source | states |
|---|---|---|
| `EndToEnd.BadMemoryStaysReserved` | efi/mask-shim/main.c:280-353 | For an address that any prune of any run of the tester took out of the test map, other than by a full or overrun work list or a full map: an error was reported in its MiB; after every later sequence of sessions, boots, reverts, tool runs and self-tests that neither saves another list nor uninstalls, on a machine in any state without a chip trial, rows or chips, the next boot that is not declined masks by page and takes exactly the windows of the typed list and of badmem.txt out of the free pages; that list is the page log exactly when the log holds no page zero and its text fits the 511 characters of the input line, and then its windows are those of the errors the log could take; the window of the address is among them when the log could take one error of its MiB, and also whenever a logged page of the MiB was typed whole. |
| `EndToEnd.PrunedIsReserved` | efi/mask-shim/main.c:464-473 | An address that a prune removed at any moment of a run shares its MiB with an error reported by then, and is reserved from the final list exactly when it lies in a window of the ranges there before or of an error the log could take; one error of its MiB is enough. |
| `EndToEnd.LogSurvivesIff` | efi/brr-entry/main.c:106-160 | The page log dumped on screen and typed key by key leaves its first 511 characters in the line, parsing those terminates, and it gives back the log exactly when the log holds no page zero and its text fits the line. |
| `EndToEnd.ParsedIsStored` | efi/brr-entry/main.c:166-189 | Whatever was typed, the parsed list is written as a blob and decoded unchanged. |
| `EndToEnd.WholeTextTyped` | efi/brr-entry/main.c:147-160 | For a dump of any length a logged page whose text ends inside the line is on the typed list. |
| `EndToEnd.ReservedIff` | efi/mask-shim/main.c:328-352 | A range table with room for the list reserves exactly the windows of the ranges it held and of the listed pages. |
| `EndToEnd.BootReserves` | efi/mask-shim/main.c:2130-2160 | A boot that is not declined, any time after the list was saved, leaves a page free exactly when it was free and lies in no window of the typed list or of badmem.txt. |
| `EndToEnd.TypedListIsUsed` | efi/mask-shim/main.c:2063-2178 | From a machine in any state without a chip trial, rows or chips, over every run in which nothing saves another list or uninstalls, installs and refused writes of any kind included, a boot that is not declined masks by page and reads back the list parsed from the typed line. |
| `MaskBoot.ReadSavedPages` | efi/mask-shim/main.c:280-353 | The list is read under its own or its legacy name and merged in place into the range table. |
| `MaskBoot.MaskingBoot` | efi/mask-shim/main.c:2052-2178 | State branch, choice of mode and the reservation it leads to: the variables, the mode and, but for chip mode, the free pages after the boot. |
| `EndToEnd.ListedPageReserved` | efi/mask-shim/main.c:328-352 | Merged into a table with room for the distinct ranges, a listed page brings its whole window, also when it was dropped as a duplicate. |
| `EndToEnd.ReserveSaved` | efi/mask-shim/main.c:444-519 | Reading a blob into the range table and reserving it takes exactly the window pages of the merged table out of the free pool; no gap range is reported exactly when no such page is faulty. |
| `BadmemLog.PageLog.Record` | src/badmem_log.c:103-118 | A page is logged once, page-aligned, while there is room; the log otherwise stays. |
| `BadmemLog.LogComplete` | src/badmem_log.c:103-118 | The log is duplicate-free and bounded, holds only reported pages, and holds every reported one until it is full. |
| `BadmemLog.SkipList.Add` | src/badmem_log.c:135-160 | The add loop: merge into the first touching entry only, else append, else refuse. |
| `BadmemLog.AddCovers` | src/badmem_log.c:135-160 | One add on any table makes the covered set grow by exactly the new range when accepted, and leaves it otherwise. |
| `BadmemLog.AcceptedIffCovered` | src/badmem_log.c:135-160 | A non-empty range is accepted exactly when all of it is covered afterwards; a refused one leaves the table alone and shares no address with it. |
| `BadmemLog.CoverageIsAcceptedUnion` | src/badmem_log.c:135-160 | After any sequence of adds the covered set is exactly the union of the accepted ranges, overlapping entries included. |
| `BadmemLog.HitsCountAccepted` | src/badmem_log.c:135-160 | Below saturation the hit counters add up to the number of accepted adds. |
| `BurstDetector.Burst.Claim` | patches/0013-early-bail-on-many-errors.patch:36-46 | The slot search, eviction and saturating count, as a step on the four slots. |
| `BurstDetector.Burst.Report` | patches/0013-early-bail-on-many-errors.patch:29-58 | One error report: the next detector state, and the MiB added to the skip list exactly on a trigger. |
| `BurstDetector.SlotsDistinct` | patches/0013-early-bail-on-many-errors.patch:36-45 | After any run of errors and bail clears, live slots have distinct bases. |
| `BurstDetector.RunCountsErrors` | patches/0013-early-bail-on-many-errors.patch:38-46 | Each live run count is the number of errors seen in that MiB since its slot was claimed, saturating at 255. |
| `BurstDetector.BurstsEarned` | patches/0013-early-bail-on-many-errors.patch:48-54 | Every MiB sent to the skip list had eight further errors reported in it for each time it was sent. |
| `BurstDetector.TriggersIff` | patches/0013-early-bail-on-many-errors.patch:36-54 | After any run an error triggers a skip exactly when no bail-out is under way and it is the eighth in its MiB since the slot that MiB holds was claimed. |
| `BurstDetector.PassedStaysPassed` | patches/0013-early-bail-on-many-errors.patch:48-54 | A MiB whose eighth error fell into a bail-out is not skipped by any later error, through every continuation of the run, until its slot is evicted. |
| `Prune.PushRange` | src/skip.c:75-85 | The guarded store of a split piece: appended, or dropped when all eight slots are used. |
| `Prune.CutRemnants` | src/skip.c:60-90 | The inner loop computes one bounded cut and reports whether a remnant was hit. |
| `Prune.CutSegment` | src/skip.c:52-91 | The skip loop computes the bounded subtraction of the whole table from one segment. |
| `Prune.SubtractCovers` | src/skip.c:56-91 | Subtraction without slot limits is set difference. |
| `Prune.BoundedCutExact` | src/skip.c:66-85 | One skip is applied without loss exactly when its pieces fit the eight slots. |
| `Prune.LosslessIff` | src/skip.c:52-91 | A whole table is applied without losing a piece at any step exactly when no step leaves more than eight pieces. |
| `Prune.AtMostOneSplit` | src/skip.c:66-85 | Remnants stay ordered and disjoint, and one skip splits at most one of them in two. |
| `Prune.PieceCount` | src/skip.c:56-91 | n skips leave at most n + 1 pieces of a segment, ordered and non-empty. |
| `Prune.KeptIff` | src/skip.c:52-91 | For tables of any size: what is left of a segment is the segment minus the skips minus exactly the pieces that found the work list full. |
| `Prune.CutOverrunsIff` | src/skip.c:66-71 | The store without a bounds check runs past the eighth slot exactly when the list is full and the skip lies strictly inside one of its first seven remnants. |
| `Prune.OverrunsIff` | src/skip.c:52-91 | A skip table overruns the work list of a segment exactly when one of its skips does so at its turn. |
| `Prune.LostWasGood` | src/skip.c:75-85 | Such a lost piece was good memory of the segment that no skip meets. |
| `Prune.FitsLosesNothing` | src/skip.c:52-91 | When at every step the pieces fit the work list, the bounded result is the unbounded one and nothing is lost. |
| `Prune.SevenSuffice` | src/skip.c:52-71 | With at most seven skips no store runs past the eighth slot and the result is exact set difference. |
| `Prune.ExactForEveryTableIff` | src/skip.c:52-85 | Tables of n skips are subtracted exactly from every segment if and only if n is at most seven; for every larger n a table is given that loses memory or overruns. |
| `Prune.BoundedSound` | src/skip.c:52-91 | For tables of any size: no skipped address survives and nothing outside the segment appears. |
| `Prune.ClearSegmentKept` | src/skip.c:66-71 | A segment no skip meets comes out unchanged, for tables of any size. |
| `VmMap.TestMap.PruneMap` | src/skip.c:34-125 | The map after the call is the pieces of every segment, truncated to the map, or the old map when nothing was hit. |
| `VmMap.TestMap.BuildScratch` | src/skip.c:45-100 | The outer loop leaves the pieces of all segments, in order, as many as the scratch map holds. |
| `VmMap.TestMap.Emit` | src/skip.c:94-99 | Surviving remnants are emitted in order with the other fields of their segment, as far as there is room. |
| `VmMap.TestMap.CopyBack` | src/skip.c:106-109 | Copying back keeps the first MAX_MEM_SEGMENTS pieces. |
| `VmMap.PiecesFit` | src/skip.c:45-100 | When the pieces of each segment fit the work list at every step, which at most seven skips guarantee, no list overruns and each segment yields at most 1 + nskip pieces. |
| `VmMap.SevenListsFit` | src/skip.c:45-100 | At most seven skips fit every work list of every map. |
| `VmMap.PiecesCoverIff` | src/skip.c:45-100 | For tables of any size the pieces cover exactly what some segment still holds, and none of it is skipped. |
| `VmMap.PiecesOverrunIff` | src/skip.c:45-100 | A prune runs past a work list exactly when, for some segment, a skip lies strictly inside one of the first seven remnants of a full list. |
| `VmMap.PruneIsExact` | src/skip.c:34-125 | With room in the map and no overrun, the new map covers an address that no full list lost exactly when the old one did and no skip does. |
| `VmMap.PruneIsExactIff` | src/skip.c:34-125 | For every ordered map and every skip table pruning is exact set difference everywhere if and only if no list is overrun, each piece that a full list refused is skipped by later entries, and the map holds all pieces. |
| `VmMap.ListsFitLoseNothing` | src/skip.c:75-85 | When the pieces fit every work list at every step, no list loses any address. |
| `VmMap.PruneOnlyLosesGood` | src/skip.c:94-109 | Whatever is truncated: each remaining piece lies in one old segment, copies its other fields and meets no skip, so only good memory is lost. |
| `VmMap.PruneKeepsOrder` | src/skip.c:34-125 | An ordered map of disjoint, non-empty segments stays one after pruning and truncation, within the same bounds. |
| `VmMap.PruneIdempotent` | src/skip.c:34-125 | A second prune with the same table changes nothing, for every table and capacity. |
| `TesterRun.CommonErr` | patches/0013-early-bail-on-many-errors.patch:29-58 | One error report updates log, skip list and detector together as one step. |
| `TesterRun.SkipsHaveError` | patches/0013-early-bail-on-many-errors.patch:48-54 | Over every run each skipped address shares its MiB with a counted error, merged entries included. |
| `TesterRun.PagesGrow` | src/badmem_log.c:103-118 | A page logged at any moment of a run is still logged at its end. |
| `TesterRun.PageLoggedIff` | src/badmem_log.c:103-118 | After any run a page is logged exactly when some counted error of it found a free entry or the page already logged. |
| `TesterRun.MibLoggedIff` | src/badmem_log.c:103-118 | After any run a page of a MiB is logged exactly when some counted error of the MiB could be taken into the log at its time. |
| `TesterRun.MaskedIff` | efi/mask-shim/main.c:464-473 | After any run an address lies in the window of a logged page exactly when it lies in the window of an error the log could take. |
| `TesterRun.RoomTakesAll` | src/badmem_log.c:103-118 | While the log has a free entry every counted error so far was taken. |
| `TesterRun.SkippedIsMasked` | src/badmem_log.c:103-160 | Over every run each skipped address shares its MiB with a counted error, and a page of its MiB is logged, whose window holds it, exactly when the log could take one of those errors. |
| `TesterRun.LoggedPagesAligned` | src/badmem_log.c:103-118 | Every logged page of every run is page-aligned. |
| `TesterRun.PrunedIsMasked` | src/skip.c:45-100 | For a prune at any moment of any run, with any number of skips: each address it removes, other than by a full or overrun work list or a full map, shares its MiB with an error by then, and a page of its MiB is in the final log exactly when the log could take some error of the MiB; then the address is in that window. |
| `TesterLimits.EightErrors` | patches/0013-early-bail-on-many-errors.patch:36-58 | In a MiB without errors so far eight errors, one a test, log their page and send the MiB to the skip list at the eighth, whatever the error counter shows. |
| `TesterLimits.BurstRunIs` | patches/0013-early-bail-on-many-errors.patch:36-58 | After bursts in separate MiBs the log holds their pages and the skip list their MiBs, in order, for every course of the error counter. |
| `TesterLimits.EightSkipsLose` | src/skip.c:52-85 | A run of bursts in eight separate MiBs, for every course of the error counter, after which pruning one segment loses good memory that no window covers. |
| `TesterLimits.EightSkipsOverrun` | src/skip.c:66-71 | A run of bursts in eight separate MiBs, for every course of the error counter, after which pruning one segment runs past its eighth work slot. |
| `TesterLimits.FullLogLoses` | src/badmem_log.c:103-118 | A run whose log filled up before a burst, for every course of the error counter: the log can take none of its errors, the skipped MiB is pruned and lies in no window. |
| `MaskPages.PageTable.AllocateAddress` | efi/mask-shim/main.c:478-491 | The three ways a page reservation can end, and what is free afterwards. |
| `MaskPages.PageTable.MaskRange` | efi/mask-shim/main.c:465-497 | Over one window: new pages are those that were free, gap pages the faulty ones, and the three counts add up to the window; nothing else changes. |
| `MaskPages.PageTable.MaskAll` | efi/mask-shim/main.c:464-498 | Over any overlapping ranges: new = distinct free pages of all windows, new + pre-reserved + gap = total window pages, nothing outside the windows is touched, and the two range counters partition the ranges. |
| `MaskPages.NoGapsIff` | efi/mask-shim/main.c:496-497 | Zero gap ranges if and only if no page of any window is faulty. |
| `MaskPages.WindowPageIff` | efi/mask-shim/main.c:468-476 | A page is visited exactly when it is a page base inside some window. |
| `MaskPages.WindowExact` | efi/mask-shim/main.c:468-473 | For a page-aligned range the alignment steps change nothing: one MiB either side, clamped at zero. |
| `MaskPages.WindowIff` | efi/mask-shim/main.c:468-473 | An address is in the window exactly when it is within one MiB of the range, and then so is its page base. |
| `MaskPages.WindowMonotone` | efi/mask-shim/main.c:468-473 | The window of a page inside a range is inside the window of the range. |
| `Bytes.LERoundTrip` | efi/brr-entry/main.c:175-181 | A number that fits n bytes is read back from its little-endian bytes. |
| `Bytes.Store` | efi/brr-entry/main.c:175-181 | A little-endian store changes exactly its n bytes. |
| `BadPagesBlob.WriteBadPages` | efi/brr-entry/main.c:166-189 | The blob built in the buffer is header and addresses of the first 4096 pages. |
| `BadPagesBlob.ReadBadPages` | efi/mask-shim/main.c:280-353 | The range table ends up as the in-order merge of the decoded pages into the old table, or unchanged for a malformed blob. |
| `BadPagesBlob.BlobRoundTrip` | efi/brr-entry/main.c:166-189 | Decoding what was encoded gives back the list, up to the 4096 entries of the format. |
| `BadPagesBlob.MergeIsPrefix` | efi/mask-shim/main.c:328-352 | The merged table is the first entries of the table that would result without a limit. |
| `BadPagesBlob.MergeCoversIff` | efi/mask-shim/main.c:328-352 | Every saved page lies in a range of the merged table exactly when the table has room for the ranges that dropping duplicates leaves; the old ranges always stay, and all stay page-aligned. |
| `BadPagesBlob.AbsorbedKeepsWindow` | efi/mask-shim/main.c:328-345 | A page dropped as a duplicate keeps its whole window through the range that absorbed it. |
| `AddressLines.ParseHex` | efi/brr-entry/main.c:86-100 | Reads the token at the cursor: its value in 64-bit arithmetic and where it stops. |
| `AddressLines.ParseAddresses` | efi/brr-entry/main.c:147-160 | On a good line: the table holds the first page addresses that fit, in order, zeros left out. |
| `AddressLines.ValuesCost` | efi/brr-entry/main.c:147-160 | A line yields at most one address for every four of its characters. |
| `AddressLines.StopsIff` | efi/brr-entry/main.c:147-160 | For a table of at least a quarter of the line, so for the 256 entries and 511 characters of the program, the loop terminates if and only if the line has no character it cannot get past; otherwise it stalls there forever. |
| `AddressLines.StopsForEveryTableIff` | efi/brr-entry/main.c:147-160 | For any line: the loop terminates with every table size if and only if the line has no such character. |
| `LineInput.ReadLine` | efi/brr-entry/main.c:106-141 | The key loop is the line editor: what a submitted line leaves in the buffer, with erasures, dropped characters and cancellation. |
| `LineInput.TypedLine` | efi/brr-entry/main.c:106-141 | Printable text typed into an empty line of n places and submitted leaves its first n - 1 characters. |
| `AddressDump.FormatAddress` | src/badmem_log.c:191-225 | The nibble loop prints 0x and the digits without leading zeros. |
| `AddressDump.Dump` | src/badmem_log.c:191-225 | The dump loop shows the wrapped rows, none longer than 60 characters, and stays inside its buffer. |
| `AddressDump.DigitsValueIs` | efi/brr-entry/main.c:86-100 | The printed digits of a 64-bit number have its value. |
| `AddressDump.DumpThenParse` | efi/brr-entry/main.c:147-160 | For any list of words and any indentation, the typed dump is a good line and parses to the non-zero page bases in order. |
| `AddressDump.RoundTripIff` | efi/brr-entry/main.c:147-160 | Dump and parse give back a list of pages exactly when it fits the table and does not hold page zero. |
| `AddressDump.CutRoundTripIff` | efi/brr-entry/main.c:106-160 | Through a line of limited length dump and parse give back the list exactly when the text fits and no page is zero: a cut always changes the last address left. |
| `AddressDump.CutKeepsWhole` | efi/brr-entry/main.c:106-160 | Every non-zero page whose text ends before the cut is parsed. |
| `ChipList.ChipBuffer.RecordChip` | src/badmem_log.c:68-101 | One designator: dropped when empty, too long, already listed or not fitting, else appended behind a comma. |
| `ChipList.ReadChips` | efi/mask-shim/main.c:1833-1848 | The splitter yields the designators of the text, as many as its table holds. |
| `ChipList.BufferIsJoined` | src/badmem_log.c:68-101 | After any run the buffer is the fitting designators joined by commas, in at most 255 characters. |
| `ChipList.ChipRoundTrip` | efi/mask-shim/main.c:1833-1848 | Splitting the buffer gives exactly the distinct designators that fitted, in first-seen order, up to the cap. |
| `ChipList.AllKeptIff` | src/badmem_log.c:68-101 | All distinct designators of a run are kept, in first-seen order, exactly when joined they are shorter than the buffer. |
| `BadmemParse.ParseU64` | efi/badmem_parse.c:31-64 | Reads a decimal or hexadecimal number with 64-bit wrap-around, or does not move. |
| `BadmemParse.ParseDesignator` | efi/badmem_parse.c:94-114 | Reads a name; an empty or overlong one fails. |
| `BadmemParse.ParseLine` | efi/badmem_parse.c:133-195 | One turn of the loop body reads what the line says, as far as its kind of table has room. |
| `BadmemParse.ParseFull` | efi/badmem_parse.c:120-196 | The scan stays in bounds, terminates, and leaves exactly the first ranges and first designators that fit. |
| `BadmemParse.LineLocal` | efi/badmem_parse.c:120-196 | Reading a line in place never looks past its end. |
| `BadmemParse.ScanIsPerLine` | efi/badmem_parse.c:120-196 | The scan of a buffer is the concatenation of its single-line parses. |
| `BadmemParse.AlignedCoversIff` | efi/badmem_parse.c:186-194 | A parsed range covers [addr, addr + len) if and only if rounding does not wrap 64 bits. |
| `BadmemParse.ScannedRangesAligned` | efi/badmem_parse.c:186-194 | Every range any text yields is page-aligned. |
| `Imc.ParityLoop` | src/imc/cfl_skl_kbl.c:184-202 | The bit loop computes the parity of the masked address. |
| `Imc.Log2Loop` | src/imc/cfl_skl_kbl.c:351-355 | The shift loop computes the integer logarithm. |
| `TesterDecoder.ChannelLoop` | src/imc/cfl_skl_kbl.c:184-202 | The hashed channel select loop computes the channel of the model. |
| `TesterDecoder.RowsPerBankClosed` | src/imc/cfl_skl_kbl.c:317-360 | For both chip widths the rows of a bank are size in GiB times 2^(13 - rank code). |
| `TesterDecoder.RowBitsLoop` | src/imc/cfl_skl_kbl.c:317-360 | The loop computes the row width from the first populated slot, zero when there is none. |
| `TesterDecoder.RowBitsClosed` | src/imc/cfl_skl_kbl.c:317-360 | The tester's row width is 13 + log2(size) - rank code for both chip widths, always between 10 and 18. |
| `ShimDecoder.DecodersAgree` | efi/mask-shim/cfl_decode_shim.c:196-340 | For every MAD register, hash value and address the two decoders give the same channel, rank, rank validity, bank group, bank and row; the differing fallback is never reached while there is memory. |
| `ShimDecoder.EnumerateRow` | efi/mask-shim/cfl_decode_shim.c:346-367 | The walk stores the matching pages below the total, as far as the table has room. |
| `ShimDecoder.RowPagesExact` | efi/mask-shim/cfl_decode_shim.c:346-367 | The walk finds exactly the pages that decode to the row. |
| `ShimDecoder.RowPagesIncrease` | efi/mask-shim/cfl_decode_shim.c:346-367 | It finds them in increasing order, each once. |
| `RowEnumeration.PagesOfBankRow` | efi/mask-shim/cfl_decode_shim.c:304-327 | A bank row has exactly four pages in every 256 KiB block whose number leaves the row as its remainder. |
| `RowEnumeration.RowCountBound` | efi/mask-shim/cfl_decode_shim.c:346-367 | At most 4 * ceil(total / 2^(18 + row bits)) pages share a bank group, bank and row. |
| `RowEnumeration.EqualSlotsNeverTruncate` | efi/mask-shim/main.c:765-797 | With equally sized and ranked slots at most 128 pages share a row, so the 2048-entry table never cuts the walk short. |
| `RowEnumeration.WideRowsFit` | efi/mask-shim/cfl_decode_shim.c:346-367 | For every register value with rows of at least 11 bits or at most 128 GiB in total no row has more pages than the table. |
| `RowEnumeration.NarrowRowsIff` | efi/mask-shim/cfl_decode_shim.c:264-300 | Rows have 10 bits exactly when the first populated slot has 1 GiB in eight ranks. |
| `RowFilter.HashParityIs` | efi/mask-shim/cfl_decode_shim.c:196-210 | The hashed channel is the parity of the address bits the mask selects. |
| `RowFilter.FlippedHash` | efi/mask-shim/cfl_decode_shim.c:196-210 | Flipping one page number bit flips the hashed channel exactly when the mask selects it. |
| `RowFilter.SameRowSameChannel` | efi/mask-shim/cfl_decode_shim.c:196-210 | Unless the hash takes in exactly one of the two lowest page bits or the sixth, all pages of a bank row share their channel. |
| `RowFilter.SameRowSameRank` | efi/mask-shim/cfl_decode_shim.c:212-251 | Unless the rank bit is one that bank and row leave free, all pages of a bank row share their rank. |
| `RowFilter.CapSufficesIff` | efi/mask-shim/cfl_decode_shim.c:346-367 | On a reachable channel that neither divides, a table of any size holds every row exactly when it is as long as the bound. |
| `RowFilter.DividedRowsFit` | efi/mask-shim/cfl_decode_shim.c:346-367 | On every machine whose channel hash or rank bit divides bank rows no row of that channel has more than 2016 pages. |
| `RowFilter.TableSufficesIff` | efi/mask-shim/main.c:760-797 | For every register value: all rows fit the 2048-entry table unless there are more than 128 GiB, the first slot has 1 GiB in eight ranks, and on a channel with pages neither channel hash nor rank bit divides bank rows; then some row does not. |
| `RowFilter.ReservedIffRecorded` | efi/mask-shim/main.c:765-817 | On every other machine row mode is exact: a page is reserved for the stored rows of a run exactly when it lies below the total and decodes to a recorded row. |
| `RowFilter.UnequalSlotsOverflow` | efi/mask-shim/main.c:765-797 | A configuration with unequal slots that puts 3040 pages on one row, more than the 2048 of the table. |
| `RowMode.RowLog.Record` | src/badmem_log.c:251-269 | A tuple is logged once while there is room. |
| `RowMode.DecodePass` | src/error_hook.c:161-176 | The pass-end walk records the tuple of every logged page. |
| `RowMode.ParseRowsBlob` | efi/badmem_parse.c:236-265 | The reader yields the tuples of a well-formed blob, none otherwise, at most 256. |
| `RowMode.MaskRows` | efi/mask-shim/main.c:765-817 | The row loop reserves every page the walk finds for every tuple. |
| `RowMode.RowLoggedIff` | src/badmem_log.c:251-269 | The row log holds exactly the rows of the logged pages that found a free entry or their row already there. |
| `RowMode.EveryPageHasItsRow` | src/error_hook.c:82-91 | Until the row log is full it holds the tuple of every logged page. |
| `RowMode.RowBlobRoundTrip` | efi/badmem_parse.c:236-265 | A stored row table is read back as it was. |
| `RowMode.PageFindsItself` | efi/mask-shim/cfl_decode_shim.c:346-367 | A page below the total matches the tuple that was recorded for it, an unknown rank included. |
| `RowMode.RowLogStored` | efi/badmem_parse.c:236-265 | The rows of any run survive the documented layout of their variable. |
| `RowMode.RowModeCoversPage` | efi/mask-shim/main.c:765-817 | Through tester, blob and shim: a page below the total whose row was recorded is among those reserved, unless the walk for that row filled the table. |
| `LoadOption.DpTotalLen` | efi/mask-common/mask_ops.c:131-142 | The length walk gives the byte length of a terminated path. |
| `LoadOption.BuildFullPath` | efi/mask-common/mask_ops.c:144-186 | The built path is the device's nodes, a file node and the end node, and has the allocated length. |
| `LoadOption.BuiltPathTerminated` | efi/mask-shim/main.c:182-252 | A built path is itself a well-formed terminated path, so the length walk over it gives its allocated length. |
| `LoadOption.BuildOption` | efi/mask-common/mask_ops.c:532-542 | Attributes, path length, description and path, or a failure when they exceed 4096 bytes. |
| `LoadOption.FindDescEnd` | efi/mask-shim/main.c:1603-1607 | The description walk stops at the NUL or at the end of the variable. |
| `LoadOption.U16Contains` | efi/mask-shim/main.c:1551-1560 | The nested loops decide whether the needle occurs in the text. |
| `LoadOption.ReadFilePath` | efi/mask-shim/main.c:1640-1661 | The node walk collects the text of all file nodes, at most 255 characters. |
| `LoadOption.JudgeOption` | efi/mask-shim/main.c:1599-1666 | What the chain-loader decides about an option: malformed, USB, own, without a file, or the file to load. |
| `LoadOption.PathWalkedBack` | efi/mask-shim/main.c:1640-1661 | Walking a built path reads the prefix's file text followed by the path, for every well-formed prefix and NUL-free path. |
| `LoadOption.OptionRoundTrip` | efi/mask-common/mask_ops.c:532-542 | What the builder writes the walker reads: description, file text, and a path length that ends exactly at the end of the variable. |
| `LoadOption.BuiltOptionJudged` | efi/mask-shim/main.c:1599-1666 | A built option is judged by its own description and path, whatever device stands in front. |
| `LoadOption.OwnOptionSkipped` | efi/mask-shim/main.c:1620-1625 | The option the installer writes is always skipped as the mask's own. |
| `Nvram.Nvram.SetVariable` | efi/mask-common/mask_ops.c:98-126 | A write creates, replaces or (when empty) deletes one variable and touches no other; a refused write changes nothing. |
| `Nvram.Nvram.GetVariable` | efi/mask-common/mask_ops.c:109-115 | A read finds the value, reports a small buffer, or finds nothing. |
| `Nvram.Nvram.GetNextVariableName` | efi/mask-common/mask_ops.c:944-949 | The enumeration step: the next name, the end, or a name that does not fit. |
| `Nvram.PutSound` | efi/mask-common/mask_ops.c:98-126 | Writes and deletes keep enumeration and variables in step. |
| `Sweep.SweepAll` | efi/mask-common/mask_ops.c:932-981 | The restart-on-delete loop terminates on (variables left, position) and leaves exactly the swept store. |
| `Sweep.SweepExact` | efi/mask-common/mask_ops.c:944-981 | The sweep changes no other namespace and deletes exactly the namespace's variables enumerated before the first overlong name. |
| `Sweep.SweepCompleteIff` | efi/mask-common/mask_ops.c:944-949 | No variable of the namespace survives exactly when none is enumerated at or after an overlong name. |
| `Sweep.SweepTwice` | efi/mask-common/mask_ops.c:932-981 | A second sweep changes nothing. |
| `BootList.ListBootEntries` | efi/mask-common/mask_ops.c:268-338 | The enumeration loop builds the list of boot entries inside its 512-byte buffer. |
| `BootList.ListsFirst` | efi/mask-common/mask_ops.c:327-337 | The list is exactly the first 102 entries in order, four digits each, comma-separated. |
| `VarNames.BootKeysDiffer` | efi/mask-common/mask_ops.c:546-552 | Different slots are different variables. |
| `VarNames.SpellingsAgreeIff` | efi/mask-shim/main.c:1583-1591 | Installer and chain-loader spell a slot's variable alike exactly when it has no letter digit. |
| `MaskOps.FindFreeSlot` | efi/mask-common/mask_ops.c:544-557 | The search returns the first slot without a variable, or the limit. |
| `MaskOps.InstallBootEntry` | efi/mask-common/mask_ops.c:504-569 | Builds the option and writes it under the first free slot, or changes nothing. |
| `MaskOps.PrependBootOrder` | efi/mask-common/mask_ops.c:571-588 | Puts the slot in front of the whole entries of the readable order. |
| `MaskOps.InstallMaskFull` | efi/mask-common/mask_ops.c:594-732 | The method is the install step function: every branch, write and rollback in the source's order. |
| `MaskOps.RestoreBootOrder` | efi/mask-common/mask_ops.c:770-795 | The order is restored from the backup or, failing that, from its legacy name. |
| `MaskOps.DeleteBootEntry` | efi/mask-common/mask_ops.c:800-826 | The entry of the recorded slot is deleted, if one is recorded. |
| `MaskOps.UninstallMaskFull` | efi/mask-common/mask_ops.c:754-981 | The method is the uninstall step function: restore, delete the entry, delete the known names, sweep. |
| `InstallLaws.InstallFailureExact` | efi/mask-common/mask_ops.c:594-723 | A failure at any checked step leaves the variables exactly as before minus the names that step rolls back. |
| `InstallLaws.InstallFailureIff` | efi/mask-common/mask_ops.c:594-723 | Every failing install leaves the variables as they were if and only if neither backup name exists and either the slot name does not or no boot slot is free. |
| `InstallLaws.InstallSuccess` | efi/mask-common/mask_ops.c:544-588 | A successful install takes the first free slot, never overwrites a variable, prepends that slot, and changes nothing else outside its namespace. |
| `InstallLaws.InstallSaves` | efi/mask-common/mask_ops.c:643-700 | It leaves the original order and its slot for uninstall exactly when those unchecked writes took. |
| `InstallLaws.UninstallOutside` | efi/mask-common/mask_ops.c:770-981 | Uninstall changes nothing outside the namespace but the order and the entry. |
| `InstallLaws.UninstallUndoesInstallIff` | efi/mask-common/mask_ops.c:643-826 | Uninstall after install restores the whole rest of the variables, boot namespace included, if and only if the order could be read and both unchecked writes took. |
| `InstallLaws.InstalledEntrySkipped` | efi/mask-shim/main.c:1583-1625 | The installed entry exists and is skipped by the chain-loader; it is found under its own spelling exactly for slots with decimal last digits. |
| `InstallLaws.UninstallLeftovers` | efi/mask-common/mask_ops.c:899-981 | What survives uninstall in the namespace is exactly the unnamed variables behind an overlong name; with no overlong name, nothing. |
| `InstallLaws.UninstallTwice` | efi/mask-common/mask_ops.c:754-981 | Uninstalling twice equals uninstalling once. |
| `BootFlow.CheckSavedMask` | efi/brr-entry/main.c:358-368 | The quick retry is offered exactly for a complete, non-empty saved list. |
| `BootFlow.GuardedInstall` | efi/brr-entry/main.c:407-428 | Install runs exactly when no backup exists; only a success re-asserts the state. |
| `BootFlow.RunBrrEntry` | efi/brr-entry/main.c:363-596 | A session is the session step function: quick retry, confirmation, page list, state, guarded install. |
| `BootFlow.CStringEquals` | efi/mask-shim/main.c:172-176 | The loop decides equality of the text up to its first NUL. |
| `BootFlow.HandleNvramState` | efi/mask-shim/main.c:1860-1955 | The state branch: confirm, uninstall or leave while confirmation is awaited, and whether masking is skipped or a chip trial is pending. |
| `MaskMode.ReadDecoderStatus` | efi/mask-shim/main.c:867-884 | Whether the decoder verdict reads as the given text; an absent or overlong one does not. |
| `MaskMode.ReadBadRows` | efi/mask-shim/main.c:823-861 | The rows of the first of the three row variables that can be read. |
| `MaskMode.ReadBadChips` | efi/mask-shim/main.c:1820-1849 | The designators of the first of the two chip variables that can be read, at most 32. |
| `MaskMode.ChooseMode` | efi/mask-shim/main.c:2052-2178 | State branch and decision tree give the mode of the model and the variables of the boot step. |
| `MaskMode.RecordsUntouched` | efi/mask-shim/main.c:1925-1926 | Confirming the installation changes neither rows, chips nor verdict, so reading them after it decides the same mode. |
| `MaskMode.PromptAfterEntryIff` | efi/brr-entry/main.c:548-593 | After a session that saves its list the next boot asks for confirmation exactly when the state write was refused and it asked before, or the session installed with its state written and only the second write of the trial state was refused. |
| `BootFlow.RecordVerdict` | src/decoder_selftest.c:465-498 | The self-test records its verdict as the self-test step, changing that one variable or none. |
| `MaskMode.StepKeepsReady` | efi/brr-entry/main.c:400-402 | No session, boot, revert, tool run or self-test starts a chip trial or records rows or chips. |
| `MaskMode.RunKeepsReady` | efi/mask-shim/main.c:1860-1955 | From a machine without chip trial, rows and chips this stays so over every run, installs over installs, refused writes and self-tests with any verdict included. |
| `EndToEnd.SavedListFound` | efi/mask-shim/main.c:289-326 | A saved list is found under its own name and decoded whole, before any legacy name is tried. |
| `BootFlow.RunRevert` | efi/revert/main.c:56-83 | Revert uninstalls exactly on a yes. |
| `BootLaws.StepKeeps` | efi/brr-entry/main.c:535-596 | Every session, boot, revert and allowed tool run keeps the invariant. |
| `BootLaws.RunKeeps` | efi/mask-shim/main.c:1860-1955 | Over every run: either no backup exists and everything outside the namespace is original, or the backup is the original order, the boot order is our slot followed by it, and our entry exists under a name that was free. |
| `BootLaws.RevertRestores` | efi/revert/main.c:56-83 | After any run one revert restores the original variables outside the namespace, and a second changes nothing. |
| `BootLaws.UninstallRestores` | efi/mask-common/mask_ops.c:754-981 | From every state of a run uninstall leaves a clean machine without any named variable. |
| `BootLaws.InstallKeeps` | efi/mask-common/mask_ops.c:594-732 | Install leaves every variable of the namespace it does not name alone, whatever its outcome. |
| `BootLaws.ReinstallNotUndone` | efi/mask-common/mask_ops.c:643-653 | Without the guard: after a second install over a first, uninstall never restores the original variables. |
| `BootLaws.PagesAfterStep` | efi/brr-entry/main.c:535-548 | The saved list after a step is the confirmed list, nothing after an uninstall, and otherwise what it was. |
| `BootLaws.StepSound` | efi/mask-common/mask_ops.c:98-126 | Every event keeps enumeration and variables in step, whatever is installed and whichever writes are refused. |
| `BootLaws.PagesAfterRun` | efi/brr-entry/main.c:535-548 | After any run on any machine the saved list is that of the last confirmed entry no uninstall followed. |

## Left out

- Console output, prompts, key reading, timeouts, stalls and resets: a user's answer is an input of the step it decides.
- Volume scanning, the search for boot.efi, image loading and starting, and the volume search behind a chosen file path.
- Port and memory-mapped I/O, CPU identification and caching of the memory controller configuration: register values are arbitrary inputs.
- The timing measurements of the decoder self-test: its verdict is an input of the step that records it.
- File copies on the system partition beyond succeeding or failing, and the files and directories uninstall deletes there.
- MaskOps.UninstallMaskFull: does not model a firmware that refuses one of uninstall's own writes or deletions.
- MaskOps.InstallMaskFull: does not model a firmware that refuses a rollback deletion.
- Sweep.SweepAll: does not model a firmware that refuses a deletion, after which the source walks on.
- Nvram.Nvram.GetNextVariableName: does not model a firmware that reorders its enumeration on a write; a new variable is enumerated last. The laws on variables do not depend on the order.
- LoadOption.JudgeOption: does not model reads past the end of a variable into what an earlier one left in the static buffer; an unterminated description or a cut-off node ends there.
- VmMap.TestMap: does not fix MAX_MEM_SEGMENTS, whose header is not part of this model; the capacity is a parameter.
- `verify_mask_in_memmap`, which only classifies and prints the memory map after reservation.
- `mask_chips` and `resolve_chip_entries`: chip mode reserves page bases found by chip, an over-approximation without a promise about whole pages.
- MaskBoot.MaskingBoot: does not model chip mode, nor the chip directives of badmem.txt that page mode reserves in addition to the page list.
- `shim_is_installed`, the read-only check whether the running image came from the internal partition.
- Which chips the tester names for a bad page (board tables and lane maps), column decoding, and the fields that mark a decode as speculative.
- The tester's own row walk, which no program calls on recorded rows; it enumerates with the decoder proved to agree with the shim's.
- The prompts of the install tool; its two effects appear as events of a run.
- Saturation and printing of summary counters, and the once-only announcement of a prune.
- Addresses near 2^64: ranges and windows are taken over unbounded numbers, except in the text parsers, where wrap-around is modelled.
