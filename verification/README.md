# uCache: a verified model of the cache's protocols

uCache keeps, for each remote file, a sparse `.data` file, a `.meta` sidecar (presence
bitmap and one CRC per page), and optionally a replica (`.tdata` overlay with a `.tmeta`
sidecar) or a slot store (`.slots`). Several processes share these files. This project
models the parts whose correctness is a matter of protocol and state, and states what they
keep as theorems about every input, every reachable state, or every run.

How the model is laid out:

- **Cached objects.** `Pages` (page geometry, the origin),
  `Stages` and `PoolRuns` (fill buffer, speculation, byte pools), `Deltas`, `CommitOps` and
  `CommitRuns` (the sidecar and its commits), `Truncations` (openers that find no sidecar),
  `Sidecar` and `Generations` (who may use a sidecar, and runs across versions of the file),
  `Reads`, `ReadOps`, `RunReads` (cached reads, page at a time and coalesced), `StageOps`,
  `RunWrites` (staging and draining), `EntryRuns` (handles of many processes interleaved),
  `Ranges`, `Flights` (what is missing, and waiting for what is on the wire), `FileEntry` (the
  entry as an object that changes in place), `Releases` (giving pages back), `CacheSource`
  (the builder's verified reads).
- **Slot stores.** `SlotFormat` (bytes), `SlotLog` (what a scan of the shared file finds),
  `SlotRuns`, `SlotClaims` and `SlotOverlaps` (runs of many handles with torn commits),
  `SlotStore` (the scanning and committing object), `SlotHeader` (the header page).
- **Sidecars.** `PageBitmap`, `Tables`, `MetaFile`, `ReplicaFile`.
- **Replicas.** `ReplicaView` (the stitched file), `OverlayReads` (verified overlay reads).
- **Eviction.** `Eviction`.
- **Text.** `JsonText`, `JsonNumbers`, `JsonValues` (the parser and the printer), `JsonGrammar` and
  `JsonTrees` (the grammar they are held against), `JsonRoundTrip`, `JsonParser`, `NormPath`.

Code that works by changing things in place is a class or a method with loops, proved equal
to a function on values (or against a property stated outright); the theorems over runs are
about the same functions. A run is a sequence of states that follow one another by enabled
steps; steps of different handles interleave freely, and a commit of a sidecar or of a slot
block is one step, as the file locks make it.

Hypotheses, each an explicit `requires` or a step's guard, never an axiom:

- crc32c is an arbitrary function, and a hypothesis on it speaks only of bytes that were
  there: `SeenTells` of the pages a read was shown (those of a page's length and CRC are that
  page), `ChecksumTells` of what is left of one slot record, `TablesTell` of the entry tables
  the slot file shows when a commit lands.
- `Clean` (slot stores), of a block as it landed: no later boundary inside it shows a header of
  this store, and if its header was cut and the rest still passes for a header, the rest is
  the header meant. A commit that lands whole meets the second part whatever its header is.
- Bytes handed to a demand fill or to read-ahead are the origin's; one version of the remote
  file (except in `Generations`) and one incarnation of the slot store.
- A slot block is shorter than 2^40 bytes and ends below 2^64 (`Committable`): a longer one
  would not be believed when it claims its extent.

Findings, where the code does less than a plain reading promises; each has its exact condition:

- The process-wide pool counters can be below zero for a moment (an unsigned counter wraps):
  staging is credited after the lock is released, so a flush by another thread can be debited
  first (`PoolRuns.TotalCanDip`). It needs a credit outstanding (`DipNeedsUncredited`), and with
  nothing outstanding the totals are exact (`PoolsConserved`).
- "A bit never covers a hole" fails even without punching: if the sidecar store of a fresh open
  fails, the next opener truncates `.data` under pages the first has written, and the first then
  commits their bits (`CommitRuns.BitOverHole`). If every open that finds no sidecar stores one,
  every bit is covered (`Truncations.StoredOpensCover`). Otherwise a truncating open, whatever
  becomes of its own store, makes a bit over a hole reachable exactly when some handle holds a
  page that is not zeros (`TruncationExposesExactly`). Reads stay right regardless, by their CRCs
  (`EntryRuns.ReadsAreTheOrigins`).
- A handle of an old version of the file that still has something to commit stores its own sidecar
  over that of the new version, which it cannot merge into; the next opener of the new version
  then truncates `.data` under the handles of its own version
  (`Generations.StaleCommitTruncates`). A commit leaves the sidecar usable exactly if it merged
  or its own version will do (`CommitUsableExactly`), and among handles and openers that agree
  on the version nothing is truncated again (`NoLaterTruncation`).
- `waitForInFlight` lacks the test for a wrapping end that its siblings have: a range that ends at
  exactly 2^64 walks past the presence table (`Flights.TopOfRange`), and one that wraps further
  is let through unwalked, so that its reader can park. `ParkingRuleExactly` states for which
  requests the parking rule holds.
- `ReplicaView::map` returns nothing for a request whose end wraps past 2^64, instead of the
  part inside the file; `ReplicaViews.Map` states the exact condition.
- A slot commit cut before its 64th byte claims nothing, so a later block can be written over
  the rest of its extent (`SlotOverlaps.ExtentWrittenOver`); `SlotClaims.TornExtentSafeExactly`
  states exactly when the whole extent of a torn block is safe. The bytes that landed are never
  written over (`ExtentsDisjoint`).
- Handles of one slot store need not agree on where the next block goes: if only zeros of a header
  were left to land, the file shows it once it has grown, but a handle that has committed past
  it never looks there again (`SlotOverlaps.HandlesDisagree`). `SlotClaims.SameBase` states
  exactly when they agree.
- The JSON parser takes any byte but the quote and the backslash in a string as it is, control
  bytes and bytes that are not UTF-8 included, where section 7 of RFC 8259 wants them escaped; the
  grammar in `JsonGrammar` has that one rule wider, and the parser reads exactly that grammar
  (`JsonTrees.ParsesExactly`).
- `releaseRanges` never counts a short tail page as inside the range, while `dropSpeculative`
  and `consumeSpeculative` do; the model follows the code in both. It punches the pages of its
  ranges whatever became of the commit, and also pages that only a sibling's bit vouches for
  (`Releases.ReleaseRanges` promises cleared bits for the pages this handle had).

## Model

| member | source | states |
|---|---|---|
| EntryRuns.ReadsAreTheOrigins | src/core/FileEntry.cc:306-495 | over every run of any number of handles that fill, serve, drop, flush, commit, adopt, demote, die, with `.data` damaged at will: a cached read that succeeds has returned exactly the origin's bytes of the request, if of the bytes it was shown those that carry a page's CRC are that page |
| EntryRuns.RunTrue | src/core/FileEntry.cc:497-899 | in every state of every run, all CRCs in memory, in snapshots and on disk, and all staged bytes, are the origin's |
| EntryRuns.StepTrue | src/core/FileEntry.cc:784-1188 | each step of each handle keeps that |
| Reads.ReadIsOrigin | src/core/FileEntry.cc:326-495 | the page-at-a-time read, if it succeeds, is the origin's bytes of the request, under the same hypothesis on the bytes it was shown |
| Reads.ReadFailsExactly | src/core/FileEntry.cc:326-432 | it fails exactly when some page of the request is neither staged nor present with bytes that carry its CRC |
| ReadOps.Plan | src/core/FileEntry.cc:381-432 | the plan covers the request exactly by staged copies and runs of at most 1 MiB of present, unstaged pages, no two of which could have been one; it stops at the first absent page; only accounting confirms predictions |
| ReadOps.PlannedKeeps | src/core/FileEntry.cc:425-431 | adding a page to the last run, or as a new one, keeps runs disjoint, in order, within the limit and complete |
| ReadOps.PlannedCoalesces | src/core/FileEntry.cc:425-431 | adding a page keeps the runs as long as they may be: two that touch would together exceed 1 MiB |
| ReadOps.ServedKeeps | src/core/FileEntry.cc:397-412 | serving pages of the stage confirms exactly the marked ones of them and conserves the pools |
| RunReads.RunShowsPage | src/core/FileEntry.cc:306-324 | a coalesced read shows each page exactly as a read of that page alone would, short reads included |
| RunReads.VerifyRun | src/core/FileEntry.cc:306-324 | finds the first bad page of a run, and whether it is bad by being short |
| RunReads.ReadRuns | src/core/FileEntry.cc:434-472 | reading run by run, with the file changing between runs, succeeds exactly if every page of every run carried its CRC when that run was read, with the buffer of the page-at-a-time read of what was there then; otherwise the first run with a bad page is reported |
| RunReads.StillDisk | src/core/FileEntry.cc:326-472 | of a file that holds still, the coalesced read returns what reading it one page at a time does |
| RunReads.IntactReads | src/core/FileEntry.cc:326-495 | whatever the checksum, if every page of a request is staged, or recorded and on disk as the origin has it, the read succeeds with the origin's bytes |
| RunReads.DirectIsCopy | src/core/FileEntry.cc:448-456 | a run read straight into the caller's buffer stays inside it, and leaves it as a read into the scratch buffer and a copy would |
| RunReads.SeenAt | src/core/FileEntry.cc:434-446 | what a read is shown of a page is what reading that page alone from the file, at the moment of its run, returns |
| RunReads.GotIsRead | src/core/FileEntry.cc:402-416 | when every page's piece is in place, the buffer is the page-at-a-time read |
| RunReads.BadPageFails | src/core/FileEntry.cc:316-321 | a page bad at the moment of its run makes the page-at-a-time read fail too |
| FileEntries.FileEntry.ReadCached | src/core/FileEntry.cc:326-495 | outcome and buffer, for every 64-bit request, wraps included, are those of the page-at-a-time read of what `.data` held when each run was read; only accounted reads promote predictions or count as accesses; the process pools move with the entry's on every exit; a read that cannot be planned retracts nothing, and one that fails retracts exactly its first bad page, or after a short read exactly the pages from there to the end of the run that are still bad when read alone; the complete flag stays honest |
| FileEntries.FileEntry.DemoteFor | src/core/FileEntry.cc:306-324 | that choice, for one failed run |
| FileEntries.FileEntry.DemoteRun | src/core/FileEntry.cc:270-284 | exactly the given pages become absent |
| FileEntries.FileEntry.DemoteBad | src/core/FileEntry.cc:292-304 | after a short read, exactly the pages that fail when read alone become absent |
| FileEntries.Open | src/core/FileEntry.cc:61-145 | a sidecar whose size and validators match (as the validation mode asks) is adopted with its image, page size and flags, and `.data` is untouched; otherwise `.data` is truncated and grown back and an empty sidecar stored, or the entry stays dirty, exactly if that fails; there is no entry, and the sidecar is left alone, exactly when that truncation is needed and fails; after a store that succeeded whoever asks the same truncates nothing |
| Sidecars.TruncatesExactly | src/core/FileEntry.cc:135-145 | an opener starts afresh exactly when there is no sidecar, or its key, size, page size or table does not fit, or a validator the mode asks for differs |
| FileEntries.FileEntry.Publish | src/core/FileEntry.cc:147-152 | bit, CRC and delta move together, the per-handle invariant holds after, and an entry with pending deltas is dirty |
| FileEntries.FileEntry.Retract | src/core/FileEntry.cc:154-159 | the same for a page that becomes absent |
| FileEntries.FileEntry.WritePages | src/core/FileEntry.cc:497-551 | every whole page of the span that is staged already becomes real, as it is; every one that is neither staged, present nor being written is staged real with the input's bytes and their CRC; nothing else in the stage changes, pools conserved; staging anything counts as an access, kept to the minute |
| FileEntries.FileEntry.StageSpeculative | src/core/FileEntry.cc:559-590 | every whole page of the span neither present nor staged is staged marked, with the input's bytes and their CRC, and nothing else changes; the result is the growth of the speculative pool |
| FileEntries.FileEntry.DropSpeculative | src/core/FileEntry.cc:592-629 | the marked whole pages of the span leave the stage, real ones stay, the result is the bytes dropped |
| FileEntries.FileEntry.FlushBuffer | src/core/FileEntry.cc:784-896 | drains exactly when something real is staged and it is forced, due, or at a cap; real pages leave the stage, marked ones stay; the writes made, what they left in `.data` and the pages written whole are those of the drain; exactly those are published if the sync succeeded; then the sidecar is committed if forced or due, and once stored every page published is in it with the CRC of its bytes; pools conserved on every path |
| FileEntries.FileEntry.FlushAll | src/core/FileEntry.cc:1047-1050 | nothing real is left staged; if the store succeeds nothing is pending; if no write or sync failed either, every page that was staged for real is on disk with its bytes and in the sidecar with their CRC |
| FileEntries.FileEntry.Drain | src/core/FileEntry.cc:820-885 | the same of the drain alone: it fails exactly when a write came up short, and publishes exactly the pages written whole, none if the sync failed |
| FileEntries.FileEntry.FlushMeta | src/core/FileEntry.cc:1074-1188 | stores the merge of this handle's deltas into the sidecar on disk (only one of this version and page size) and adopts it, or stores nothing and re-arms; the pin on disk changes only if this handle touched it, the access time only grows, the complete flag is recomputed; a clean entry does nothing and an unlinked one is never stored again; a sidecar usable to this version stays so |
| Sidecars.CommitLands | src/core/FileEntry.cc:1114-1143 | once stored, the sidecar has the handle's state of every page the handle changed, and of every page if there was none to merge into |
| Sidecars.CommitAdopts | src/core/FileEntry.cc:1164-1188 | after a store the handle has exactly what is on disk, and nothing pending |
| Sidecars.CommitHonest | src/core/FileEntry.cc:1133-1187 | after a store the complete flag, in memory and on disk, says whether every page is present, always if it merged, else if it did before |
| Sidecars.CommittedKeeps | src/core/FileEntry.cc:1074-1188 | a whole commit, stored or failed, keeps the per-handle invariant |
| FileEntries.FileEntry.SetPinned | src/core/FileEntry.cc:1196-1207 | the pin chosen is on disk once the store succeeds, whatever a sibling had there; if it fails the choice stays pending |
| FileEntries.FileEntry.ReleaseRange | src/core/FileEntry.cc:1225-1254 | one range: exactly the pages wholly inside leave the stage and become absent, those that were present enter the delta; the bytes reported are theirs; pools conserved, complete flag honest |
| Releases.ReleaseAll | src/core/FileEntry.cc:1214-1257 | the same of all ranges together: the spans to punch are exactly the pages wholly inside some range, and each counts the bytes of the pages that were cached in it and in no span before it |
| Releases.Punch | src/core/FileEntry.cc:1269-1281 | exactly the bytes of the spans whose punch worked read as zeros, the rest of `.data` is untouched, and the counts of these spans are added up |
| Releases.ReleaseRanges | src/core/FileEntry.cc:1214-1282 | the whole call: the sidecar is committed before anything is punched; if it was stored, no page this handle had is still marked on disk when its bytes go; with nothing wholly inside, nothing is stored; the bytes reported are those of the pages this handle had cached whose first span was punched, each counted once |
| Releases.GivenIsSum | src/core/FileEntry.cc:1247-1275 | adding up the counts of the spans punched is summing over the pages that went, though ranges may overlap |
| StageOps.StageSpan | src/core/FileEntry.cc:513-537 | the staging loop does exactly that to each whole page of the span, and to no other page |
| StageOps.WholeRange | src/core/FileEntry.cc:602-605 | the rounded page range is exactly the whole pages of the span, the short tail page counted as whole |
| StageOps.DropSpan | src/core/FileEntry.cc:592-629 | exactly the marked whole pages of the span are dropped, and their bytes counted |
| RunWrites.WriteRuns | src/core/FileEntry.cc:829-860 | the writes made are the maximal runs of the snapshot of at most 8 MiB, in order, up to the first that came up short; the drain fails exactly then; byte for byte `.data` is the staged bytes up to where the writing ended and what it was elsewhere; exactly the pages of the writes that landed whole are listed, in order |
| RunWrites.RunLands | src/core/FileEntry.cc:842-849 | one merged write, of which any prefix lands, extends the file as writing page by page to that byte would |
| RunWrites.DrainMeans | src/core/FileEntry.cc:829-885 | page by page: a listed page holds its staged bytes, a page not in the snapshot or past the write that failed is untouched, and without failure every page is listed |
| RunWrites.CollectRun | src/core/FileEntry.cc:829-840 | a run is consecutive snapshot pages back to back, at most 8 MiB, and stops short only at a gap or at the limit |
| PoolRuns.PoolsConserved | src/core/FileEntry.cc:340-379 | in every state of every run the per-entry counters are the byte sums of the staged pages and each process total is the sum over entries, bytes mid-flush included, less what threads have yet to add to it (the two totals are adjusted separately); with nothing outstanding both are exact |
| PoolRuns.DipNeedsUncredited | src/core/FileEntry.cc:539-547 | a total is below zero only while some thread has staged pages it has not yet credited |
| PoolRuns.TotalCanDip | src/core/FileEntry.cc:539-547 | a run in which the total is below zero: a flush debited before the fill's credit |
| PoolRuns.SpeculationStaysUnwritten | src/core/FileEntry.cc:803-815 | over whole runs, a page staged speculatively is written and published only if since then an accounted read served it or a demand fill covered it, however often it was asked for before; the flush snapshot never holds a marked page |
| Stages.FillKeeps | src/core/FileEntry.cc:513-537 | a demand fill of a page makes it real, or takes it where nothing is, and keeps counters equal to their sums and what is owed to the totals |
| Stages.SpeculateKeeps | src/core/FileEntry.cc:559-590 | a prefetched page is taken marked only where nothing is; the sums hold and no real page appears |
| Stages.ServeKeeps | src/core/FileEntry.cc:404-412 | serving a page makes it real: bytes change pools, none are lost |
| Stages.DropKeeps | src/core/FileEntry.cc:608-622 | dropping takes a marked page out and debits its pool; real pages stay |
| Stages.TouchKeeps | src/core/FileEntry.cc:657-665 | marking an edge page used changes that mark of a marked page and no counter |
| Stages.ReleaseKeeps | src/core/FileEntry.cc:1233-1248 | releasing takes the page out and debits the pool it is in |
| Stages.BeginFlushKeeps | src/core/FileEntry.cc:803-815 | the snapshot is exactly the real pages as they were, the marked ones stay, the bytes move with them |
| Stages.EndFlushKeeps | src/core/FileEntry.cc:872-887 | ending a flush, successful or failed, empties the snapshot and settles its bytes |
| Deltas.MemoryIsOverlay | src/core/FileEntry.cc:147-159 | memory is the image last adopted with exactly this handle's own transitions replayed on it, also between snapshot and completion |
| Deltas.MergeIsReplay | src/core/FileEntry.cc:1114-1136 | committing deltas onto an image is replaying the transitions they stand for |
| Deltas.MergeTouchesOnlyDelta | src/core/FileEntry.cc:1114-1136 | a commit leaves every page its handle has not set or cleared as it was on disk |
| Deltas.RearmIsConcat | src/core/FileEntry.cc:1148-1162 | re-arming after a failed store is as if it had never been tried: old transitions, then newer ones, the newer winning |
| Deltas.PublishKeeps | src/core/FileEntry.cc:147-152 | publishing keeps: deltas disjoint, set pages present, cleared pages absent, memory the overlay |
| Deltas.RetractKeeps | src/core/FileEntry.cc:154-159 | retracting keeps it |
| Deltas.SnapshotKeeps | src/core/FileEntry.cc:1078-1094 | taking the snapshot keeps it |
| Deltas.StoreKeeps | src/core/FileEntry.cc:1110-1143 | a store keeps it, with local transitions since the snapshot still pending |
| Deltas.FailKeeps | src/core/FileEntry.cc:1147-1164 | a failed store keeps it |
| Deltas.AdoptKeeps | src/core/FileEntry.cc:1171-1188 | adopting the merged image keeps it, newer local transitions winning |
| CommitOps.MergeTables | src/core/FileEntry.cc:1118-1126 | the merge loop over bitmap and CRC table computes the merge of images |
| CommitOps.AdoptTables | src/core/FileEntry.cc:1171-1182 | the adoption loop takes the committed state of exactly the pages not touched since |
| CommitOps.RearmTables | src/core/FileEntry.cc:1153-1159 | the re-arm loop computes the re-armed deltas |
| CommitRuns.NoLostUpdate | src/core/FileEntry.cc:1074-1147 | over every interleaving of commits, the bit and CRC of each page on disk are those of the last committed transition on it, and what a handle did is what it has committed, has in its snapshot, or still holds |
| CommitRuns.CommitTouchesOwnPages | src/core/FileEntry.cc:1104-1136 | a commit changes no page whose handle made no transition on it since its last store |
| CommitRuns.StoreIsReplay | src/core/FileEntry.cc:1110-1143 | what is stored is the image on disk with this handle's transitions replayed, also when there was none |
| CommitRuns.RunLedger | src/core/FileEntry.cc:1074-1188 | in every state of every run the disk image is the replay of the committed history |
| CommitRuns.DataBeforeBit | src/core/FileEntry.cc:829-896 | at every point of every run without punching or truncation under a handle with claims, every bit on disk covers a page holding the origin's bytes |
| Generations.NoLaterTruncation | src/core/FileEntry.cc:61-145 | in runs of openers and handles of any versions and modes: once a sidecar is on disk that will do for a version, and the handles are of such versions, no opener that asks for no more ever truncates `.data`, and the sidecar goes on being usable |
| Generations.NoStricterExactly | src/core/FileEntry.cc:135-145 | asking for no more, field by field, is being content with every sidecar the other is content with |
| Generations.CommitUsableExactly | src/core/FileEntry.cc:1114-1147 | a commit leaves a usable sidecar usable if and only if it merged into it or the committer's own version will do |
| Generations.StaleCommitTruncates | src/core/FileEntry.cc:1137-1143 | for any two versions with different times, a run in which a handle of the old one commits and an opener of the new one then truncates what a handle of its own version has written |
| Truncations.StoredOpensCover | src/core/FileEntry.cc:92-113 | the same by what an opener knows: in every run without punching in which each open that found no sidecar stored one, every bit on disk covers the origin's bytes |
| Truncations.TruncationExposesExactly | src/core/FileEntry.cc:92-113 | after any run, an open that truncates makes a bit over a hole reachable by ordinary steps if and only if some handle holds, in memory, in a snapshot or mid-flush, a page that is not zeros |
| Truncations.NobodyWithoutSidecar | src/core/FileEntry.cc:101-108 | while every such store succeeds, nobody holds an entry without a sidecar |
| CommitRuns.BitOverHole | src/core/FileEntry.cc:108-113 | a run without punching that ends with a bit over a hole, through a failed first store |
| Ranges.HasRange | src/core/FileEntry.cc:254-268 | true exactly when the range is non-empty, inside the file, and every page of it is present or staged |
| Ranges.AbsentRuns | src/core/FileEntry.cc:695-719 | ascending, disjoint, non-adjacent page-aligned runs whose pages are exactly the missing pages of the range (less those in flight when asked) |
| Ranges.HereIffNoneAsked | src/core/FileEntry.cc:254-268 | for non-empty requests inside the file, everything is here exactly when no page is absent, so the two calls agree |
| Ranges.CoveredByFlight | src/core/FileEntry.cc:918-936 | terminates, and true exactly when every page of the range lies in some registered interval |
| Ranges.PageInFlight | src/core/FileEntry.cc:938-943 | true exactly when the page lies in some registered interval |
| Flights.WalkRange | src/core/FileEntry.cc:1006-1023 | the walk over a range's pages finds a missing page not in flight, or none and whether any is missing, or leaves the presence table, exactly as the pages say |
| Flights.Wire.Wait | src/core/FileEntry.cc:1001-1031 | for any ranges, in wrapping arithmetic; without a wrap, and unless the file is within eight pages of 2^64, a reader parks exactly when something is in flight, all ranges are inside the file, at least one page is missing, and all missing ones are in flight |
| Flights.RightWithoutWrap | src/core/FileEntry.cc:1001-1031 | without a wrap the call decides by that rule and stays inside the presence table |
| Flights.ParkingRuleExactly | src/core/FileEntry.cc:1006-1012 | whatever is cached or in flight, the rule holds if and only if no range ends at exactly 2^64 before a refused one, and not (none refused, one wraps, one is walked) |
| Flights.TopOfRange | src/core/FileEntry.cc:1009-1013 | a range up to exactly 2^64, on a file all of whose pages are here, reads past the table |
| Flights.Wire.Note | src/core/FileEntry.cc:945-954 | from then on exactly the pages the range meets inside the file are in flight besides those that were, unless the file is within eight pages of 2^64; nobody is parked |
| Flights.KeyMeets | src/core/FileEntry.cc:945-954 | the interval registered for a range is exactly the pages that hold a byte of it inside the file, none if its end wraps |
| Flights.Wire.Clear | src/core/FileEntry.cc:956-976 | withdraws the ranges and fires every parked callback exactly once; readers are parked only while something is in flight |
| Flights.Wire.ClearOne | src/core/FileEntry.cc:978-999 | withdraws one range and fires every parked callback, registered or not; an unusable range wakes nobody |
| Flights.NoteThenWithdraw | src/core/FileEntry.cc:945-999 | withdrawing what was registered undoes it |
| Flights.WithdrawCounts | src/core/FileEntry.cc:956-999 | withdrawing takes one equal entry per range out, as long as there is one, and no other |
| CacheSources.CacheSource.Has | src/cli/CacheSource.h:57-65 | true exactly when the range is non-empty, inside the file, and all its pages are marked |
| CacheSources.CacheSource.Read | src/cli/CacheSource.h:70-103 | returns what the page-at-a-time verified read returns and fails when it does, or with nothing to read or no CRC table; rot is reported only of a marked page all of whose bytes were there, the first such one |
| CacheSources.WholeSpan | src/cli/CacheSource.h:86-102 | one read over the whole span, verified, is the page-at-a-time read |
| SlotRuns.DeliveredExactlyOnce | src/core/SlotStore.cc:337-473 | in every run of handles that open, refresh, commit and die, with commits torn at any byte: strike the entries of torn blocks from what a handle was handed, and the rest is exactly the blocks others committed up to where it has read, in commit order |
| SlotRuns.RefreshIsCurrent | src/core/SlotStore.cc:377-395 | after a refresh or commit a handle has been handed everything the others had committed |
| SlotRuns.ExtentsDisjoint | src/core/SlotStore.cc:424-429 | no block overlaps another in any state of any run: whole extents where a header landed, the bytes that landed otherwise |
| SlotRuns.NoOverlap | src/core/SlotStore.cc:424-429 | a committer that has scanned the file puts its block past every extent written or claimed |
| SlotRuns.CommittedRecordReads | src/core/SlotStore.cc:475-482 | a record that landed, its block whole or not, reads back byte for byte in every later state |
| SlotRuns.ReadsWhatIsLeft | src/core/SlotStore.cc:475-482 | reading through an entry of a block whose header landed yields what is left of the record, exactly if the file reaches that far and what is left carries the record's seeded checksum |
| SlotRuns.ReadRecordExactly | src/core/SlotStore.cc:475-482 | a record is handed out exactly if its entry has one, all of it is in the file, and its bytes after the seed of store, slot and length carry the entry's checksum |
| SlotRuns.TornRecordNeverLies | src/core/SlotStore.cc:475-482 | an entry of a torn block yields its record or nothing, if what is left of the record carries its checksum only by being it |
| SlotRuns.StepKeepsInv | src/core/SlotStore.cc:337-473 | each step keeps the store's invariant |
| SlotRuns.RunKeepsInv | src/core/SlotStore.cc:337-473 | so every state of every run satisfies it |
| SlotClaims.BaseIsExact | src/core/SlotStore.cc:424-429 | in every state of every run a handle's next block goes to the boundary past the file and past exactly the extents it keeps clear of; how far it has read plays no part |
| SlotClaims.SameBase | src/core/SlotStore.cc:424-429 | a handle would put the next block where one opened now would if and only if it has missed no block that ends past the place it would choose; it never puts it further out |
| SlotClaims.TornExtentSafeExactly | src/core/SlotStore.cc:346-352 | the next block of any handle avoids all of a torn block's extent if and only if 64 bytes of it landed, or it is at most 4096 bytes long, or that handle keeps clear of it because of an earlier block |
| SlotOverlaps.ExtentWrittenOver | src/core/SlotStore.cc:346-352 | with any checksum, a run in which a block lands whole inside the extent of a torn one |
| SlotOverlaps.HandlesDisagree | src/core/SlotStore.cc:337-352 | with any checksum, whenever only zeros of the header were left to land, a run after which two handles would put the next block at different places |
| SlotOverlaps.LastByteZero | src/core/SlotStore.cc:455-460 | there are such headers: with a checksum of zero all but the last byte shows a header whole |
| SlotClaims.ScanClaims | src/core/SlotStore.cc:346-347 | a scan claims no extent that no block claims |
| SlotLog.ScanIsSound | src/core/SlotStore.cc:337-375 | a scan from any boundary hands out only blocks of the log, in order, every complete one, and takes the claim of every visible one |
| SlotLog.BoundaryExactly | src/core/SlotStore.cc:337-356 | at a boundary a block is accepted exactly if the 64 bytes there are a header of this store as the format has it, its length holds its table and ends in the file, and the table carries its checksum; a header claims its extent exactly if its length is from 64 bytes up to 2^40 |
| SlotLog.HeaderIsBlock | src/core/SlotStore.cc:341-345 | a header is recognised only at the start of a block, and only of one whose header landed or lacks nothing but zeros |
| SlotLog.AcceptedIsCommitted | src/core/SlotStore.cc:348-370 | an accepted block hands out exactly the entries committed in it, and a complete block is accepted |
| SlotLog.SkipNothing | src/core/SlotStore.cc:348-371 | resynchronising one boundary at a time skips no block |
| SlotFormat.EntryRoundTrip | src/core/SlotStore.cc:47-63 | an encoded entry decodes to itself |
| SlotFormat.EntryExactly | src/core/SlotStore.cc:48-64 | an entry is read, and written, with every field at the offset the format gives |
| SlotFormat.EntriesRoundTrip | src/core/SlotStore.cc:356-370 | an entry table decodes to its entries, none dropped as implausible |
| SlotFormat.EntriesExactly | src/core/SlotStore.cc:364-370 | what is read of an entry table is exactly its rows of a known kind whose record lies inside the block, or is kept elsewhere, in order |
| SlotFormat.HeaderRoundTrip | src/core/SlotStore.cc:455-460 | an encoded block header parses to itself |
| SlotFormat.HeaderExactly | src/core/SlotStore.cc:341-345 | 64 bytes are a block header exactly if magic, store and checksum are right, and its fields are at the offsets the format gives; what is written is one |
| SlotFormat.BlockParses | src/core/SlotStore.cc:430-460 | the block a commit builds parses as what it is |
| SlotFormat.BlockDecodes | src/core/SlotStore.cc:430-460 | and its entry table decodes to the committed entries |
| SlotFormat.BlockHoldsRecord | src/core/SlotStore.cc:434-454 | each entry names the place of its record's bytes in the block |
| SlotFormat.SeededExactly | src/core/SlotStore.cc:120-126 | a record's checksum is that of store, slot and length in 16 bytes, and then the record |
| SlotFormat.DataLenAdds | src/core/SlotStore.cc:423-429 | the bytes a commit counts are those of all records written, kept ones too |
| SlotStores.SlotStore.ReadBlocks | src/core/SlotStore.cc:337-375 | the scanning loop advances the handle and returns entries as the scan function does |
| SlotStores.SlotStore.Refresh | src/core/SlotStore.cc:377-395 | a refresh is one scan, or nothing if a commit is running |
| SlotStores.SlotStore.Commit | src/core/SlotStore.cc:397-473 | reports the others' entries; writes exactly the records whose slots they have not taken, in order, as one block past everything claimed, of which any prefix may land; names exactly those slots and kinds; writes nothing exactly when every slot is taken; steps over the block only if it landed whole; a declined or replaced store, or a failed lock, leaves file and handle alone, each with its own error |
| SlotStores.BuildBlock | src/core/SlotStore.cc:430-460 | filling the buffer record by record builds the block's image and entries |
| SlotHeaders.Encode | src/core/SlotStore.cc:67-118 | any header reads back as itself, its codec list cut to 256 bytes, from a page laid out as the format has it |
| SlotHeaders.PageExactly | src/core/SlotStore.cc:92-118 | a page is read as a header exactly if magic, version and checksum are right and the codec list fits, every field at its offset |
| PageBitmaps.PageBitmap.Set | src/core/PageBitmap.h:31-37 | adds the page to the set the bitmap stands for; the count stays its cardinality |
| PageBitmaps.PageBit | src/core/PageBitmap.h:29 | page i is bit i mod 8, least significant first, of byte i div 8 |
| PageBitmaps.PageBitmap.Clear | src/core/PageBitmap.h:39-45 | removes it; likewise |
| PageBitmaps.PageBitmap.ClearAll | src/core/PageBitmap.h:47-50 | empties the set |
| PageBitmaps.PageBitmap.Recount | src/core/PageBitmap.h:65-70 | restores the count after a raw load |
| PageBitmaps.PageBitmap.RangeSet | src/core/PageBitmap.h:52-58 | true exactly when every page of the range is in the set |
| PageBitmaps.PageBitmap.CachedBytes | src/core/MetaFile.cc:32-42 | count times page size, less what the tail lacks, is the sum of page bytes over the set |
| PageBitmaps.CachedIsSum | src/core/MetaFile.cc:32-42 | the same for any set of pages |
| PageBitmaps.SetMembers | src/core/PageBitmap.h:31-37 | or-ing one bit in changes the set by that page only |
| PageBitmaps.ClearMembers | src/core/PageBitmap.h:39-45 | masking one bit out likewise |
| MetaFiles.Serialize | src/core/MetaFile.cc:55-126 | the image reads back as the sidecar (blank CRCs for a summary) if and only if its page size is a power of two and its key is at most 64 KiB; otherwise it is refused |
| MetaFiles.ParseImage | src/core/MetaFile.cc:85-126 | accepts exactly the images that are laid out as the format has it, down to the byte, whose CRC is that of the image with its own field zeroed; and reads what they say |
| MetaFiles.PagesCover | src/core/MetaFile.h:42-44 | a file has exactly as many pages as cover it, unless the sum wraps 64 bits |
| MetaFiles.PageSizes | src/core/Config.h:256-258 | page sizes in use are the powers of two from 4 KiB to 1 MiB |
| MetaFiles.ReadSummary | src/core/MetaFile.cc:128-182 | reading only the header and what lies before the CRC table succeeds exactly when a full load would but for the image CRC, and agrees with it on everything but page CRCs |
| Tables.TableRoundTrip | src/core/ReplicaFile.cc:142-166 | a table in place decodes to its rows |
| Tables.DecodeAt | src/core/ReplicaFile.cc:142-166 | row k is read from its own bytes |
| Tables.PutTable | src/core/ReplicaFile.cc:68-87 | storing row by row stores the table and nothing else |
| Tables.GetTable | src/core/ReplicaFile.cc:142-166 | reading row by row reads the table |
| ReplicaFiles.Serialize | src/core/ReplicaFile.cc:41-186 | the image reads back as the metadata (missing CRCs blank, extra ones dropped) if and only if its sections are within bounds and consistent; otherwise it is refused |
| ReplicaFiles.Parse | src/core/ReplicaFile.cc:96-186 | accepts exactly the images, version 1 or 2, that are laid out as the format has it, down to the byte, whose CRC is that of the image with its own field zeroed, and whose extents are sorted, disjoint, non-empty and inside the stitched file and the overlay, superseded ranges inside the origin; and reads what they say, one CRC per overlay page |
| ReplicaFiles.OverlayCover | src/core/ReplicaFile.h:93-96 | an overlay has exactly as many pages of 64 KiB as cover it, unless the sum wraps 64 bits |
| ReplicaFiles.CheckExtents | src/core/ReplicaFile.cc:172-181 | one pass in wrapping 64-bit arithmetic decides whether all extents are in bounds, ordered and disjoint |
| ReplicaFiles.CheckSuperseded | src/core/ReplicaFile.cc:182-184 | likewise for superseded ranges |
| ReplicaViews.Map | src/core/ReplicaStore.cc:22-53 | consecutive segments that partition the clamped range and agree at every byte with "the extent containing it, else the origin", if and only if the request's end does not wrap past 2^64 or it starts past the file |
| ReplicaViews.SegmentsAssemble | src/core/ReplicaStore.cc:22-53 | reading the segments one after another yields the stitched file's bytes of the range |
| ReplicaViews.FirstEndingPast | src/core/ReplicaStore.cc:30-34 | the binary search finds the first extent that ends past the offset |
| OverlayReads.ReplicaView.Read | src/core/ReplicaStore.cc:98-162 | succeeds, and returns, as the page-at-a-time verified read of what `.tdata` held at each read does; any failure, and nothing else, makes the view invalid for good |
| OverlayReads.PublishedReads | src/core/ReplicaStore.cc:98-162 | a successful read of a published overlay returns the published bytes, whatever has happened to `.tdata`, if of the bytes it was shown those that carry a page's CRC are that page |
| OverlayReads.PublishCrcs | src/core/ReplicaStore.cc:222-230 | the CRCs a replica is published with are those of its own pages |
| OverlayReads.PlanAll | src/core/ReplicaStore.cc:112-117 | runs that cover the span exactly, each at most 1 MiB and no two of which could have been one |
| OverlayReads.OverlayIs | src/core/ReplicaStore.cc:98-117 | the pages reads are verified by are the pages the sidecar has CRCs for |
| OverlayReads.VerifyAll | src/core/ReplicaStore.cc:338-364 | the open-time scan passes exactly if every page, read alone, carries its CRC |
| OverlayReads.ScratchFits | src/core/ReplicaStore.cc:342-352 | no coalesced read is longer than the scratch buffer sized for it |
| Evictions.CacheStore.EvictNow | src/core/CacheStore.cc:457-556 | removes entries only while the bytes held or the free space exceeded a budget, oldest first, and never one that is pinned, open, pinned meanwhile, or read within the protection window; leaves another one only with the budgets met; usage is the survivors' bytes; admission is blocked exactly when still over budget with an entry, neither pinned nor open, inside the window |
| Evictions.SparedExactly | src/core/CacheStore.cc:478-510 | what the pass leaves alone, in terms of the entry and the clock |
| Evictions.CacheStore.Pass | src/core/CacheStore.cc:491-536 | the loop of the pass: what it removed, the usage and free space it reached, and whether it met a protected entry |
| Evictions.CacheStore.Admit | src/core/CacheStore.cc:160-207 | an open is declined exactly when the entry is neither live nor on disk and the last pass removed all it could, was still over a budget, and left an entry that nobody holds but was read too recently |
| Evictions.RecentSurvives | src/core/CacheStore.cc:540-552 | still over budget having met a protected entry is being stuck on recent entries: nothing removable is left and such an entry survives |
| Evictions.PassedNext | src/core/CacheStore.cc:495-536 | looking at one more entry keeps that description |
| Evictions.Settled | src/core/CacheStore.cc:530-552 | entries past the last one looked at all survive, and usage is their and the skipped ones' sum |
| Evictions.ShrinkTo | src/core/CacheStore.cc:634-664 | victims are not open, nor pinned if pins are kept, each chosen while the rest was too big; the oldest go first, and what is left fits, or is all open or pinned |
| Evictions.Select | src/core/CacheStore.cc:665-676 | cleanup by age picks exactly the entries of that age that are not open, nor pinned if pins are kept |
| Evictions.SortByAtime | src/core/CacheStore.cc:493-494 | some order of the same entries by access time |
| JsonRoundTrip.RoundTrip | src/cli/Publish.cc:147-461 | a value with grammatical number text, printed at any indent, parses back as itself (byte-exact strings, key order, duplicates) if and only if it nests at most 64 deep; deeper, it does not parse |
| JsonRoundTrip.ParseIsStable | src/cli/Publish.cc:445-467 | printing what was parsed and parsing that gives the same value, for every text the parser accepts |
| JsonRoundTrip.DumpReads | src/cli/Publish.cc:263-440 | anywhere in a text, a printed value parses as itself and ends where its text does |
| JsonRoundTrip.QuotedReads | src/cli/Publish.cc:115-262 | any bytes, quoted and escaped, read back as themselves |
| JsonRoundTrip.DumpSpells | src/cli/Publish.cc:390-440 | what is printed is a spelling of the value, with only what must be escaped escaped, no whitespace without indentation, and with it every pair, and every item of a list that is not all scalars, on its own line indented by its depth |
| JsonTrees.ParsesExactly | src/cli/Publish.cc:263-461 | a text is accepted, as a value, if and only if it is a text of the JSON grammar that means that value, nesting at most 64 deep |
| JsonTrees.TreeReads | src/cli/Publish.cc:263-386 | anywhere in a text, a spelled value is read as what it means and ends where its text does, or not at all if it nests too deep |
| JsonGrammar.StringExactly | src/cli/Publish.cc:205-262 | a string is read, as given bytes, if and only if pieces of the grammar spell it and say those bytes: letters escaped, four hex digits in either case, two halves of a pair one code point, half a pair U+FFFD |
| JsonGrammar.Utf8Exactly | src/cli/Publish.cc:170-186 | the bytes written for a code point are the one sequence that encodes it (section 3 of RFC 3629) |
| JsonRoundTrip.ParsedPrints | src/cli/Publish.cc:263-386 | every parsed value has grammatical numbers and fits the depth it was parsed at |
| JsonNumbers.NumberScanned | src/cli/Publish.cc:352-384 | text of the number grammar is scanned exactly, when nothing continues it |
| JsonNumbers.ScannedIsGrammatical | src/cli/Publish.cc:352-384 | whatever the scanner accepts is of the number grammar (section 6 of RFC 8259) |
| JsonParser.Parser.ParseValue | src/cli/Publish.cc:263-386 | terminates on every text, agrees with the parsing function, restores the depth, and a failure has a reason |
| JsonParser.Parser.ParseString | src/cli/Publish.cc:205-262 | agrees with the string function on every text; a string it accepts is spelled there and it returns what is said |
| JsonParser.Parser.ParseNumber | src/cli/Publish.cc:352-384 | agrees with the number scanner on every text |
| JsonParser.ParseJson | src/cli/Publish.cc:445-461 | returns a value exactly if the text is one of the grammar that means it, nesting at most 64 deep, and a reason otherwise |
| JsonParser.DumpInto | src/cli/Publish.cc:390-440 | appends exactly the text of the value |
| JsonParser.JsonEscape | src/cli/Publish.cc:115-138 | escapes byte by byte |
| NormPaths.NormPath | src/cli/Publish.cc:807-839 | the push-and-pop loop computes the normal form |
| NormPaths.NormIsNormal | src/cli/Publish.cc:807-839 | the result has no empty or "." component, and ".." only as a leading block of a relative path |
| NormPaths.Idempotent | src/cli/Publish.cc:807-839 | normalising twice is normalising once |
| NormPaths.NormalStays | src/cli/Publish.cc:807-839 | a path in normal form is left alone |
| NormPaths.LeadingSlashes | src/cli/Publish.cc:804-816 | exactly two leading slashes are kept, any other run of them becomes one (section 4.13 of IEEE Std 1003.1-2017, XBD) |
| NormPaths.SamePlace | src/cli/Publish.cc:807-839 | from every directory, the result leads to the same place, in a tree without symbolic links |
| NormPaths.SameNorm | src/cli/Publish.cc:807-839 | two paths have the same result if and only if they are rooted alike and lead to the same place from every directory |
| NormPaths.SplitJoin | src/cli/Publish.cc:819-837 | splitting undoes joining |

## Left out

- Threads inside one entry's methods: the classes model each call as one step; interleavings within a call are modelled by the step machines `EntryRuns`, `CommitRuns` and `PoolRuns`, which use the same functions.
- FileEntries.FileEntry.FlushBuffer: waiting for a flush in progress is not part of it; clocks and the sync policy are given.
- FileEntries.FileEntry.WritePages: the drain that its caps may trigger is a separate call here.
- FileEntries.FileEntry.ReleaseRange: the counting of wasted read-ahead is not modelled.
- FileEntries.Open: an unusable directory or data file, and the statistics of the open, are not modelled; a sidecar that loads is one whose tables fit its size and page size (`MetaFiles`).
- Generations.StaleCommitTruncates: a handle's own changes and writes to `.data` are arbitrary there; what they are is the matter of the other runs, which are of one version.
- CommitRuns.DataBeforeBit: stated of runs in which no opener truncates under a handle with claims; by what an opener can know it is `Truncations.StoredOpensCover`.
- Flights.Wire.Wait: for file sizes within eight pages of 2^64, where page counts wrap, only what the code does is stated, not the parking rule; of a walk past the presence table only that it happens.
- Bits over holes after `releaseRanges`: in the runs the punch is the `Damage` step of `EntryRuns`, against which reads are proved.
- SlotStores.SlotStore.ReadBlocks: a failing read of the file is not modelled; headers and tables are what the file holds.
- MetaFiles.Serialize: sizes are exact integers; a page count whose table size wraps a 64-bit size is not modelled.
- MetaFiles.ParseImage: likewise.
- ReplicaFiles.Parse: likewise, sizes are exact integers, so an image whose stated sizes add up only modulo 2^64 is refused here.
- `ReplicaView::originRanges`: reporting only; the deserializer does not check the map it walks.
- Evictions.CacheStore.EvictNow: byte sums are exact integers; the low-water fraction is a given byte target; unlinking the other files of an entry and sweeping orphans are not modelled.
- Evictions.CacheStore.Admit: the rate-limited eviction check before the decision is not modelled.
- `writePagesDirect`, the fill path without a buffer.
- `beginFetch` and `endFetch`: the first reader of an exact range owns its fetch, later ones wait for it and are called back when it ends.
- `consumeSpeculative` as a whole call: its two parts are `StageOps.DropSpan` and the touch step.
- Publishing, opening and quarantining of replicas beyond CRCs and the open-time scan; the verify-once marker.
- `SlotStore::openOrCreate`, the removal of debris, and the race of publishing against slot stores: they depend on clocks.
- crc32c, SHA-256 and URL keys; system calls, locks and renames; statistics, tracing, logging, configuration; the command line, curl and identity code; the transposer and the XrdCl plugin.
