# Native journal indexes, proved

This project models the core of the Go package `go/journal`, which reads and writes systemd
journal files through their native indexes, and proves what that core is for. A journal file is
modelled as an object graph: DATA, FIELD, ENTRY and ENTRY_ARRAY objects by file offset, a header
and two hash tables (`JournalGraph`). On that one model stand:

- **The match-filter engine** (`FilterCursor`, `FilterExpr`, `FilterRealtime`, `FilterMeaning`,
  `CallMeaning`, `FilterBuilder`, `FilterStep`, `FilteredReading`). What a list of calls asks for is
  read off the list itself. The calls compile to an AND/OR tree of
  one-way posting cursors. A cursor inside an AND may already be past the needle, so the usual
  leaf invariant is false; `Covers` states what holds instead: whatever a leaf has skipped lies
  outside the set in which its context still wants answers, and an AND narrows that set to its
  own intersection. From it follow exact answers over any run of seeks, and, end to end, that
  compiling calls and then stepping and seeking in any order is the row-by-row reading. Only a
  seek by time asks that times ascend; a file whose clock was set back is read like any other.
- **The strict index verifier** (`EntryArrays`, `StrictSpec`, `StrictIndex`, `HashIndex`,
  `VerifyIndex`). One pass with one cursor per DATA object accepts exactly the files whose
  indexes are sound in both directions, stated without any walk.
- **Indexed snapshots** (`SnapshotGrowth`, `Snapshot`, `SnapshotWrites`, `SnapshotCapture`,
  `PostingLink`). Opening a snapshot of a strictly verified file captures the bounds and FIELD
  heads that visits rely on, and every run of the writer's stores after that, one scalar at a
  time, is a history under which visits by value, by field or of all entries hand out exactly
  what was captured, whichever reads are stale.
- **The explorer** (`ExplorerSpec`, `ExplorerIndex`, `ExplorerHistogram`, `ExplorerScan`,
  `Explorer`, `OffsetCache`). Facets, a histogram and rows from posting lists against row
  traversal, with facets that may ignore the filters on their own field.
- **Forward Secure Sealing** (`NumberTheory`, `Fsprg`, `KeyGeneration`, `SealedSpec`,
  `SealedVerifying`, `SealedWriting`, `SealedRun`). Seeking equals iterated squaring (Fermat's
  little theorem and the Chinese remainder theorem are proved here), the bits that key
  generation fixes make every key usable, and a sealing writer's file verifies, with the exact
  condition on its inputs. Two files that verify with one key and carry the same tags are the same
  up to the last tag, unless digests collide (`SealedTampering`).
- **Supporting algorithms**: bitwise and (`Bits`), the chain guard (`ChainGuard`), recovery of a damaged tail
  (`Recovery`), merging several files (`DirectoryMerge`), retention (`Retention`), histogram
  arithmetic (`HistogramTiling`) and the export format (`Export`, `ExportForms`).

## Findings

- Index and traversal do not always agree. Strict verification deliberately accepts an ENTRY that
  repeats a reference to one DATA object (go/journal/verify_index.go:206-210); traversal counts
  such a reference twice, posting lists once. `Explorer.TwiceDiffers` gives a file;
  `Explorer.ExploreCompare` proves that the two reports are equal if and only if no row that is
  tallied repeats a reference to a value of a field it is tallied for, and that their rows are
  always equal.
- A sealed file fails its own verification in exactly two cases, both of which the caller can tell
  before writing: the end of the first time window does not fit 64 bits, or an append is accepted
  when the next sequence number has wrapped to 0 (go/journal/writer_init.go:509).
  `SealedRun.WriteAndVerify` states both directions in terms of the start time, the interval, the
  first number and the calls. `SealedRun.StartsTooLate` (start and interval 2^63) and
  `SealedRun.RunsOutOfNumbers` (an append numbered 2^64-2, then two unnumbered ones) are files
  that fail. No later tag can overflow.
- Capping a histogram at 1001 buckets rounds their width down, which could cut off the end of the
  range (go/journal/explorer.go:2810-2817). `HistogramTiling.LayOut` says exactly when it does;
  `HistogramTiling.NewHistogram` proves that it never does for the widths in use, which are whole
  seconds.

## Model

| member | source | states |
|---|---|---|
| `FilterCursor.PostingCursor.AppendNode` | go/journal/reader_filter_posting.go:148-175 | loading one more array keeps the cursor's nodes a prefix of the chain and, on a healthy list, never fails while slots remain |
| `FilterCursor.PostingCursor.Reset` | go/journal/reader_filter_posting.go:177-191 | the cursor stands at the first posting of the direction, loading the whole chain for backward walks |
| `FilterCursor.PostingCursor.Seek` | go/journal/reader_filter_posting.go:204-262 | moves one way only, to the first posting at or beyond the needle or where it already was, and returns it or 0 |
| `FilterExpr.Seek` | go/journal/reader_filter.go:174-271 | under the context invariant, any AND/OR nesting returns the nearest selected offset of the wanted set, and the invariant holds again |
| `FilterExpr.SeekAnd` | go/journal/reader_filter.go:239-257 | the leapfrog loop ends and answers for the intersection even when parts are past the needle |
| `FilterExpr.SeekOr` | go/journal/reader_filter.go:259-271 | the best of the parts' answers is the answer for the union |
| `FilterExpr.Reset` | go/journal/reader_filter.go:273-286 | resetting every leaf establishes the invariant for every set |
| `FilterExpr.PrepareWalk` | go/journal/reader_filter.go:219-237 | preparing a walk establishes the invariant for every set |
| `FilterExpr.SeekRun` | go/journal/reader_filter.go:239-271 | any run of seeks with monotone needles answers each with the least (greatest) selected offset at or beyond the needle, or 0 when none exists |
| `FilterExpr.NearestUnique` | go/journal/reader_filter.go:239-271 | that answer is unique |
| `FilterRealtime.SeekRealtimeCursor` | go/journal/reader_filter_realtime.go:43-103 | binary search per node places the cursor on the nearest posting by time, as a linear seek from a reset cursor would |
| `FilterRealtime.SeekFilterRealtime` | go/journal/reader_filter_realtime.go:3-41 | the same under AND and OR, leaving a state from which ordinary seeks stay exact |
| `FilterMeaning.SortSorts` | go/journal/reader_filter.go:132-150 | sorting groups matches by field name: sorted, every match as often as before, and matches of one name in their given order |
| `FilterMeaning.GroupMeansSameMembers` | go/journal/reader_filter.go:132-170 | the meaning of a group does not depend on the order of its matches |
| `CallMeaning.MatchesMean` | go/journal/reader_filter.go:36-41 | matches alone ask for one of the values of every field they name |
| `CallMeaning.DisjunctionMeans` | go/journal/reader_filter.go:43-46 | a disjunction between two lists of calls asks for a row of either |
| `CallMeaning.ConjunctionMeans` | go/journal/reader_filter.go:48-55 | a conjunction between any two lists of calls asks for the rows of both |
| `CallMeaning.CallsMean` | go/journal/reader_filter.go:36-130 | the terms that any list of calls leaves behind ask for what the list itself says: terms between conjunctions, alternatives between disjunctions |
| `FilterBuilder.BuildGroup` | go/journal/reader_filter.go:132-170 | a group compiles to an expression that means AND per field of OR per value |
| `FilterBuilder.Builder.AddMatchCall` | go/journal/reader_filter.go:36-41 | a match joins the current group unless it has no field name |
| `FilterBuilder.Builder.AddDisjunctionCall` | go/journal/reader_filter.go:43-46 | a disjunction closes the group and leaves the term open; what that means for rows is stated by `CallMeaning.DisjunctionMeans` |
| `FilterBuilder.Builder.AddConjunctionCall` | go/journal/reader_filter.go:48-55 | a conjunction closes the group and the term; what that means for rows is stated by `CallMeaning.ConjunctionMeans` |
| `FilterBuilder.Builder.Build` | go/journal/reader_filter.go:57-130 | the compiled filter selects exactly the entries that satisfy AND of OR of AND per field of OR per value |
| `FilterBuilder.StrictGivesRowIndex` | go/journal/verify_index.go:74-232 | a strictly verified file gives the builder healthy, truthful postings |
| `FilterStep.FilterRealtimeIndex` | go/journal/reader_filter_step.go:200-220 | binary search finds the first row not earlier than a time |
| `FilterStep.StepLands` | go/journal/reader_filter_step.go:25-110 | a row-by-row step lands on the nearest selected row ahead or stays; ahead of a time sought, in either direction, is also a row at exactly that time |
| `FilterStep.FilteredReader.FilteredOffset` | go/journal/reader_filter_step.go:128-196 | the search behind a step answers for exactly what lies ahead of the position; times need to ascend only while a time seek is pending |
| `FilterStep.FilteredReader.Step` | go/journal/reader_filter_step.go:25-110 | a successful step lands on the next (previous) matching row and a false result leaves the position unchanged, whatever state earlier steps and seeks left |
| `FilterStep.FilteredReader.Operate` | go/journal/reader_filter_step.go:25-110 | steps and seeks to the head, the tail or a time each lead where they lead row by row |
| `FilteredReading.ReadFiltered` | go/journal/reader_filter_step.go:25-110 | on a strictly indexed file, any calls followed by any steps and seeks give the row-by-row trace over the rows that the calls, read off the list, ask for; times need to ascend only if a seek is by time |
| `Bits.PowerOfTwoTest` | go/journal/chain_guard.go:20-34 | the bit trick recognizes powers of two |
| `Bits.MaskIsMod` | go/journal/explorer.go:1521-1579 | masking with one less than a power of two takes the remainder |
| `ChainGuard.ChainGuard.Advance` | go/journal/chain_guard.go:10-34 | the guard refines its specification: ordered links pass freely, others meet checkpoints at powers of two |
| `ChainGuard.RejectsOnlyRevisits` | go/journal/chain_guard.go:10-34 | a rejection within 2^64-1 links names a node that was really visited before |
| `ChainGuard.CycleRejected` | go/journal/chain_guard.go:10-34 | every cycle is rejected within four times tail plus cycle length |
| `ChainGuard.Walk` | go/journal/chain_guard.go:10-34 | a guarded walk ends over any link function |
| `ChainGuard.RejectArrayRevisit` | go/journal/array_chain.go:8-27 | on readable acyclic history it errs exactly when the next array was visited |
| `EntryArrays.TakeSlot` | go/journal/verify_index.go:74-112 | taking one more slot opens at most one array and appends its item |
| `StrictIndex.GraphVerifier.ArrayNext` | go/journal/verify_index.go:74-112 | yields the next posting exactly when the array exists, links forward, is unclaimed and its item rises and names an ENTRY |
| `StrictIndex.GraphVerifier.ArrayFinish` | go/journal/verify_index.go:114-140 | accepts exactly the used-up chains whose last array ends the chain, with zero slots and a true tail hint |
| `StrictIndex.GraphVerifier.ReversePostings` | go/journal/verify_index.go:191-232 | the pass succeeds while every ENTRY's references are met by the cursors of its DATA objects |
| `StrictIndex.GraphVerifier.ValidatePostings` | go/journal/verify_index.go:142-232 | accepts if and only if the global array lists every ENTRY once in order, every DATA's postings are the ascending ENTRYs containing it, no array is shared or unowned, unused slots are zero and hints match |
| `HashIndex.ValidateTable` | go/journal/verify_index.go:234-321 | accepts if and only if every object hangs on the chain of its own bucket and on no other |
| `HashIndex.ValidateFieldChains` | go/journal/verify_index.go:323-362 | accepts if and only if every DATA object is on the chain of the one FIELD that names it |
| `HashIndex.FindData` | go/journal/explorer.go:1094-1130 | on an indexed table, lookup finds a payload if and only if a DATA object holds it and the guard never fires |
| `HashIndex.VisitField` | go/journal/explorer.go:1208-1232 | on indexed FIELD chains, every value of the field is listed once and the guard never fires |
| `VerifyIndex.PayloadIndex.Add` | go/journal/verify_index.go:364-403 | whatever digests collide, an object is accepted exactly when no earlier one has its payload |
| `VerifyIndex.UniquePayloads` | go/journal/verify_index.go:364-403 | reading the DATA objects in any order accepts if and only if each has its hash and is the value of a named field, and all payloads are distinct |
| `VerifyIndex.ReadFields` | go/journal/verify_graph.go:558-590 | reading the FIELD objects accepts if and only if each has its hash and a usable name |
| `VerifyIndex.VerifyStrict` | go/journal/verify_index.go:142-189 | strict verification accepts if and only if stored hashes, payloads, both hash tables, FIELD chains and postings are all sound |
| `VerifyIndex.VerifyThenRead` | go/journal/verify_index.go:22-41 | a file that strict verification accepts answers every filtered reading row by row, whatever its clock did, unless the reading seeks by time |
| `SnapshotGrowth.ChainKept` | go/journal/indexed_snapshot_visit.go:104-106 | filled slots of a chain stay what they are under append-only growth |
| `SnapshotGrowth.KeptPostings` | go/journal/indexed_snapshot_visit.go:104-106 | growth only appends to a posting list |
| `Snapshot.IndexedSnapshot.ReadSlot` | go/journal/indexed_snapshot_visit.go:107-120 | a stale empty slot is read again past the cache and then holds the published entry |
| `Snapshot.IndexedSnapshot.VisitArrayItems` | go/journal/indexed_snapshot_visit.go:156-190 | visits the captured slots of one array in order and clips at the first later entry |
| `Snapshot.IndexedSnapshot.VisitArrays` | go/journal/indexed_snapshot_visit.go:122-153 | visits exactly the captured part of a chain, without error, under any mix of stale and fresh reads |
| `Snapshot.IndexedSnapshot.VisitPostings` | go/journal/indexed_snapshot_visit.go:81-102 | visits exactly the postings a DATA object had at capture |
| `Snapshot.IndexedSnapshot.FindData` | go/journal/indexed_snapshot_capture.go:219-263 | finds the DATA object that held a payload at capture, or that there was none, while later objects are linked in |
| `Snapshot.IndexedSnapshot.VisitMatch` | go/journal/indexed_snapshot_visit.go:10-23 | visits exactly the postings present at capture, ascending, once each, without error |
| `Snapshot.IndexedSnapshot.VisitEntries` | go/journal/indexed_snapshot_visit.go:73-79 | streams the captured population in order however the file has grown |
| `Snapshot.IndexedSnapshot.VisitField` | go/journal/indexed_snapshot_visit.go:29-70 | visits, value by value, the captured postings of every payload on the captured chain that is the field's name, an equals sign and a value which is accepted |
| `SnapshotWrites.StorePublishes` | go/journal/writer_arrays.go:212-264 | every store in publication order leaves all counted postings in place |
| `SnapshotWrites.StoreBeyond` | go/journal/writer_arrays.go:212-264 | every store keeps what is new beyond the captured bounds |
| `SnapshotWrites.RunIsHistory` | go/journal/writer_arrays.go:212-264 | every run of legal stores from a state at rest is a history a snapshot tolerates |
| `SnapshotWrites.VisitWhileWriting` | go/journal/indexed_snapshot_visit.go:10-23 | a visit during any run of stores, with any schedule of stale reads, hands out the captured postings |
| `SnapshotCapture.StrictQuiescent` | go/journal/indexed_snapshot.go:70-124 | a strictly verified file at rest is one that a snapshot may be taken of |
| `SnapshotCapture.ArrayTail` | go/journal/indexed_snapshot_capture.go:72-98 | finds the last of a chain's slots from array headers and one slot |
| `SnapshotCapture.CaptureBoundary` | go/journal/indexed_snapshot_capture.go:10-49 | on a strictly verified file at rest the captured bound is the newest entry |
| `SnapshotCapture.FindFieldHead` | go/journal/indexed_snapshot_capture.go:164-217 | finds the head of a field's chain, or 0 exactly when there is no such field |
| `SnapshotCapture.CaptureThenVisitField` | go/journal/indexed_snapshot_visit.go:29-70 | opened on a strictly verified file, then visited during any run of stores with any stale reads: the captured postings of every value v of the field with accept(v), each value once |
| `SnapshotCapture.CaptureThenVisitMatch` | go/journal/indexed_snapshot_visit.go:10-23 | the same for one value |
| `SnapshotCapture.CaptureThenVisitEntries` | go/journal/indexed_snapshot_visit.go:73-79 | the same for the whole population |
| `PostingLink.PostingWriter.LinkDataToEntry` | go/journal/writer_arrays.go:212-272 | appends the entry to the postings by stores that are all legal, so no count ever covers a missing posting |
| `PostingLink.PostingWriter.AppendToChain` | go/journal/writer_arrays.go:406-444 | stores the entry in the slot after the counted ones, in a new array when the chain is full; whichever way the links lead, the revisit check never refuses such a chain |
| `ExplorerIndex.FindField` | go/journal/reader_entry.go:330-360 | on an indexed table, a FIELD is found if and only if it exists |
| `ExplorerIndex.VisitDataEntries` | go/journal/explorer.go:1164-1206 | on a strictly listed DATA object, visits its posting list |
| `ExplorerIndex.IndexedFacet` | go/journal/explorer.go:1234-1308 | counts every candidate row once per value, and the rows without the field |
| `ExplorerHistogram.IndexedHistogram` | go/journal/explorer.go:1310-1445 | the same per time bucket |
| `ExplorerScan.Accumulator.ScanRow` | go/journal/explorer.go:2090-2113 | defers every reference of a row to a tracked value, as often as it occurs, and marks exactly the tracked fields the row has |
| `ExplorerScan.Accumulator.AcceptRow` | go/journal/explorer.go:1724-1761 | the counters are the counts of the rows accepted so far, per value, field and bucket, for fields tracked as facet and as histogram |
| `ExplorerScan.Accumulator.Facet` | go/journal/explorer.go:1763-1784 | the finished facet counts every reference, and the rows without the field |
| `ExplorerScan.Accumulator.HistogramOfField` | go/journal/explorer.go:1786-1806 | the same per time bucket |
| `ExplorerSpec.TalliesAgree` | go/journal/explorer.go:1234-1308 | posting counts equal reference counts if and only if no row repeats a reference to a value of the field |
| `ExplorerHistogram.HistogramsAgree` | go/journal/explorer.go:1310-1445 | the same for histograms, over the rows that fall into a bucket |
| `Explorer.FiltersEntries` | go/journal/explorer.go:1021-1059 | the candidate set is exactly the entries that match every filter with values |
| `Explorer.Candidates` | go/journal/explorer.go:986-1005 | the candidate rows are those the filters, and the time range when asked, select |
| `Explorer.SeekStart` | go/journal/explorer.go:2303-2322 | the row that the initial seek by time finds has no selected row before it |
| `Explorer.ScanRows` | go/journal/explorer.go:1850-1892 | beginning at the seek and stopping at the first row past the range loses no row of the selection, and the first rows are taken up to the limit |
| `Explorer.FacetRowsAre` | go/journal/explorer.go:1007-1019 | a row counts for a facet exactly if it is in range, both ends included, and holds one of the values of every filter with values, the facet's own filters aside if so requested |
| `Explorer.FacetGroups` | go/journal/explorer.go:2477-2505 | each facet is in exactly one group, that of the field whose filters it ignores |
| `Explorer.ExploreIndexed` | go/journal/explorer.go:861-924 | the index strategy yields posting tallies of every facet over its own rows, the posting histogram and the first rows |
| `Explorer.ExploreRows` | go/journal/explorer.go:751-791 | traversal, in one pass or one per group, yields the reference tallies, the reference histogram and the first rows |
| `Explorer.ReportsAgree` | go/journal/explorer.go:834-859 | the rows are always the same; the reports are equal if and only if no tallied row repeats a reference to a value of its field |
| `Explorer.StrictExplorable` | go/journal/verify_index.go:142-189 | strict verification is all that both strategies ask of a file |
| `Explorer.Refuses` | go/journal/explorer.go:2541-2584 | a query is refused exactly for a range that ends before it starts, an empty field or one with an equals sign, or a facet asked for twice |
| `Explorer.ExploreCompare` | go/journal/explorer.go:834-859 | refuses exactly the malformed queries; otherwise the two reports are equal if and only if no tallied row repeats a reference to a value of its field |
| `Explorer.TwiceDiffers` | go/journal/verify_index.go:206-210 | a file that strict verification accepts and on which they differ |
| `OffsetCache.EmptySlot` | go/journal/explorer.go:1540-1579 | a table below its load limit always has an empty slot |
| `OffsetCache.OffsetClassCache.Lookup` | go/journal/explorer.go:1521-1538 | probing by masks answers exactly as the finite map does |
| `OffsetCache.OffsetClassCache.InsertRaw` | go/journal/explorer.go:1564-1579 | the unbounded probe ends and stores one entry without disturbing any other |
| `OffsetCache.OffsetClassCache.Grow` | go/journal/explorer.go:1553-1562 | growth keeps the map |
| `OffsetCache.OffsetClassCache.Insert` | go/journal/explorer.go:1540-1551 | adds or replaces one entry of the map |
| `NumberTheory.Fermat` | go/journal/fss.go:201-204 | Fermat's little theorem, on which reducing exponents rests |
| `NumberTheory.ResiduesUnique` | go/journal/fss.go:206-216 | residues modulo two primes determine a number below their product |
| `Fsprg.CrtComposes` | go/journal/fss.go:206-216 | the composed number has both residues and lies below the modulus |
| `Fsprg.ReducedExponentPositive` | go/journal/fss.go:201-204 | 2^m is never a multiple of p-1 for the primes in use, so the reduced exponent is right even for residues that p divides |
| `Fsprg.SeekSquareIsIterated` | go/journal/fss.go:273-291 | the jump reaches the square that squaring epoch by epoch reaches |
| `Fsprg.StateFields` | go/journal/fss.go:36-83 | a state's bytes read back as its security parameter, modulus, square and epoch |
| `Fsprg.SeekIsIteratedEvolve` | go/journal/fss.go:257-291 | seeking to any 64-bit epoch yields the very bytes that evolving that many times yields |
| `Fsprg.SoughtSquare` | go/journal/fss.go:189-199 | the square of epoch m is the draw to the power 2^(m+1) modulo the product of the primes, at epoch 0 the draw squared, and the state is its four fields in order |
| `KeyGeneration.GeneratedKeys` | go/journal/fss.go:177-199 | the bits that generation fixes make the primes fit and the draw smaller than their product, so every epoch can be sought |
| `KeyGeneration.OtherBitsStay` | go/journal/fss.go:177-191 | fixing the bits of a byte changes no other bit |
| `SealedVerifying.TagRealtimeRange` | go/journal/verify.go:700-714 | refuses exactly when the end of the window does not fit 64 bits |
| `SealedVerifying.SealedVerifier.CheckEntry` | go/journal/verify.go:428-514 | the entry checks decide placement, numbering, clock and header |
| `SealedVerifying.SealedVerifier.VerifyTagWindow` | go/journal/verify.go:579-594 | a running maximum and minimum decide the window check over all entries |
| `SealedVerifying.SealedVerifier.VerifyTagDigest` | go/journal/verify.go:596-651 | the digest is recomputed over everything since the last tag |
| `SealedVerifying.SealedVerifier.Run` | go/journal/verify.go:308-324 | one pass accepts exactly the files whose every object passes every check, under either rule for epochs, and whose counts match |
| `SealedSpec.ConsecutiveNeverFalls` | go/journal/verify.go:561-577 | epochs that pass the continuous rule pass the other one |
| `SealedSpec.ChunksDetermine` | go/journal/verify.go:596-651 | what a digest covers determines the objects, but for the digests of tags |
| `SealedTampering.TamperEvident` | go/journal/verify.go:596-651 | two files that pass with one key and carry the same tags are the same up to the last tag, if no two texts share a digest |
| `SealedWriting.SealedWriter.AppendTag` | go/journal/seal.go:118-148 | a closing tag is numbered, signed and in its window |
| `SealedWriting.SealedWriter.MaybeAppendTag` | go/journal/seal.go:169-202 | catching up closes every epoch up to that of the entry, and every new tag passes |
| `SealedWriting.SealedWriter.PrepareEntryOptions` | go/journal/writer.go:500-533 | accepts exactly the admissible entries and fills in time, boot, clock and number |
| `SealedWriting.EntryAsAsked` | go/journal/writer.go:500-533 | a given boot, time and number are written as given, and the clock unless an entry of the boot already stands there |
| `SealedWriting.AdmitsExactly` | go/journal/writer.go:500-533 | an entry is written exactly if a clock and some boot are given, the clock can go on, the number has not been passed and the time lies in an epoch that is not closed |
| `SealedWriting.NumbersFollow` | go/journal/writer_init.go:509 | automatic numbers follow one another from the number a file starts with, or 1 |
| `SealedWriting.SealedWriter.Append` | go/journal/writer.go:436-480 | refuses exactly what the gate before the call does not admit, changing nothing; otherwise adds the one entry the inputs determine and keeps the file verifiable unless the numbers were used up |
| `SealedWriting.ClosingTagPasses` | go/journal/seal.go:118-148 | a tag that closes its epoch passes sequence, epoch, window and digest checks |
| `SealedRun.KeysCoherent` | go/journal/verify.go:617-620 | the states the verifier seeks to are those the writer evolves through |
| `SealedRun.AppendAll` | go/journal/writer.go:436-480 | any run of appends adds the entries that the inputs determine, and the numbers fit if and only if no call is accepted once they are used up |
| `SealedRun.WriteAndVerify` | go/journal/seal.go:169-202 | after any run of appends, verification succeeds if and only if the first window fits 64 bits and no call is accepted after the last sequence number, which the inputs alone decide |
| `SealedRun.RunsOutOfNumbers` | go/journal/writer_init.go:509 | an append numbered 2^64-2 followed by two unnumbered ones is accepted and does not verify |
| `SealedRun.StartsTooLate` | go/journal/verify.go:700-714 | a file that starts at 2^63 with an interval of 2^63 does not verify |
| `Recovery.ValidateSuffix` | go/journal/reader_recovery.go:187-249 | succeeds exactly if the chain can be walked without a revisit, no slot leads to garbage, no valid entry follows a missing slot and the valid ones ascend |
| `Recovery.LoadEntries` | go/journal/reader.go:651-697 | loads all declared slots exactly if each is there, in a whole array, and valid; otherwise, and only when asked to recover, keeps something exactly if the file is recoverable: the longest valid prefix, which ascends and hides no later valid slot |
| `Recovery.SettledRetains` | go/journal/reader_recovery.go:162-183 | a valid prefix of settled slots is that longest prefix |
| `Recovery.RecoveredCount` | go/journal/reader_filter_posting.go:63-133 | an answer is the number of postings not beyond the last kept entry, for every list the readable part may have been cut from; on a chain that can be walked there is an answer exactly if that part decides the count |
| `DirectoryMerge.MergingReader.Step` | go/journal/directory_reader.go:810-863 | a merge step yields the next row of all files in order, or ends when every row was yielded once |
| `DirectoryMerge.MergeStep` | go/journal/directory_reader.go:829-860 | yielding the best candidate keeps the merge ordered and complete |
| `DirectoryMerge.SequentialReader.Step` | go/journal/directory_reader.go:935-990 | a sequential step yields the next row of the current file or of the next file that has one |
| `DirectoryMerge.FilesNonOverlapping` | go/journal/directory_reader.go:132-147 | the header test holds exactly when consecutive files share a sequence-number space and are apart in number and time |
| `DirectoryMerge.RowsApart` | go/journal/directory_reader.go:132-147 | of files that pass the test and whose headers tell the truth, rows of an earlier one come before rows of a later one in number and in time, in one number space |
| `DirectoryMerge.CompareStepping` | go/journal/directory_reader.go:810-990 | when the test holds and headers bound their rows, both ways yield the same rows in either direction: all, once, in sequence-number order |
| `Retention.RetentionRun.DeleteOldest` | go/journal/log_retention.go:162-185 | deletes the oldest file that is not active, within the cutoff if there is one |
| `Retention.RetentionRun.EnforceLimits` | go/journal/log_retention.go:122-151 | deletes exactly the shortest oldest-first prefix of the deletable files that meets the count, byte and age limits, or all of them, and never an active file |
| `Retention.PruneRoot` | go/journal/root_retention.go:491-533 | one pass over all files deletes exactly that prefix too |
| `HistogramTiling.BarWidth` | go/journal/explorer.go:2835-2845 | the widest listed bar of which the range holds the target, or one second |
| `HistogramTiling.LayOut` | go/journal/explorer.go:2801-2819 | at most 1001 equal buckets from the baseline of the start, and exactly when they reach the end of the range |
| `HistogramTiling.NewBuckets` | go/journal/explorer.go:2820-2833 | the buckets tile the range of the layout without gap or overlap |
| `HistogramTiling.IndexContains` | go/journal/explorer.go:2873-2888 | the arithmetic index picks the bucket that contains the time |
| `HistogramTiling.NewHistogram` | go/journal/explorer.go:2801-2833 | width, layout, buckets and index together: the buckets tile the layout, and every time of the range asked for is counted in the bucket that contains it, as long as the end of the layout fits 64 bits |
| `HistogramTiling.BucketRows` | go/journal/explorer.go:2873-2900 | the rows that count in a bucket are those whose time lies in it; the first and the last bucket also take what lies outside |
| `HistogramTiling.BoundsAsked` | go/journal/explorer.go:2854-2871 | a range is taken as asked; without a start it begins at 0, without an end it lasts an hour |
| `HistogramTiling.ShareExact` | go/journal/explorer.go:2460-2470 | the share of an estimate is exact and never saturates |
| `HistogramTiling.SpreadEstimate` | go/journal/explorer.go:2425-2458 | of the part of any range that the histogram covers, each bucket gets exactly its share by overlap; the shares add up to at most the estimate and lose less than one per touched bucket |
| `Export.PrintableLine` | go/journal/reader_output.go:204-223 | a text printable on one line has no newline byte |
| `ExportForms.PrintableText` | go/journal/reader_output.go:204-223 | bytes are printable exactly if they are the UTF-8 of code points free of control characters but tabs, and newlines where allowed |
| `ExportForms.FieldForm` | go/journal/reader_output.go:158-177 | a field is one line of text exactly if name and value are printable, otherwise name, size in eight bytes with the least significant first, and value |
| `Export.ReadField` | go/journal/reader_output.go:158-177 | a written field, text or binary, reads back |
| `Export.ReadEntries` | go/adapter/main.go:465-509 | the concatenated export of any non-empty entries reads back as these entries |
| `Export.ParseExport` | go/adapter/main.go:465-509 | the parsing loop computes the line-by-line reading of its input |
| `Export.RoundTrip` | go/adapter/main.go:465-509 | writing and parsing returns every entry with the last value per name |

## Left out

- Refreshing a reader after growth or recovery, and filtering or exploring a recovered file: the filter and explorer models start from a completely loaded file.
- File, memory-map, lock and directory plumbing: I/O errors are not modelled, and a writer that fails in the middle of an append is not continued.
- SipHash, Jenkins, SHA-256, HMAC and compression: uninterpreted functions; payloads are decompressed payloads.
- Miller-Rabin and the length of the prime search: what the search finds is assumed to be prime, and the two primes to differ and not to outgrow their bytes.
- Object sizes, alignment and type bytes: an offset either addresses an object of a kind or it does not; the verifier's parsing of single objects is assumed as `StrictSpec.Parsed`.
- Context cancellation and callbacks that return errors: a visit records what it hands out.
- SnapshotCapture.CaptureBoundary: the tail entry's number, time and boot in the header, and captured value counts, are not modelled; they add checks of one object each.
- ExplorerScan.Accumulator.Facet: first-value mode, full-text search, source realtime, sampling and early stop are not modelled.
- Explorer.ExploreCompare: rows are compared by their offsets, statistics are not compared, and anchors and backward passes are not modelled.
- FilterBuilder.Builder.Build: the branch that reads a stale posting count again is not modelled; the filter starts from a completely loaded file.
- HashIndex.ValidateTable: that a file has one table object of each kind is part of the file model.
- SealedVerifying.SealedVerifier.Run: object flags, sizes and hashes, which the source checks in the same pass, are not modelled.
- PostingLink.PostingWriter.LinkDataToEntry: the compact tail shortcut is not modelled; it reaches the slot that the walk reaches.
- DirectoryMerge.MergingReader.Step: bounds on realtime and the restart after a recovery are not modelled.
- DirectoryMerge.CompareStepping: all files share one sequence-number space; keys of different spaces, boots and clocks, realtime seeks and reversals of direction are not modelled.
- Retention.RetentionRun.EnforceLimits: sums of sizes do not saturate and deletions do not fail; the files arrive sorted, as the source's sort leaves them.
- HistogramTiling.NewHistogram: the arithmetic is over unbounded numbers, so what happens when the end of the layout does not fit 64 bits is not modelled.
- Recovery.LoadEntries: what a read finds (an ENTRY, nothing, garbage) is a parameter; byte bounds are not modelled.
- Adding matches after a filter was built, and backward explorer passes.
