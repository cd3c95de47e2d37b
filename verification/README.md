# EdgeStore in Dafny

EdgeStore is a log-structured key-value store with replication, compaction, snapshots, a vector index and
a text index. This project models the stateful path from write to read and the algorithms around it, and
proves what they promise. Check it with `dafny verify dfyconfig.toml` (Dafny 4.11).

| files | what they model |
|---|---|
| `Bytes`, `Collections`, `Keys` | byte order, facts about sets and sequences, integer codecs, encoded keys and prefix bounds |
| `Entries`, `Merge`, `MergeReverse`, `Scan` | records, tables, the two heap merges, scans over segments and memtable |
| `Paging`, `Pages`, `PagesReverse`, `PagingLimits` | deduplication under a budget, cursor pages in both directions, what exactly a budget hides |
| `Lsm`, `LsmLimits`, `Engine` | the engine as a state machine over writes, rotations, three-phase flushes and crashes, and as a class |
| `SegmentCodec`, `SegmentFile`, `InMemory`, `Immutable` | segment bytes, the block writer, disk and in-memory readers, the read-only engine |
| `Replication`, `AntiEntropy` | last-write-wins import and the anti-entropy cycle |
| `Manifest`, `Compaction`, `Compactor`, `CompactionCycle`, `CompactionLimits`, `Snapshots` | the manifest log, compaction under pins and budget, what a cycle brings back or loses, snapshot stability |
| `Framing`, `Wal`, `ManifestBytes` | checksummed frames and truncated log files |
| `HnswSearch`, `Hnsw` | the small-world vector graph |
| `Bloom`, `TextPostings`, `TextIndexing`, `Levenshtein` | the incremental text index and edit distance |

## How things are modelled

- A record is `Entry(key, op, lsn, timestamp, ttl)`; the operation carries the value (`Put(value)` or `Delete`).
- The order on keys is slice order. `Less` compares a real-valued rank so that the solver has a linear order;
  `LessIsLexicographic` shows it is the usual order.
- zstd, LZ4 and JSON are pairs of functions with `decode(encode(x)) == Some(x)`; CRC32C is a function into 32
  bits; BLAKE3 is a function, injective where a theorem needs it; the xor filter has no false negatives;
  vector distance is a real-valued function. Each is a parameter, and each hypothesis is a `requires`.
- Time, the node's random layer, hash seeds and the decision that a rotation or a flush is due are inputs.
- A heap is the set of its items with a choice of a least (or greatest) one, so nothing depends on the order
  of equal items. A hash map is a `map`; iteration order is an arbitrary choice.
- Readers are total: they take any bytes and any index, and are exact on what the writer wrote.

## What the code does not promise

Several properties hold only under a condition. Each has a run or an input that breaks it, and the exact
condition under which it holds.

- **Crash after an empty WAL.** The LSN counter is restored from the WAL alone. `CounterRestoredIff` says exactly
  when it comes back; `EmptyWalCrashSplitsReads` shows point reads and scans disagreeing afterwards.
- **Rotation during a flush.** `finalize_flush` deletes every WAL file but the active one. `FinalizeDurableIff`
  says exactly when that is safe; `RotationInFlightLosesWrite` loses an acknowledged write.
- **Overlapping flushes.** A put that fills the memtable flushes at once, also while an older snapshot is being
  written. `LateFlushKeepsReadsIff` says exactly when registering the older one last is harmless;
  `LateFlushReadsOldValue` is a run where it is not.
- **Rotation right after reopening.** A file created by the reopen rotation is named `lsn + 1`, so a rotation due
  after one write finds its file name taken (`ReopenRotationTakesName`). `RotationSucceedsIff` is the exact
  condition. The write fails with the record in the WAL; the next replay brings it back (`FailedWriteResurfaces`).
- **Scan budget.** The budget is spent on segment records before memtable tombstones are applied. `PageExact` and
  `RevPageExact` say which visible records a page of either direction returns, `PageCompleteIff` when it is the
  next page, `ChainStopsEarlyIff` and `RevChainStopsEarlyIff` when a chain ends with records left over.
  `DeletedKeyHidesNext` skips a record for good; `DeletedKeyEndsChain` returns an empty page and no cursor.
- **Replica scans.** Imported segments keep foreign LSNs while the memtable gets local ones. `ScanAgreesIff` says
  exactly when scans agree with point reads; `ScanShowsOldWrite` is the failure.
- **Equal timestamps.** The segment that comes first wins. `OrderIrrelevantIffGreatestAgree`: the order does not
  show at a key if and only if all its records with the greatest timestamp write the same operation;
  `TiesDependOnOrder` is the failure.
- **Compaction.** Tombstones are always dropped. `DeletedStaysDeletedIff`: a deleted key still reads as deleted if
  and only if no put is newest outside the cohort; `DeletedKeyComesBack` is a put and a delete two seconds apart, in
  different hours.
- **Imported segments.** They are listed with death time 0 and bucket 0. `LiveRecordLostIff` says exactly when a
  cycle loses a live record; `ImportThenCompact` imports one and loses it. `CycleRetains`, `CycleKeepsScans` and
  `ExpiredIsDead` therefore ask for listed death times that bound the records. A store fed by flushes always has
  them, whatever cycles it runs (`FlushedIsBounded`), so its scans keep every unexpired record (`FlushedKeepsScans`).
- **Text index.** `RemovalExactIff`: removal keeps the document count exact if and only if the document is absent or
  has a token. Postings and lengths stay exact in any case; `CompareWithRebuilt` gives the surplus in the count, and
  `IndexTwice` runs the failure.
- **Torn tails.** The WAL is reopened for appending without cutting off a torn tail. `AppendAtBoundary`: behind
  complete frames everything is read back. `ReadTornPayload` says what is read behind a torn payload, for every
  checksum; `AppendBehindTornPayload` and `AppendBehindTornHeader` say which appended records are lost.
- **Large records.** Neither the log writer nor the segment writer looks at sizes, but the readers do.
  `LogReadsLeading`: a log yields the records in front of the first one over 64 MiB compressed, so all of them if and
  only if none is over it. `BlockReadsBackIff`: a block reads back if and only if its records fit 2 MiB.
- **Prefix without an upper bound.** A prefix of only 0xFF bytes reads the memtable and skips the segments.
  `PrefixExactIff` is the exact condition; `PrefixMissesFlushed` is a record that disappears when it is flushed.

Where comments and code differ the model follows the code: the forward merge says it pops the higher LSN of a
key first, and pops the lower one (the result is the same). The cohort bucket is documented as a floor, and the
division truncates towards zero, which differs before the epoch. A scan budget of zero acts as one. In
`compact_cycle` the check for pinned segments inside a cohort can never fire, because cohorts are built from
unpinned segments only, and it is left out of the model.

## Model

| member | source | states |
|---|---|---|
| `ByteStrings.LessIsLexicographic` | edgestore/src/types.rs:138-145 | the key order is the lexicographic order of byte strings, and equal rank means equal strings |
| `Keys.DecodeEncode` | edgestore/src/types.rs:138-175 | decoding an encoded key gives the namespace and the key back |
| `Keys.EncodeDecode` | edgestore/src/types.rs:138-175 | encoding what a byte string decodes to gives the string back |
| `Keys.EncodeInjective` | edgestore/src/types.rs:138-145 | two encoded keys are equal only for the same namespace and key |
| `Keys.EncodeMonotone` | edgestore/src/types.rs:138-145 | within a namespace encoding keeps the order, both ways |
| `Keys.EncodeOrder` | edgestore/src/types.rs:138-145 | across namespaces keys are ordered by the namespace's length, then its bytes, then the key |
| `Keys.PrefixUpperBound` | edgestore/src/types.rs:152-161 | the right-to-left loop computes the bound that the next two rows are about |
| `Keys.NoBoundIffAllOnes` | edgestore/src/types.rs:147-161 | there is no bound exactly when every byte is 0xFF |
| `Keys.PrefixRange` | edgestore/src/types.rs:147-161 | a string lies between a prefix and its bound exactly when it starts with the prefix |
| `Keys.EncodedPrefixRange` | edgestore/src/types.rs:138-175 | an encoded key lies in the prefix range exactly when its namespace matches and its key starts with the prefix |
| `Keys.RangeStaysInNamespace` | edgestore/src/engine/mod.rs:1175-1191 | everything between two keys of a namespace decodes to that namespace, between the two raw keys |
| `Merge.MergeForward` | edgestore/src/segment.rs:944-1027 | over any number of sorted cursors: the live highest-LSN records in ascending key order, cut to a prefix by the budget; the flag says exactly whether it was cut short |
| `MergeReverse.MergeBackward` | edgestore/src/segment.rs:1060-1153 | the tail-first merge returns the last live highest-LSN records in descending order |
| `Scan.PrunedIsEmpty` | edgestore/src/segment.rs:676-697 | a segment skipped by its key bounds holds nothing in range |
| `Scan.RangeScanBudgeted` | edgestore/src/segment.rs:926-1028 | pruning and merging together return the budgeted prefix of the highest LSN per key over all segments |
| `Scan.RangeScanRevBudgeted` | edgestore/src/segment.rs:1038-1154 | the mirrored order, cut at the page size |
| `Scan.MergeSortedScans` | edgestore/src/engine/mod.rs:1102-1124 | the two-pointer merge, once deduplicated, is the higher-LSN overlay of segments and memtable |
| `Paging.DedupFilterScan` | edgestore/src/engine/mod.rs:1126-1173 | groups of equal keys reduce to their highest LSN, tombstones go, and truncation is reported exactly |
| `Paging.RangeCore` | edgestore/src/engine/mod.rs:1175-1191 | the budgeted range is the budgeted prefix of the overlay of budgeted segments and memtable |
| `Paging.UnbudgetedIsView` | edgestore/src/engine/mod.rs:1091-1191 | without a budget a range is exactly the visible map of the window |
| `Pages.RangePage` | edgestore/src/engine/mod.rs:540-567 | a page and its cursor, for every page size including zero |
| `Pages.PageShowsView` | edgestore/src/engine/mod.rs:540-567 | without shadowing tombstones a page is the next visible records, and the last one exactly when no cursor comes back |
| `Pages.ChainPages` | edgestore/src/engine/mod.rs:540-567 | chaining pages ends and concatenates to exactly the range, nothing lost or repeated |
| `PagesReverse.RevPageShowsView` | edgestore/src/engine/mod.rs:578-663 | without shadowing tombstones a reverse page is the last visible records, downwards |
| `PagesReverse.RangeRevPage` | edgestore/src/engine/mod.rs:578-663 | the reverse page and its cursor, for every page size and every state |
| `PagesReverse.RevPageShows` | edgestore/src/engine/mod.rs:578-663 | without shadowing tombstones the pairs are the last visible ones, and the page is the last one exactly when no cursor comes back |
| `PagesReverse.ChainRevPages` | edgestore/src/engine/mod.rs:578-663 | chaining reverse pages ends and lists the range backwards |
| `PagingLimits.PageExact` | edgestore/src/engine/mod.rs:1175-1191 | a page is the first n visible records among those whose key is in the memtable or among the segments' first n live records |
| `PagingLimits.PageReturnsIff` | edgestore/src/engine/mod.rs:1175-1191 | visible record i is returned exactly when its key is one of these and fewer than n of them come before it |
| `PagingLimits.PageCompleteIff` | edgestore/src/engine/mod.rs:540-567 | a page is the next n visible records exactly when all of these have such keys |
| `PagingLimits.ChainStopsEarlyIff` | edgestore/src/engine/mod.rs:561-565 | a chain ends with visible records left over exactly when there are some and none of them has such a key |
| `PagingLimits.RevPageExact` | edgestore/src/engine/mod.rs:578-663 | a reverse page is the last n visible records among those whose key is in the memtable or among the segments' last n live records |
| `PagingLimits.RevChainStopsEarlyIff` | edgestore/src/engine/mod.rs:578-663 | a reverse chain ends early exactly when fewer than n visible records have such keys and some have not |
| `PagingLimits.DeletedKeyHidesNext` | edgestore/src/engine/mod.rs:1184-1190 | a memtable delete in front makes the first page jump over a visible segment key |
| `PagingLimits.DeletedKeyEndsChain` | edgestore/src/engine/mod.rs:561-565 | with the same delete and nothing behind, the first page is empty and carries no cursor although a key is visible |
| `Lsm.StepKeeps` | edgestore/src/engine/mod.rs:966-1325 | every write, rotation, flush phase and crash keeps the invariant tying memtable, readers and WAL to the history |
| `Lsm.ReadsAreLastWrites` | edgestore/src/segment.rs:907-1028 | point reads, newest reader first, and scans, highest LSN first, both read the last write per key |
| `Lsm.EveryRunReadsLastWrites` | edgestore/src/engine/mod.rs:966-1325 | in every reachable state both reads return the last write per key of the run, whatever flushes, rotations and crashes happened |
| `Lsm.SynchronousRunsAreDurable` | edgestore/src/engine/mod.rs:1239-1289 | with synchronous flushes the retained WAL always holds every record above the last flushed LSN |
| `Lsm.SynchronousCrashKeepsReads` | edgestore/src/engine/mod.rs:130-199 | after a synchronous run a crash leaves every key reading as the last write of the run |
| `Lsm.FinalizeDurableIff` | edgestore/src/engine/mod.rs:1270-1277 | finalizing keeps the WAL sufficient exactly when the files it deletes hold nothing newer than the snapshot |
| `Lsm.FinalizeCrashPointsLoseNothing` | edgestore/src/engine/mod.rs:1239-1279 | a crash between the steps of a finalize loses nothing, as long as the deleted files hold nothing newer than the segment |
| `Lsm.RotationSucceedsIff` | edgestore/src/engine/mod.rs:1353-1368 | creating the file named after the LSN succeeds and keeps the names ascending exactly when the active file's name is smaller |
| `Lsm.CounterRestoredIff` | edgestore/src/engine/mod.rs:130-199 | replay restores the LSN counter exactly when the WAL holds a record or nothing was written |
| `Lsm.CrashLosesNothingIff` | edgestore/src/recovery.rs:43-101 | a crash loses nothing exactly when every record neither flushed nor retained was overwritten by a retained one |
| `LsmLimits.EmptyWalCrashSplitsReads` | edgestore/src/engine/mod.rs:151-153 | a run after which a point read and a scan return different values |
| `LsmLimits.RotationInFlightLosesWrite` | edgestore/src/engine/mod.rs:1270-1277 | a run that loses an acknowledged write |
| `LsmLimits.ReopenRotationTakesName` | edgestore/src/engine/mod.rs:155-175 | a run after which the file name of the next rotation is taken |
| `LsmLimits.FailedWriteResurfaces` | edgestore/src/engine/mod.rs:991-992 | a write that failed in its rotation is read after the next replay |
| `LsmLimits.LateFlushKeepsReadsIff` | edgestore/src/engine/mod.rs:1239-1279 | registering an older snapshot last keeps point reads exactly when each of its keys rewritten in a reader meanwhile is in the memtable |
| `LsmLimits.LateFlushReadsOldValue` | edgestore/src/engine/mod.rs:1015-1018 | a run with overlapping flushes after which a point read returns the older value |
| `EngineObject.FindInReaders` | edgestore/src/segment.rs:907-914 | asking readers newest first gives the record of the last reader that has the key |
| `EngineObject.RecoverFromWal` | edgestore/src/recovery.rs:43-101 | replaying all files gives the last record per key and the highest LSN |
| `EngineObject.HighestLsn` | edgestore/src/segment.rs:775-791 | the highest LSN of a flush snapshot |
| `EngineObject.PrefixCore` | edgestore/src/engine/mod.rs:1193-1216 | exactly the visible records with the prefix when it has an upper bound, only the memtable's otherwise |
| `EngineObject.PrefixExactIff` | edgestore/src/engine/mod.rs:1193-1216 | a prefix read is exact exactly when the prefix has a bound or the memtable has all its live segment keys; otherwise it misses some |
| `EngineObject.PrefixMissesFlushed` | edgestore/src/engine/mod.rs:1193-1216 | a record that point reads find and prefix reads miss once it is flushed |
| `EngineObject.OpenDatabase` | edgestore/src/engine/mod.rs:130-199 | any files and segments are opened, or the reopen rotation finds its name taken; after a crash whose WAL suffices the run goes on |
| `EngineObject.Engine.Open` | edgestore/src/engine/mod.rs:130-199 | the state after opening any files; a new database starts an empty run, the files of a crashed run continue it |
| `EngineObject.Engine.RotateWal` | edgestore/src/engine/mod.rs:1353-1368 | a new file named after the LSN, or an error and no change |
| `EngineObject.Engine.WriteEntry` | edgestore/src/engine/mod.rs:966-1005 | one write appends one record with the next LSN to the history; if its rotation fails the memtable is unchanged |
| `EngineObject.Engine.PutWithTtl` | edgestore/src/engine/mod.rs:1022-1036 | the error cases change nothing, otherwise the put joins the history |
| `EngineObject.Engine.PutValue` | edgestore/src/engine/mod.rs:1007-1020 | a put may end in a flush and the history still gains exactly that put |
| `EngineObject.Engine.DeleteKey` | edgestore/src/engine/mod.rs:1054-1089 | a delete joins the history as a tombstone |
| `EngineObject.Engine.CommitTransaction` | edgestore/src/engine/mod.rs:1291-1325 | the pending operations join the history in order under consecutive LSNs |
| `EngineObject.Engine.BeginFlush` | edgestore/src/engine/mod.rs:1225-1230 | the snapshot is the memtable, which stays readable |
| `EngineObject.Engine.FinalizeFlush` | edgestore/src/engine/mod.rs:1239-1279 | the history, and so every read, is unchanged |
| `EngineObject.Engine.FlushToSegments` | edgestore/src/engine/mod.rs:1281-1289 | begin, write and finalize at once; an empty memtable is an error |
| `EngineObject.Engine.GetValue` | edgestore/src/engine/mod.rs:1038-1052 | returns the last write of the key in the history |
| `EngineObject.Engine.Range` | edgestore/src/engine/mod.rs:1091-1093 | returns exactly the live last writes of the history in range, decoded, in order |
| `EngineObject.Engine.Prefix` | edgestore/src/engine/mod.rs:1095-1216 | the live last writes whose keys start with the prefix, decoded, in order, exactly under the condition of `PrefixExactIff`; the memtable's otherwise |
| `SegmentCodec.ParseSerialized` | edgestore/src/segment.rs:35-105 | a serialized record followed by anything parses to the record and the rest |
| `SegmentCodec.EntryLayout` | edgestore/src/segment.rs:35-63 | which bytes of a record hold which field |
| `SegmentCodec.ParseBlock` | edgestore/src/segment.rs:565-606 | a serialized run of records parses to the run |
| `SegmentCodec.ReadBlockAt` | edgestore/src/segment.rs:363-381 | at a block's aligned offset the reader finds exactly that block and the next offset |
| `SegmentCodec.BlockReadsBackIff` | edgestore/src/segment.rs:363-381 | a written block reads back exactly when its records are no larger than the reader allows, and is corrupt otherwise |
| `SegmentFile.WriteDatAndIndex` | edgestore/src/segment.rs:248-290 | the file is the image of the records cut into blocks, each flushed as soon as it reaches the target size, and index entry t names record 64 t and the block that holds it |
| `SegmentFile.FindBlockOffset` | edgestore/src/segment.rs:549-562 | the chosen block is that of the last index key at or below the key, and has only smaller keys in front of it |
| `SegmentFile.GetRecord` | edgestore/src/segment.rs:471-505 | lookup is exact: the record of the key, or none |
| `SegmentFile.RangeScan` | edgestore/src/segment.rs:508-546 | the scan returns exactly the records with keys in range |
| `SegmentFile.SegmentCursor.constructor` | edgestore/src/segment.rs:676-697 | a cursor starts with nothing handed out, at a block with only smaller keys in front |
| `SegmentFile.SegmentCursor.Fill` | edgestore/src/segment.rs:700-724 | blocks are read until a record is buffered or the range is exhausted; it always ends |
| `SegmentFile.SegmentCursor.Pop` | edgestore/src/segment.rs:727-730 | records come out one by one, and when none is left exactly the slice has been handed out |
| `SegmentFile.Drain` | edgestore/src/segment.rs:660-731 | popping a cursor to the end terminates and yields exactly the slice |
| `SegmentFile.WriteThenRead` | edgestore/src/segment.rs:248-731 | write then read: exact lookup, exact scan, exact stream, for all sorted non-empty records that fit a block |
| `InMemory.FromBytes` | edgestore/src/segment/in_memory.rs:40-113 | parsing the bytes indexes the first key of every block and collects every key |
| `InMemory.GetInMemory` | edgestore/src/segment/in_memory.rs:116-197 | lookup through the first-key index is exact although it reads on after a hit |
| `InMemory.RangeInMemory` | edgestore/src/segment/in_memory.rs:200-268 | the scan returns exactly the records in range |
| `InMemory.ParseDatEntries` | edgestore/src/segment.rs:614-658 | parsing a written segment gives back its records |
| `Immutable.ReadBothWays` | edgestore/src/segment/in_memory.rs:40-268 | on the same bytes the disk reader and the in-memory reader agree on every lookup and scan |
| `Immutable.Get` | edgestore/src/immutable.rs:119-137 | the value of the highest LSN over all segments, tombstones giving none |
| `Immutable.Range` | edgestore/src/immutable.rs:143-268 | a pair is listed exactly when a point read of its key gives its value, each once and in order |
| `Replication.ReplicaEngine.WriteWithTimestamp` | edgestore/src/engine/replication.rs:221-307 | logged, then inserted: a fresh LSN, the record's own timestamp, no time to live; replaying the log still gives the memtable |
| `Replication.ReplicaEngine.ApplyIncoming` | edgestore/src/engine/replication.rs:127-154 | a record is applied only if newer than the local one and its key decodes |
| `Replication.ReplicaEngine.ImportSegment` | edgestore/src/engine/replication.rs:59-215 | the outcome and the new state; the memtable keeps mirroring the imported records and the log keeps replaying to it |
| `Replication.ImportKeeps` | edgestore/src/engine/replication.rs:59-215 | every imported key stays in the memtable with the latest write of all imported records |
| `Replication.EveryRecordCounted` | edgestore/src/engine/replication.rs:108-155 | written plus skipped is the number of records, and the LSN advances by the written ones |
| `Replication.GetIsLatest` | edgestore/src/engine/replication.rs:127-154 | a point read returns the value of the key's latest record |
| `Replication.ImportOrderIrrelevant` | edgestore/src/engine/replication.rs:59-307 | replicas fed the same payloads in any order, any number of times, read the same values |
| `Replication.OrderIrrelevantIff` | edgestore/src/engine/replication.rs:59-307 | every order of the payloads reads the same value at a key exactly when the payloads reaching its greatest timestamp write the same with it |
| `Replication.OrderIrrelevantIffGreatestAgree` | edgestore/src/engine/replication.rs:127-136 | for segments with one record per key: exactly when all records with the greatest timestamp write the same |
| `Replication.ReplicaReadsLatest` | edgestore/src/engine/replication.rs:59-307 | after any run of imports a key reads as the payload record with the greatest timestamp |
| `Replication.ScanAgreesIff` | edgestore/src/engine/replication.rs:127-209 | scans and point reads agree on a key exactly when no foreign LSN overtakes the memtable's record |
| `Replication.ReadsPrimaryView` | edgestore/src/engine/replication.rs:59-307 | if timestamps follow LSNs, the replica reads the highest LSN per key of the primary's segments |
| `Replication.ScanReadsPrimaryView` | edgestore/src/engine/replication.rs:59-307 | then scans show the same |
| `Replication.TiesDependOnOrder` | edgestore/src/engine/replication.rs:127-136 | with equal timestamps the first import wins |
| `Replication.ScanShowsOldWrite` | edgestore/src/engine/replication.rs:127-209 | imports after which a scan shows an older write than a point read |
| `AntiEntropy.SameHashesSameRoot` | edgestore/src/engine/replication.rs:320-338 | the root does not depend on the order of the segments |
| `AntiEntropy.SameRootSameHashes` | edgestore/src/engine/replication.rs:320-347 | equal roots mean equal hash lists up to order |
| `AntiEntropy.PullPending` | edgestore-repl/src/anti_entropy.rs:207-300 | pending ends as the missing hashes minus those resolved, and the total counts the accepted ones |
| `AntiEntropy.RunOnce` | edgestore-repl/src/anti_entropy.rs:117-307 | what each early return leaves alone, and the state after a full cycle |
| `AntiEntropy.PulledHashes` | edgestore-repl/src/anti_entropy.rs:207-300 | exactly the accepted hashes join the list, without repetition, and the mirror invariant holds |
| `AntiEntropy.CycleUnites` | edgestore-repl/src/anti_entropy.rs:151-307 | against a peer that serves everything the hash set becomes the union and nothing stays pending |
| `AntiEntropy.CycleConverges` | edgestore/src/engine/replication.rs:309-347 | a replica that held nothing the peer lacks ends with the peer's root |
| `AntiEntropy.CycleReadsPrimary` | edgestore-repl/src/anti_entropy.rs:151-307 | after the cycle the replica reads the peer's flushed view |
| `Manifest.ManifestFile.AddSegment` | edgestore/src/manifest.rs:148-158 | the list gains the segment and stays the replay of the log |
| `Manifest.ManifestFile.RemoveSegments` | edgestore/src/manifest.rs:161-173 | the list loses exactly the ids and stays the replay of the log |
| `Manifest.ReplayLog` | edgestore/src/manifest.rs:82-136 | the replay loop |
| `Manifest.ReplayRemovals` | edgestore/src/manifest.rs:161-173 | removing ids one by one in the log equals dropping them at once |
| `Compaction.MetaRecords` | edgestore/src/segment.rs:310-316 | a segment is listed under its first record's bucket and with a death time that bounds every record's and is one of them |
| `Compaction.BucketSpan` | edgestore/src/types.rs:110-124 | bucket b spans the seconds from b windows on to the next bucket's; a record with a time to live belongs where it ends |
| `Compaction.EndOfLife` | edgestore/src/types.rs:126-135 | a record dies when its time to live, or else the cohort window, is over, but not after the end of time |
| `Compaction.LiveKeysKeep` | edgestore/src/compactor.rs:267-324 | a key whose highest-LSN record is an unexpired put keeps it |
| `Compaction.ScanKeepsLiveKeys` | edgestore/src/compactor.rs:267-324 | a range scan returns such a record before and after |
| `Compaction.RewriteRetains` | edgestore/src/compactor.rs:221-232 | once the survivors are listed, removing any part of the cohort loses only its tombstones, its dead records and those shadowed within it |
| `Compactor.KeysBelowTop` | edgestore/src/compactor.rs:168-170 | the compactor's full scan covers every key of a namespace shorter than 65535 bytes |
| `Compactor.IdentifyCohorts` | edgestore/src/compactor.rs:74-110 | one cohort per bucket, with its latest death time, fully expired ones first |
| `Compactor.MergeCohort` | edgestore/src/compactor.rs:165-177 | the highest LSN of every key the full scans of the cohort's segments return |
| `Compactor.SurvivorsSurvive` | edgestore/src/compactor.rs:179-191 | exactly the live puts that nothing in the cohort shadows survive |
| `CompactionCycle.Store.CollectExpired` | edgestore/src/compactor.rs:115-148 | manifest, log and files lose exactly the cohort |
| `CompactionCycle.Store.CompactPartial` | edgestore/src/compactor.rs:155-257 | the survivors become one new segment, listed with their latest death time before the old ones are removed |
| `CompactionCycle.Store.Flush` | edgestore/src/segment.rs:293-357 | lists a flushed segment and keeps listed death times bounding the records |
| `CompactionCycle.CycleKeepsBounded` | edgestore/src/compactor.rs:221-232 | a cycle keeps listed death times bounding the records, written segments included |
| `CompactionCycle.EveryCrashPointKeepsSurvivors` | edgestore/src/compactor.rs:221-248 | wherever the manifest log ends inside a rewrite, the listed segments hold every survivor and everything outside the cohort |
| `CompactionCycle.ExpiredIsDead` | edgestore/src/compactor.rs:115-148 | every record of a fully expired cohort is dead, if death times bound the records |
| `CompactionCycle.CompactCycle` | edgestore/src/compactor.rs:267-324 | which segments are left and what the new ones hold; every bucket is visited at most once, no visit starts once the bytes written reach the budget, and each statistic is the sum over the visits |
| `CompactionCycle.CycleExact` | edgestore/src/compactor.rs:267-324 | a record is listed after a cycle exactly when an untouched segment holds it or it survives its own cohort |
| `CompactionCycle.CycleLosesOnly` | edgestore/src/compactor.rs:267-324 | a lost record was in an unpinned segment of a visited bucket, and was a tombstone, dead or shadowed within that cohort, or the cohort counted as expired |
| `CompactionCycle.CycleRetains` | edgestore/src/compactor.rs:267-324 | with bounding death times only tombstones, dead records and those shadowed within their cohort are lost |
| `CompactionCycle.CycleKeepsScans` | edgestore/src/compactor.rs:267-324 | then a range scan returns every unexpired record before and after a cycle |
| `CompactionLimits.DroppedKeyFallsThrough` | edgestore/src/compactor.rs:185-187 | a key whose newest cohort record is dropped shows what the other segments hold |
| `CompactionLimits.DeletedStaysDeletedIff` | edgestore/src/compactor.rs:185-187 | a deleted key reads as deleted after the rewrite exactly when no put is newest outside the cohort |
| `CompactionLimits.DeletedKeyComesBack` | edgestore/src/compactor.rs:185-187 | after any cycle that visits the tombstone's bucket the deleted key reads as the earlier put |
| `CompactionLimits.LiveRecordLostIff` | edgestore/src/compactor.rs:267-324 | a live unshadowed record of one bucket is lost exactly when there is budget and the bucket's latest listed death time has passed |
| `CompactionLimits.TtlDecides` | edgestore/src/types.rs:126-135 | an unshadowed put with a time to live is listed after a cycle exactly when its bucket was not visited or its time is not over |
| `CompactionLimits.ImportThenCompact` | edgestore/src/engine/replication.rs:169-186 | importing a live record and running a cycle leaves no record |
| `Snapshots.SnapshotRegistry.Register` | edgestore/src/snapshot.rs:45-51 | pins the ids under a new snapshot id |
| `Snapshots.SnapshotRegistry.Release` | edgestore/src/snapshot.rs:56-59 | drops exactly that snapshot's pins |
| `Snapshots.PinSet` | edgestore/src/snapshot.rs:62-77 | an id is pinned exactly when some live snapshot holds it |
| `Snapshots.SnapshotRegistry.PinnedIds` | edgestore/src/snapshot.rs:70-77 | the ids that compaction must not touch |
| `Snapshots.SnapshotGet` | edgestore/src/snapshot.rs:119-137 | the highest LSN over the pinned segments |
| `Snapshots.SnapshotRange` | edgestore/src/snapshot.rs:143-245 | a pair is listed exactly when a point read of the snapshot gives it |
| `Snapshots.StepKeeps` | edgestore/src/compactor.rs:275-321 | flushes, compactions, takes and releases keep pinned segments listed and ids to come fresh |
| `Snapshots.SnapshotStable` | edgestore/src/snapshot.rs:45-252 | over every run a live snapshot's segments hold the same records |
| `Snapshots.OnlyReleaseUnpins` | edgestore/src/snapshot.rs:247-252 | only its own release ends a snapshot, whatever happens to overlapping ones |
| `Snapshots.SnapshotReadsStable` | edgestore/src/snapshot.rs:45-252 | until released a snapshot reads what it read at the start of the run |
| `Snapshots.TakeReads` | edgestore/src/engine/mod.rs:747-760 | a snapshot just taken reads what the listed segments hold |
| `Snapshots.SnapshotReadsTaken` | edgestore/src/snapshot.rs:45-252 | until released its point reads and ranges answer as the listed segments did when it was taken |
| `Snapshots.FlushedIsBounded` | edgestore/src/segment.rs:310-316 | in a store fed by flushes every listed death time bounds the segment's records, over any run with compactions |
| `Snapshots.FlushedKeepsScans` | edgestore/src/compactor.rs:267-324 | there no cycle takes an unexpired record out of a range scan |
| `Framing.ReadAll` | edgestore/src/wal.rs:287-346 | the frame loop, with its stops and skips |
| `Framing.FrameLayout` | edgestore/src/wal.rs:242-255 | checksum, length and payload of a frame lie in this order, little-endian |
| `Framing.ReadsLeading` | edgestore/src/wal.rs:302-309 | a reader returns exactly the payloads in front of the first one over its limit |
| `Framing.CompleteIsMaximal` | edgestore/src/wal.rs:287-346 | the number of complete frames is the largest that fits |
| `Framing.TruncatedFrames` | edgestore/src/wal.rs:287-346 | a file of frames cut anywhere yields exactly the payloads of its complete frames |
| `Framing.AppendAtBoundary` | edgestore/src/wal.rs:211-217 | behind complete frames every appended record is read back |
| `Framing.ReadTornPayload` | edgestore/src/wal.rs:287-346 | what is read behind a frame cut inside its payload, for every checksum and every continuation |
| `Framing.AppendBehindTornPayload` | edgestore/src/wal.rs:211-217 | unless the checksum of the mixed payload happens to match: of the records appended there none is read while they are shorter than the missing bytes, the ones behind the missing bytes if these end at a boundary, and never all of them |
| `Framing.AppendBehindTornHeader` | edgestore/src/wal.rs:211-217 | behind a torn header the appended records are read back exactly when the bytes begin with their frames anyway |
| `Wal.RecordRoundTrip` | edgestore/src/wal.rs:27-124 | deserializing a serialized record within field bounds is the identity |
| `Wal.HeadLayout` | edgestore/src/wal.rs:21-56 | which bytes of a record hold transaction, LSN, timestamp, time to live and operation |
| `Wal.TailLayout` | edgestore/src/wal.rs:21-56 | which bytes hold namespace, key, value hash and value, and their lengths |
| `Wal.WalWriter.Append` | edgestore/src/wal.rs:242-255 | the file stays the framed log of its records, and the byte count its length |
| `Wal.ReadRecords` | edgestore/src/wal.rs:278-346 | a bad header is an error, otherwise the records of the readable frames |
| `Wal.TruncatedLog` | edgestore/src/wal.rs:287-346 | a log cut anywhere past its header yields exactly the records of its complete frames, in order |
| `Wal.WholeLog` | edgestore/src/wal.rs:242-346 | an uncut log yields all its records |
| `Wal.LogReadsLeading` | edgestore/src/wal.rs:242-346 | an uncut log yields the records in front of the first oversized one, hence all of them exactly when none is oversized |
| `ManifestBytes.OpenManifest` | edgestore/src/manifest.rs:50-145 | a bad header is an error, otherwise the replay of the readable entries |
| `ManifestBytes.TruncatedManifest` | edgestore/src/manifest.rs:50-145 | a manifest cut anywhere past its header opens to the list after a prefix of its entries |
| `ManifestBytes.ReopenedManifest` | edgestore/src/manifest.rs:24-173 | reopening an intact manifest replays its whole log |
| `HnswSearch.SearchLayer` | edgestore/src/vector/hnsw.rs:122-183 | terminates; distinct reachable nodes in distance order, as many as the beam is wide or can be reached; no link of a result leads to a nearer node left out |
| `HnswSearch.WideBeamFindsAll` | edgestore/src/vector/hnsw.rs:122-183 | a beam as wide as what can be reached finds all of it |
| `Hnsw.Prune` | edgestore/src/vector/hnsw.rs:306-331 | keeps exactly the nearest neighbours, in order |
| `Hnsw.SelectNeighbors` | edgestore/src/vector/hnsw.rs:339-405 | diverse candidates first and in order, then passed-over ones in order, as many as fit; whatever is left out is nearer to a pick in front of it than to the node, or came after a full list |
| `Hnsw.ReachOnLayer` | edgestore/src/vector/hnsw.rs:229-302 | whatever a layer's links lead to is on that layer |
| `Hnsw.LinkAll` | edgestore/src/vector/hnsw.rs:277-289 | the node links exactly the selected ones, each of these links back or keeps its m nearest, and no other list changes |
| `Hnsw.LinksBackUnlessFull` | edgestore/src/vector/hnsw.rs:306-331 | a neighbour that does not link back holds m neighbours, all at least as near to it |
| `Hnsw.DescentComesNearer` | edgestore/src/vector/hnsw.rs:259-266 | every node on the way down is at least as near as the entry point |
| `Hnsw.HnswIndex.Insert` | edgestore/src/vector/hnsw.rs:229-302 | on every shared layer the new node links min(m, found) neighbours selected from a search there, started at the best node of the layer above; these link back or stay full, every other list is unchanged, and the graph invariant is kept |
| `Hnsw.HnswIndex.Search` | edgestore/src/vector/hnsw.rs:188-224 | a greedy step per layer from the entry point, then the first k results of a search on layer 0 |
| `Hnsw.AnswersAreBest` | edgestore/src/vector/hnsw.rs:188-224 | as many answers as asked for or as can be reached, locally best, and the exact nearest of the reachable nodes for a wide beam |
| `Bloom.Insert` | edgestore-text/src/text/bloom.rs:134-160 | exactly the item's probe positions are set in addition; it is contained afterwards and nothing contained is lost |
| `TextIndexing.RebuildBloom` | edgestore-text/src/text/index.rs:61-69 | a rebuilt filter has exactly the probe positions of the posted documents, and the larger capacity |
| `TextIndexing.InvertedIndex.BloomInsert` | edgestore-text/src/text/index.rs:76-81 | a saturated filter is doubled and rebuilt first; only the document's bits are added, and every posted document stays covered |
| `TextIndexing.InvertedIndex.AddDocument` | edgestore-text/src/text/index.rs:115-147 | the index of the larger set: every posting counts its term's tokens and lists their positions in order, and a document's frequencies sum to its length |
| `TextPostings.MatchingDescribes` | edgestore-text/src/text/index.rs:127-143 | in any index of a set of documents each posting has the multiplicity and the positions of its term, and every term of a document has one |
| `TextPostings.FrequenciesAddUp` | edgestore-text/src/text/index.rs:127-147 | the frequencies of a document's postings sum to its length |
| `TextIndexing.InvertedIndex.RemoveDocument` | edgestore-text/src/text/index.rs:85-112 | postings and length of the smaller set; the count stays one too high for a document without tokens; the underflow asserts never fire |
| `TextPostings.RemovalExactIff` | edgestore-text/src/text/index.rs:85-112 | removal keeps the surplus of the count exactly when the document is absent or has a token, and adds one otherwise |
| `TextIndexing.IndexTwice` | edgestore-text/src/lib.rs:114-141 | indexing a document twice counts it twice exactly when it has no token; a rebuild counts it once |
| `TextPostings.SameDocumentsSamePostings` | edgestore-text/src/text/index.rs:85-147 | two indexes of the same documents have the same postings up to order |
| `TextIndexing.TextIndex.RebuildFromEngine` | edgestore-text/src/lib.rs:394-418 | the rebuilt index is that of the stored documents, the sidecar skipped |
| `TextIndexing.TextIndex.EnsureLoaded` | edgestore-text/src/lib.rs:379-387 | a missing index is rebuilt, a cached one kept |
| `TextIndexing.TextIndex.IndexDocument` | edgestore-text/src/lib.rs:114-141 | the cached index follows the stored documents through a new or replaced document, and the surplus grows exactly by a replaced document without tokens |
| `TextIndexing.TextIndex.DeleteDocument` | edgestore-text/src/lib.rs:144-169 | ... and through a deletion; cache and sidecar go with the last document exactly when there is no surplus |
| `TextIndexing.TextIndex.Persist` | edgestore-text/src/lib.rs:351-373 | writing the sidecar changes no document |
| `TextIndexing.TextIndex.CompareWithRebuilt` | edgestore-text/src/lib.rs:379-418 | at any time the cached index and a rebuilt one have equal lengths and equal postings up to order, and counts that differ by the surplus |
| `Levenshtein.Distance` | edgestore-text/src/text/typo.rs:5-38 | the two-row program computes the recursive distance |
| `Levenshtein.ShortScript` | edgestore-text/src/text/typo.rs:5-38 | there is an edit script of that length |
| `Levenshtein.NoShorterScript` | edgestore-text/src/text/typo.rs:5-38 | no edit script is shorter |
| `Levenshtein.LevZero` | edgestore-text/src/text/typo.rs:5-38 | the distance is zero exactly for equal strings |
| `Levenshtein.LevSymmetric` | edgestore-text/src/text/typo.rs:5-38 | the distance is symmetric |
| `Levenshtein.LevTriangle` | edgestore-text/src/text/typo.rs:5-38 | the triangle inequality |
| `Levenshtein.IsOneEditAway` | edgestore-text/src/text/typo.rs:41-43 | true exactly when the strings are equal or one edit apart |

## Left out

- HTTP client and server, S3 and filesystem stores, wire types, the tokio wrapper and the command line: plumbing.
- edgestore-tier, RangeMerkleTree, write tokens, retries, facets, BM25 scoring, snippets: they take no part in what is stored, replicated, compacted or indexed here.
- strip_text_index, strip_vector_index, prune_local_segment, replace_segment: they ignore pins and reorder readers.
- 64-bit overflow of LSNs, ids and counters is not modelled: they are unbounded.
- Byte counts, metrics, query statistics, callbacks, file locks, fsync timing and I/O errors.
- Atomicity of a transaction across a crash: commit writes no marker, so there is nothing to state.
- The files `.xf`, `.idx` and `.meta` as bytes, and the one-entry index that an import writes: readers get the index and the bounds as values, and the written index is the sparse one.
- HNSW serialization, distance errors for vectors of different dimensions, NaN distances; every search in the source starts from one entry point, and so does the model's.
- The text index is modelled for one namespace; namespaces share nothing but the map that holds them. Its sidecar is a marker, because it is never read back.
- A peer's answers are fixed during one anti-entropy cycle; the watermark request and the archive upload are not modelled.
- Compaction and flush do not overlap in `Snapshots`: a flush takes its id and registers its segment in one step.
- EngineObject.Engine.GetValue: reads the segments as record lists, because the byte-level readers are proved exact separately in `SegmentFile`.
- Scan.RangeScanBudgeted: takes each segment's slice as a list, because `SegmentFile.Drain` proves that the cursor yields exactly that list.
- Compactor.MergeCohort: keys at or above the end of the full scan (256 bytes of 0xFF) and records with LSN 0 are not taken up, as in the source; the theorems about cycles are about files that hold neither, and `KeysBelowTop` says which namespaces have no such keys.
- EngineObject.Engine.FinalizeFlush: takes the snapshot begun last; finalizing one that a later snapshot superseded is described on states only, by `LsmLimits.LateFlushKeepsReadsIff`.
- EngineObject.Engine.CommitTransaction: a commit without writes whose rotation is due while the active file is still the empty one of the reopen rotation is not modelled.
- EngineObject.Engine.WriteEntry: a write after one that failed in its rotation is not modelled; the theorems go on after the next replay.
- EngineObject.Engine.Open: a crash that leaves an empty or insufficient WAL has the state of `OpenDatabase`, but no run that the reads are proved against; what such a crash loses is said by `Lsm.CounterRestoredIff` and `Lsm.CrashLosesNothingIff`.
- Replication.ReplicaEngine.WriteWithTimestamp: log files have no names here; taken names are the subject of `EngineObject.Engine.RotateWal`.
- SegmentFile.WriteDatAndIndex: asks for records that keep every block within what the reader allows; `SegmentCodec.BlockReadsBackIff` says what happens to a block over it.
- Manifest entries over 1 MB, which the writer refuses, do not occur in `ManifestBytes`.
- TextIndexing.TextIndex.IndexDocument: the key `__index__`, which the source accepts and a rebuild then skips, is excluded.
