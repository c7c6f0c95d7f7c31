# Verified models for CHASE

A Dafny model of the parts of this repository whose correctness takes more than reading one function, with proofs of
what they promise. CHASE is a fork of the Sui code base with a scheduler of its own; the models cover, in that order
of weight:

- **The checkpoint archive** (`sui-archival`, `sui-storage`). The byte formats, the writer as a class, the whole
  protocol as a transition system (one writer, one uploader, a remote store, crashes and restarts at any point), and
  the reader with the store it fills. The main results hold for every reachable state and every run: the remote
  archive is always complete, only grows, restarts exactly where it can, and whatever was written is read back
  checkpoint by checkpoint.
- **The CDS scheduler** (`sslab-execution/chase`). Re-executed first-fit epochs are serializable whatever order
  commits land in. The first pass commits effects that were all computed on the state before the batch: each of its
  outcomes is found, and exactly when there is only one, when all are serial in the order of the schedule, and when
  all are serial in some order; the code checks none of the three. Dependency chains fail exactly on cycles; parallel
  chains are deterministic exactly when no key is written in two of them; re-executed transactions that pass
  validation are serializable exactly when their stale reads have no cycle.
- **The metered channel** (`mysten-metrics`): what the gauge shows, over every interleaving of senders and receiver.
- **The quorum client** of the benchmark: success and gauges over every reply order, and over every interleaving of
  any number of concurrent calls.
- **Genesis token distribution**: conservation of the supply, in builds that trap overflow and in builds that wrap.
- **The package graph** of the execution layer's encapsulation check, **heap-size measurement**, and the **median**.

Each file names the component it models. `Blob.dfy`, `Archive*.dfy`: the archive, from bytes (`Blob`, `ArchivePath`,
`Archive`) over the writer and the protocol (`ArchiveWriter`, `ArchiveProtocol`, `ArchiveSafety`) to the reader
(`ArchiveReader`, `ArchiveEndToEnd`, `ArchiveCoverage`), and `ArchiveWitness`, which meets every assumption of the
others. `Cds*.dfy`: the scheduler. `CdsCommit` and `CdsSerial` hold what its parts share: committing effects, and when
that is serial. `CdsChains` and `CdsInterleavings` are the conflict-free zone, `CdsEpochs` the epochs, `CdsFirstPass`
the first pass put together, `CdsAnomalies` where it is not serializable, `CdsValidation` the check of re-executed
transactions. `QuorumClient` is one client, `QuorumRuns` many calls at once. `Options` and `Orderings` hold what
several components use: options, 64-bit words, orders and cycles. `dafny verify dfyconfig.toml` checks everything.

## How to read the models

- Functions named `...Spec` (and `Step`, `Replay`, `Crawl`) say what an operation does; the class methods and loops
  beside them are proved to refine them, and the lemmas are about them.
- BCS, zstd, SHA3, digests and signatures are fields of `Archive.Env`. The only assumptions on them are in
  `Archive.Sound` and `Blob.Faithful`: decoding undoes encoding, decompression undoes compression, digests have 32
  bytes. A valid chain (`ArchiveSegments.ValidChain`) has nothing in it that takes 2^64 bytes to encode. No result
  needs hashing to be injective. `ArchiveWitness` shows that all of this can hold at once.
- Clocks, randomness and the network are inputs: `elapsed` for the commit timer, any pivot for the sort, replies as
  sequences in order of arrival, any leftover in a staging directory after a crash.
- A panic of the source is a value (`Panicked`, `None`, `false`), so that "never panics" and "panics exactly when" can
  be stated.

## Where the code and its comments differ

The models follow the code, and the difference is proved.

- `ArchiveWriter::start` takes a store without directories for an empty one and otherwise insists on a manifest. A
  crash between the first upload and the first manifest is therefore final (`ArchiveSafety.CrashBeforeFirstManifest`).
- `read` promises to load as many checkpoints as the archive has in range. A data file that ends early is not noticed
  (`ArchiveCoverage.ShortFileAccepted`); exactly when success means the whole range is
  `ArchiveCoverage.OkMeansAllExactly`.
- `Packages::graph` is documented as the transitive dependency sub-graph; it keeps one edge per package
  (`PackageGraph.KeepsEveryEdge`), so the encapsulation check can miss a bypass
  (`PackageGraph.SharedDependencyMissed`); it misses none exactly under `PackageGraph.MissesNothingExactly`.
- `find_minimum_epoch` is documented as excluding read-write conflicts; an earlier reader is not looked at
  (`CdsEpochs.EpochConflictsExactly`). Re-executed epochs are serializable nevertheless
  (`CdsEpochs.EpochsSerializable`).
- The finalized conflict zone is scheduled like the re-executed one, but its effects stem from the state before the
  batch: an update can be lost (`CdsAnomalies.LostUpdate`). Chains that write a common key race, and the outcome need
  not be that of any serial order (`CdsAnomalies.RaceUnserializable`). Exactly when every outcome is serial is
  `CdsFirstPass.PassExactly`, in the order of the schedule `CdsFirstPass.PassInOrderExactly`.
- `extract_conflict_free_chains` is documented as serializing read-write dependencies within a chain. The effects it
  orders were computed before any of them was applied, so a dependent never sees what it depends on
  (`CdsFirstPass.ChainOrderExactly`).
- `_execute` describes re-executed transactions with changed key sets as invalidated; only clashing writes are
  (`CdsValidation.SerialExactly`, `CdsValidation.WriteSkew`).
- `IndexMap::size_of` adds a fold to the value the fold started from (`HeapSize.IndexMapCountsTwice`).
- The comment on token distribution promises totals of 10 billion SUI; a build without overflow checks accepts others
  (`Genesis.WrappedTotalAccepted`, `Genesis.NewForValidators`).

## Model

| member | source | states |
|---|---|---|
| Blob.BlobRoundTrip | crates/sui-storage/src/blob.rs:42-68 | blobs are self-delimiting: a written blob followed by any bytes reads back as its data and exactly those bytes |
| Blob.BlobExactly | crates/sui-storage/src/blob.rs:42-55 | arbitrary bytes hold a blob exactly if the varint ends in time at a length above 0, the encoding byte is right and that many bytes follow; data and rest are those bytes |
| Blob.VarintRoundTrip | crates/sui-storage/src/blob.rs:43-60 | every length below 128^k is read back from its varint of at most k bytes, with the rest of the input untouched |
| Blob.VarintExactly | crates/sui-storage/src/blob.rs:42-43 | arbitrary bytes hold a varint exactly if some byte within the limit is below 128, and it is the number that the digits up to there make |
| Blob.BlobSizeIsLength | crates/sui-storage/src/blob.rs:56-74 | the size the writer plans with is the number of bytes it later writes |
| Blob.ReadAllWriteAll | crates/sui-storage/src/blob.rs:78-101 | iterating over a blob file yields exactly the values written to it, in order, and stops at its end |
| Blob.ReadAllStops | crates/sui-storage/src/blob.rs:91-101 | what cannot be read or decoded ends the iteration: the values before it are yielded, and nothing behind it |
| Archive.FinishedFileRoundTrip | crates/sui-storage/src/lib.rs:99-145 | a finished file, compressed or not, is accepted under its own magic number and yields exactly its values |
| Archive.OpenedExactly | crates/sui-storage/src/lib.rs:110-134 | arbitrary bytes are opened exactly if they start with a whole header of the expected magic, the blob format and a known compression that can be undone |
| ArchivePath.FilePathInjective | crates/sui-archival/src/lib.rs:117-131 | files that differ in epoch, first checkpoint or type have different paths |
| ArchivePath.EpochDirExact | crates/sui-archival/src/writer.rs:303-306 | a data file lies in the directory of its own epoch and of no other, so removing `epoch_1` leaves `epoch_10` alone |
| ArchivePath.OnlyDataFilesInDirectories | crates/sui-archival/src/writer.rs:352-358 | a data file makes its store look non-empty to `start`; the manifest alone does not |
| ManifestCodec.ManifestRoundTrip | crates/sui-archival/src/lib.rs:243-288 | every manifest survives being written and read back |
| ManifestCodec.AcceptedManifest | crates/sui-archival/src/lib.rs:243-272 | arbitrary bytes are accepted only with the magic in front, the digest of everything before it at the end, and a decodable blob in between |
| ManifestCodec.AcceptedExactly | crates/sui-archival/src/lib.rs:243-272 | arbitrary bytes are accepted as a manifest if and only if all of that is so |
| ArchiveWriter.CheckpointWriter.constructor | crates/sui-archival/src/writer.rs:73-120 | a new writer opens an empty pair of files at the manifest's next checkpoint and has cleared that epoch's staging directory |
| ArchiveWriter.CheckpointWriter.OpenFiles | crates/sui-archival/src/writer.rs:249-290 | both files of the current range start are created with their headers, whatever was staged under those names |
| ArchiveWriter.CheckpointWriter.Finalize | crates/sui-archival/src/writer.rs:186-221 | the staged file is the compressed buffer, and the metadata carries its digest, epoch and range |
| ArchiveWriter.CheckpointWriter.Cut | crates/sui-archival/src/writer.rs:222-237 | refines the cut function: nothing on an empty range, otherwise both files finished, the manifest extended by both, and both handed over |
| ArchiveWriter.CheckpointWriter.Reset | crates/sui-archival/src/writer.rs:291-302 | refines the reset function: an empty range at the old end, fresh files, the offset back at the magic length |
| ArchiveWriter.CheckpointWriter.MoveToNextEpoch | crates/sui-archival/src/writer.rs:142-155 | refines the epoch change: cut, next epoch, its directory cleared, reset |
| ArchiveWriter.CheckpointWriter.Append | crates/sui-archival/src/writer.rs:174-184 | both blobs are appended before the range end is found to overflow, which is an error and not a panic |
| ArchiveWriter.CheckpointWriter.Write | crates/sui-archival/src/writer.rs:132-185 | refines the write function in all its outcomes: each failed assertion, each overflow error, each cut; with the epoch unchanged, the timer running and room for the blob nothing is cut, handed over or staged |
| ArchiveWriter.CutsExactly | crates/sui-archival/src/writer.rs:166-172 | on a valid chain a successful write hands over the open files if and only if they hold something and the timer expired, the epoch changed or the blob does not fit beside those already there; then new files start at the old end, with the offset of the magic number, and otherwise range start, offset and staging stay |
| ArchiveWriter.WriteStatusExactly | crates/sui-archival/src/writer.rs:132-184 | in any state, a write of anything panics exactly on a wrong number, epoch or digest, and fails exactly when the epoch or the range has no next number |
| ArchiveWriter.CheckpointWriter.TailCheckpoints | crates/sui-archival/src/writer.rs:399-435 | on a valid chain the tail loop never trips an assertion, keeps the writer invariant over any number of turns, and its cursor stays at the writer's range end; it writes only what is visible, and a turn without a write means nothing was |
| ArchiveWriter.NewEstablishes | crates/sui-archival/src/writer.rs:73-120 | started from any manifest of the archive, with any leftovers in staging, the writer satisfies its invariant, with an empty range and an offset of 0 |
| ArchiveWriter.StartsCleared | crates/sui-archival/src/writer.rs:148-155 | a new writer, and one that moves to the next epoch, has exactly the two open files of its epoch staged, whatever was left there |
| ArchiveWriter.ClearsEpoch | crates/sui-archival/src/writer.rs:150-153 | clearing a directory removes all files of that epoch and no others |
| ArchiveWriter.OpensPair | crates/sui-archival/src/writer.rs:249-290 | opening creates the two files of the range start, each with its header, and touches no other file |
| ArchiveWriter.CutHandsOver | crates/sui-archival/src/writer.rs:186-248 | a cut stages exactly the two finished files of the open range, extends the tiling by that range, and touches nothing staged for earlier ranges |
| ArchiveWriter.CutResetKeeps | crates/sui-archival/src/writer.rs:169-172 | after cut and reset the open range is empty, starts where the listed ranges end, and its offset is that of the magic number |
| ArchiveWriter.NextEpochKeeps | crates/sui-archival/src/writer.rs:142-155 | an epoch change keeps the invariant in the next epoch and destroys no file that is still to be uploaded |
| ArchiveWriter.AppendKeeps | crates/sui-archival/src/writer.rs:174-184 | appending the next checkpoint of the epoch keeps the open files equal to the open range, within the commit size or with one checkpoint only |
| ArchiveWriter.WriteKeeps | crates/sui-archival/src/writer.rs:132-185 | every write of the next checkpoint of a valid chain keeps the invariant, fails only at the end of the 64-bit range, and hands over at most the open range |
| ArchiveWriter.TimerForcesCut | crates/sui-archival/src/writer.rs:166-172 | once the commit duration has passed, a write hands over whatever was open, even across an epoch change |
| ArchiveSegments.StartsIncrease | crates/sui-archival/src/writer.rs:291-302 | ranges of an archive start at strictly increasing checkpoints |
| ArchiveSegments.ManifestFiles | crates/sui-archival/src/lib.rs:170-186 | the manifest of a list of ranges is, per range and in order, its content file and its summary file |
| ArchiveProtocol.DequeueKeeps | crates/sui-archival/src/writer.rs:445-452 | taking the next update keeps the invariant that queued updates list successive ranges |
| ArchiveProtocol.UploadSummaryKeeps | crates/sui-archival/src/writer.rs:452-460 | the staged summary file is there to upload, and uploading it disturbs neither archived nor queued ranges |
| ArchiveProtocol.UploadContentKeeps | crates/sui-archival/src/writer.rs:462-470 | the same for the content file, uploaded second |
| ArchiveProtocol.PutManifestKeeps | crates/sui-archival/src/writer.rs:472-478 | putting the manifest moves exactly the uploaded range into the archived part |
| ArchiveProtocol.CrashKeeps | crates/sui-archival/src/writer.rs:347-397 | a crash at any point forgets only what was not archived, whatever it leaves in staging |
| ArchiveProtocol.StartResumes | crates/sui-archival/src/writer.rs:352-367 | what is archived decides what `start` resumes from |
| ArchiveProtocol.RestartKeeps | crates/sui-archival/src/writer.rs:347-397 | a restart that succeeds re-establishes the invariant exactly at the end of the archived ranges |
| ArchiveProtocol.WriteStepKeeps | crates/sui-archival/src/writer.rs:412-429 | a write step keeps the invariant of the whole system, with at most one more range on its way |
| ArchiveProtocol.StepKeeps | crates/sui-archival/src/writer.rs:347-499 | every step of every kind keeps the invariant, and archived ranges stay archived |
| ArchiveSafety.ArchiveAlwaysComplete | crates/sui-archival/src/writer.rs:437-487 | in every reachable state the remote manifest, once there is one, is readable and lists complete pairs: both files present, digests right, contents exactly the chain's checkpoints, one epoch each, tiling 0 to its next checkpoint |
| ArchiveSafety.ArchiveOnlyGrows | crates/sui-archival/src/writer.rs:437-499 | along every run, crashes and restarts included, the manifest's file list is only appended to, its next checkpoint never decreases, and no listed file ever changes |
| ArchiveSafety.NoListedFileOverwritten | crates/sui-archival/src/writer.rs:489-499 | no upload in any reachable state targets a listed file |
| ArchiveSafety.NothingPanics | crates/sui-archival/src/writer.rs:132-185 | in no reachable state does a writer assertion fail or an uploader miss a staged file |
| ArchiveSafety.RestartExactly | crates/sui-archival/src/writer.rs:347-397 | with nothing running, a restart succeeds if and only if the store has a manifest or no directory; it then resumes at the manifest's next checkpoint or at genesis, with exactly its two open files staged for the epoch |
| ArchiveSafety.CrashBeforeFirstManifest | crates/sui-archival/src/writer.rs:352-366 | a crash after the first upload and before the first manifest leaves a store from which no restart succeeds |
| ArchiveSafety.FirstUploadReachable | crates/sui-archival/src/writer.rs:399-460 | that situation is reached on every valid chain of two or more checkpoints |
| ArchiveSafety.UploaderCatchesUp | crates/sui-archival/src/writer.rs:437-487 | from every reachable state the uploader alone can bring the remote manifest up to the writer's own |
| ArchiveSafety.UploadMoves | crates/sui-archival/src/writer.rs:489-499 | in every reachable state an upload moves the staged file to the remote store and does nothing else |
| ArchiveSafety.QueueBounded | crates/sui-archival/src/writer.rs:347-397 | in every reachable state at most a hundred updates are on their way to the uploader |
| ArchiveSafety.WritesExactly | crates/sui-archival/src/writer.rs:412-429 | in every reachable state the next write happens unless it has to hand over and the channel is full; it touches neither the remote store nor the uploader |
| ArchiveSafety.FailedWriteStops | crates/sui-archival/src/writer.rs:412-429 | a write that returns an error ends the writer and nothing else; one that panics is no step |
| ArchiveSafety.StopLosesNothing | crates/sui-archival/src/writer.rs:437-487 | after the writer stops, the uploader alone still brings the remote manifest up to the writer's last one |
| ArchiveSafety.CrashExactly | crates/sui-archival/src/writer.rs:347-397 | a crash is possible at any time, ends every process, and leaves the remote store as it is |
| CheckpointStore.GetOrInsertKeepsChain | crates/sui-archival/src/reader.rs:348-387 | whatever summary is offered, a gap-free verified store stays one and loses nothing |
| CheckpointStore.OfferedExactly | crates/sui-archival/src/reader.rs:348-387 | a stored number changes nothing, one that is not next is refused, and the next one is accepted exactly when its chain, epoch, committee and signature are right; then it alone is stored and becomes the verified watermark |
| CheckpointStore.ReplayedExactly | crates/sui-archival/src/reader.rs:287-298 | a checkpoint with an accepted summary is replayed exactly when its contents have the stored digest and each transaction comes with its own effects |
| CheckpointStore.ReplayCounts | crates/sui-archival/src/reader.rs:300-307 | a replay that succeeds has counted every checkpoint and every transaction in it |
| CheckpointStore.ReplayNeverPanics | crates/sui-storage/src/lib.rs:147-216 | replaying any checkpoints into a verified store that knows its committees ends in success or an error, never in one of the panics over sequence numbers or missing committees |
| CheckpointStore.ReplayKeepsChain | crates/sui-archival/src/reader.rs:274-309 | replaying any checkpoints at all, up to wherever it stops, leaves a gap-free verified chain with matching contents that only grew, and the verified watermark at its new end if it grew |
| CheckpointStore.ReplayNext | crates/sui-archival/src/reader.rs:281-308 | the next checkpoint of a published chain, or one already stored, replays, is counted once, and ends up stored with its contents |
| CheckpointStore.ReplayPublished | crates/sui-archival/src/reader.rs:274-309 | any stretch of the published chain that starts inside or right after the store replays completely, its checkpoints and transactions are counted exactly, and both watermarks end where they should |
| ArchiveReader.SortSorts | crates/sui-archival/src/reader.rs:209-210 | sorting by range start orders the files and neither loses nor invents one |
| ArchiveReader.SortStable | crates/sui-archival/src/reader.rs:209-210 | files of one start keep the order they are listed in |
| ArchiveReader.OfTypeExactly | crates/sui-archival/src/reader.rs:198-207 | filtering by type keeps every file of that type, as often as it is listed, and no other |
| ArchiveReader.PlanExactly | crates/sui-archival/src/reader.rs:183-228 | `read` refuses exactly a start past the latest archived checkpoint and an empty archive, panics before reading exactly when the listed files are not equally many, gap-free from 0 and of equal ranges, and otherwise goes through the sorted pairs |
| ArchiveReader.BinarySearch | crates/sui-archival/src/reader.rs:230-242 | the index of a file with that start, or the only place where it would go |
| ArchiveReader.LocalStore.Insert | crates/sui-types/src/storage.rs:567-596 | refines insertion: the next committee is learned first and must arrive in order, then the checkpoint is stored and the verified watermark raised to it unless it is above already |
| ArchiveReader.LocalStore.GetOrInsertVerified | crates/sui-archival/src/reader.rs:348-387 | refines lookup-or-insert in all outcomes: stored already, no predecessor, not verified, panicking, inserted |
| ArchiveReader.LocalStore.ReplayCheckpoint | crates/sui-archival/src/reader.rs:281-308 | refines the replay of one checkpoint: verify, compare digests, store contents, raise the synced watermark, count |
| ArchiveReader.LocalStore.ReplayInRange | crates/sui-archival/src/reader.rs:274-309 | replays exactly the checkpoints whose number is in the range, stopping at the first failure |
| ArchiveReader.Read | crates/sui-archival/src/reader.rs:168-313 | refines `read` for any manifest and any store: an error without effect for a start past the archive or no files, a panic without effect for files that do not pair up, else both searches and the files in between in order |
| ArchiveEndToEnd.ReadKeepsChain | crates/sui-archival/src/reader.rs:244-312 | a read of arbitrary, even corrupt, files never leaves the local store with a gap, an unverified checkpoint or mismatched contents, and the verified watermark is at the end of what was added |
| ArchiveEndToEnd.PlanOfArchive | crates/sui-archival/src/reader.rs:193-228 | on every manifest the writer can produce all assertions of `read` hold, and it pairs up the two files of each range |
| ArchiveEndToEnd.SearchesExact | crates/sui-archival/src/reader.rs:230-242 | the start search finds the one file whose range contains the start, the end search counts the files that start before the end |
| ArchiveEndToEnd.LoadOfArchive | crates/sui-archival/src/reader.rs:248-276 | a pair of archived files loads as exactly the checkpoints of its range, each summary with its own contents |
| ArchiveEndToEnd.ReadArchived | crates/sui-archival/src/reader.rs:168-313 | reading archived ranges replays exactly the requested checkpoints below the manifest's next one |
| ArchiveEndToEnd.EndToEndRead | crates/sui-archival/src/reader.rs:168-313 | with the manifest of any reachable state and the store of any later state, reading any range replays each of its archived checkpoints once, ascending, with its own contents |
| ArchiveEndToEnd.EndToEndSucceeds | crates/sui-archival/src/reader.rs:168-313 | into a store that tracks the published chain up to the range start that read succeeds; afterwards the store holds the whole range with contents and everything it held before, both counters moved by the range and both watermarks are where they should be |
| ArchiveEndToEnd.ReadArchive | crates/sui-archival/src/reader.rs:168-313 | `read` itself, called with the manifest of any reachable state and the store of any later one, leaves the replay of exactly the requested checkpoints, succeeds into a store that tracks the chain up to the start, and is an error without effect for a start past the manifest |
| ArchiveEndToEnd.ReadNeverPanics | crates/sui-archival/src/reader.rs:244-312 | reading arbitrary files into a verified store that knows its committees ends in success or an error, never in a panic |
| ArchiveCoverage.ReadStores | crates/sui-archival/src/reader.rs:244-312 | after a read of arbitrary files that succeeds, the store has contents for exactly the numbers it had before and those in range that some file yields |
| ArchiveCoverage.ReadExactly | crates/sui-archival/src/reader.rs:244-312 | if every file loads, a read is the replay of all they contain in range; if one does not load, the read does not succeed |
| ArchiveCoverage.OkMeansAllExactly | crates/sui-archival/src/reader.rs:244-312 | success means that the whole range is there if and only if every number that was missing is yielded by one of the files read |
| ArchiveCoverage.ShortFileAccepted | crates/sui-storage/src/blob.rs:97-101 | a summary file that ends early is accepted: the read succeeds, and everything from where it ends is missing |
| ArchiveWitness.ManifestReachable | crates/sui-archival/src/writer.rs:347-499 | on every valid chain of two or more checkpoints some run puts a manifest |
| ArchiveWitness.AssumptionsHold | crates/sui-archival/src/writer.rs:347-499 | everything the archive theorems assume holds together: an environment, a valid and published chain, and a reachable state with a manifest exist |
| MeteredChannel.StepAccounted | crates/mysten-metrics/src/metered_channel.rs:46-192 | every atomic step of any sender or the receiver keeps the accounting equation, the size bound, first-in-first-out order and the total |
| MeteredChannel.RunAccounted | crates/mysten-metrics/src/metered_channel.rs:46-192 | so does every interleaving of any number of senders with the receiver, from creation |
| MeteredChannel.GaugeAtRest | crates/mysten-metrics/src/metered_channel.rs:278-313 | with no update outstanding the gauge is queued items plus held permits, between 0 and the channel size, and the total accounts for every send |
| MeteredChannel.GaugeAnytime | crates/mysten-metrics/src/metered_channel.rs:46-192 | at any moment: exactly when the gauge shows the occupancy, that it exceeds the size by at most one, and exactly when it is negative |
| MeteredChannel.GaugeCanBeNegative | crates/mysten-metrics/src/metered_channel.rs:133-139 | the gauge does go below zero: a receiver can take and count an item before its sender has counted it |
| MeteredChannel.PossibleExactly | crates/mysten-metrics/src/metered_channel.rs:46-192 | a send or a reservation is possible exactly for an idle task on an open channel with a slot to spare, a receive exactly when something is queued, and a held permit can be used or dropped even after closing |
| MeteredChannel.ClosedForGood | crates/mysten-metrics/src/metered_channel.rs:77-80 | over every run after closing, no more is sent than there were permits out, and the channel stays closed |
| MeteredChannel.ComesToRest | crates/mysten-metrics/src/metered_channel.rs:46-192 | from any state the outstanding updates alone bring the channel to rest, with the items untouched |
| Median.SelectPivot | crates/sui-core/src/math.rs:18-21 | whatever index is drawn, the slice is permuted and nothing outside it changes |
| Median.Partition | crates/sui-core/src/math.rs:23-39 | below the pivot to its left, not below it to its right, a permutation of the slice, for every pivot |
| Median.Quicksort | crates/sui-core/src/math.rs:41-48 | the slice ends up sorted and a permutation of itself, and nothing else changes, for every choice of pivots |
| Median.SortedUnique | crates/sui-core/src/math.rs:41-48 | there is only one sorted arrangement, so pivots cannot show in the result |
| Median.ComputeMedian | crates/sui-core/src/math.rs:4-16 | the result is the middle order statistic, or half way between the two middle ones, of the input |
| Median.MedianExactly | crates/sui-core/src/math.rs:4-16 | of an odd number of values the median is the one with more than half on either side; of an even number it is half way between the two middle values, each pinned by how many are on or below and on or above it |
| Median.MiddlePairUnique | crates/sui-core/src/math.rs:13-14 | there is only one pair of middle values |
| Median.MedianOfReordered | crates/sui-core/src/math.rs:4-16 | reordering the input does not change the median |
| Median.MedianSplits | crates/sui-core/src/math.rs:4-16 | at least half of the values are on or below the median and at least half on or above it |
| HeapSize.ConstantSizeSound | crates/mysten-util-mem/src/malloc_size.rs:226-298 | a type that announces a constant size has only values of that size, at every nesting depth |
| HeapSize.ConstantTupleSound | crates/mysten-util-mem/src/malloc_size.rs:242-254 | the same for tuples, summing over their fields |
| HeapSize.ConstantSizeExactly | crates/mysten-util-mem/src/malloc_size.rs:226-298 | a type announces a constant size if and only if all its values have one size, types with locks or lazily present values inside apart; those two announce none |
| HeapSize.ConstantTupleExactly | crates/mysten-util-mem/src/malloc_size.rs:242-254 | a tuple announces a constant size if and only if all its fields do |
| HeapSize.FullSizeExactly | crates/mysten-util-mem/src/malloc_size.rs:226-504 | the full traversal counts every allocation in a value once |
| HeapSize.ElementsShortcut | crates/mysten-util-mem/src/malloc_size.rs:313-335 | multiplying by the length is the element-by-element traversal |
| HeapSize.SizeOf | crates/mysten-util-mem/src/malloc_size.rs:226-504 | every implementor measures the full traversal plus exactly what index maps count twice, and equals the full traversal if and only if nothing is counted twice |
| HeapSize.SizeOfTuple | crates/mysten-util-mem/src/malloc_size.rs:242-248 | the measured fields add up to the full tuple |
| HeapSize.SizeOfElements | crates/mysten-util-mem/src/malloc_size.rs:313-403 | shallow size plus all elements, by either branch, for slices, vectors, deques and sets |
| HeapSize.SizeOfEntries | crates/mysten-util-mem/src/external_impls.rs:38-52 | maps measure their entries by either branch; an index map without the shortcut adds its own table once more |
| HeapSize.ExactlyWhenCountedOnce | crates/mysten-util-mem/src/external_impls.rs:38-52 | the measurement is exact if and only if every index map inside takes the shortcut or owns no table |
| HeapSize.StandardTypesExact | crates/mysten-util-mem/src/malloc_size.rs:226-504 | for types without index maps the shortcut never changes the measurement |
| HeapSize.IndexMapCountsTwice | crates/mysten-util-mem/src/external_impls.rs:46-48 | one entry whose key owns memory is enough for the table to be reported twice |
| PackageGraph.NormalEdgesExact | sui-execution/src/tests.rs:122-135 | exactly the dependencies that are normal and not target-specific, and none for an unknown package |
| PackageGraph.NormalDepsInOrder | sui-execution/src/tests.rs:122-135 | the edges come in the order the dependencies are listed in |
| PackageGraph.BuildGraph | sui-execution/src/tests.rs:104-117 | the worklist ends on every package map, cyclic ones included, and refines the recursive crawl |
| PackageGraph.CrawlDepthFirst | sui-execution/src/tests.rs:108-114 | what is on top of the stack is exhausted, with all it leads to, before what is below |
| PackageGraph.GraphIsReachable | sui-execution/src/tests.rs:101-117 | the packages found are exactly those the root reaches, each by a walk of kept edges, and every kept edge is a real normal dependency |
| PackageGraph.RootInGraph | sui-execution/src/tests.rs:104-117 | the root is a node exactly when it has a normal dependency |
| PackageGraph.KeepsEveryEdge | sui-execution/src/tests.rs:101-117 | the graph is the whole transitive dependency sub-graph, edges included, if and only if no package in it has two dependents and nothing depends on the root (a root listing itself last aside) |
| PackageGraph.AlarmsAreReal | sui-execution/src/tests.rs:40-59 | a bypass found in the kept graph exists among the real dependencies |
| PackageGraph.MissesNothingExactly | sui-execution/src/tests.rs:40-59 | the check finds every bypass among the real dependencies, whatever crates are removed, if and only if every kept edge comes from a package that lies on all real ways to its target |
| PackageGraph.CheckIsExact | sui-execution/src/tests.rs:40-59 | so with one way into each package, which can be read off the package map, the check and the real dependencies agree on every bypass |
| PackageGraph.SharedDependencyMissed | sui-execution/src/tests.rs:40-59 | a crate used directly and through the removed one: the direct use is a bypass, and the kept graph has none |
| Genesis.Validate | crates/sui-config/src/genesis.rs:464-474 | accepts a schedule exactly when its 64-bit total is the total supply, trapping or wrapping on overflow as the build does |
| Genesis.ValidatesExactly | crates/sui-config/src/genesis.rs:464-474 | with overflow trapped that is exact conservation of the supply; wrapping, it is conservation modulo 2^64, and exact whenever the true total fits |
| Genesis.WrappedTotalAccepted | crates/sui-config/src/genesis.rs:464-474 | a schedule that mints 2^64 too much passes a wrapping build |
| Genesis.Builder.constructor | crates/sui-config/src/genesis.rs:608-613 | a new builder holds the whole supply in its pool |
| Genesis.Builder.AddAllocation | crates/sui-config/src/genesis.rs:630-633 | fails exactly when the pool is too small, changing nothing; otherwise moves the amount, and pool plus allocations stay the total supply |
| Genesis.Builder.DefaultAllocationForValidators | crates/sui-config/src/genesis.rs:615-628 | succeeds exactly when the pool pays for all, and then has added one default allocation per validator, in order |
| Genesis.Builder.Build | crates/sui-config/src/genesis.rs:635-643 | after any calls `build` does not panic, and its schedule conserves the supply |
| Genesis.NewForValidators | crates/sui-config/src/genesis.rs:508-533 | trapping: a schedule if and only if the supply pays for all; wrapping: always one that validates, conserving the supply if and only if it pays for all |
| Genesis.DefaultsExactly | crates/sui-config/src/genesis.rs:514-523 | twenty million SUI for each validator, given to it and staked with it, in order |
| Genesis.StakeWithExactly | crates/sui-config/src/genesis.rs:484-496 | the stake with a validator is the sum of the allocations staked with it |
| Genesis.BuilderAgrees | crates/sui-config/src/genesis.rs:508-533 | the constructor and the builder give the same schedule on every list the builder accepts, and it accepts exactly the affordable ones |
| Genesis.SumStakes | crates/sui-config/src/genesis.rs:484-496 | stake is summed exactly per validator, or an unlisted validator or an overflow is found |
| Genesis.CheckStakes | crates/sui-config/src/genesis.rs:476-506 | passes if and only if every stake is with a listed validator and each listed one has the threshold in its 64-bit sum |
| Genesis.StakesExactly | crates/sui-config/src/genesis.rs:476-506 | on a conserving schedule no stake overflows, so the check is exact in either build |
| Genesis.DefaultSchedulePasses | crates/sui-config/src/genesis.rs:508-533 | the default schedule passes the stake check for its own validators, repeated ones included |
| Genesis.ToCsv | crates/sui-config/src/genesis.rs:573-587 | the allocations in order, then one record for the subsidy fund |
| Genesis.FromCsv | crates/sui-config/src/genesis.rs:542-571 | accepts exactly the lists with the right total and a last record that can be the fund's; its final validation never fails |
| Genesis.WriteThenRead | crates/sui-config/src/genesis.rs:542-587 | reading back a written schedule returns it unchanged if it validates, and fails otherwise |
| Genesis.ReadThenWrite | crates/sui-config/src/genesis.rs:542-587 | writing back any accepted record list reproduces it, fund record included |
| QuorumClient.Client.VoteRound | crates/sui-benchmark/src/lib.rs:400-460 | reads replies up to the first prefix with quorum stake or a certificate, and the request gauge shows the replies still out |
| QuorumClient.Client.CertRound | crates/sui-benchmark/src/lib.rs:506-558 | reads replies up to the first prefix with quorum stake; success is decided by all replies together, by the weights of those that sent effects; and the effects kept are those of the reply that completed the quorum |
| QuorumClient.EffectStakeExactly | crates/sui-benchmark/src/lib.rs:528-541 | the stake behind replies with effects is, over the members, weight times number of replies; others count nothing |
| QuorumClient.DistinctStake | crates/sui-benchmark/src/lib.rs:528-541 | when no authority answers twice it is the total weight of the members that sent effects |
| QuorumClient.VoteStakeExactly | crates/sui-benchmark/src/lib.rs:422-427 | the same sum for votes |
| QuorumClient.VotesSufficeExactly | crates/sui-benchmark/src/lib.rs:453-460 | votes suffice exactly when their tally reaches the quorum or a reply brings a certificate |
| QuorumClient.CertificateExactly | crates/sui-benchmark/src/lib.rs:463-497 | the certificate sent on is the one in the last reply read, or else assembled from exactly the voters in the epoch of the latest vote, or else a panic over a voter outside the committee or signatures that do not aggregate |
| QuorumClient.Client.ExecuteBench | crates/sui-benchmark/src/lib.rs:395-592 | who panics, who bails out and who succeeds, exactly; both transaction gauges and the certificate gauge back on every path that does not panic; certificate requests accounted for except for the zero-quorum leak |
| QuorumClient.Client.LateReply | crates/sui-benchmark/src/lib.rs:571-577 | a late reply leaves the gauge by one and the wait by one |
| QuorumClient.Client.EndWait | crates/sui-benchmark/src/lib.rs:577-582 | a wait that ends, by timeout or not, takes what it is owed off the gauge |
| QuorumClient.Client.Run | crates/sui-benchmark/src/lib.rs:395-592 | over any sequence of calls, late replies and timeouts, one call after the other: with a positive quorum and no panic all gauges return to their start once every wait is over |
| QuorumRuns.StepHolds | crates/sui-benchmark/src/lib.rs:395-592 | each gauge update of a call, of its guards and of its background wait is exactly the change in what that call holds |
| QuorumRuns.StepAccounted | crates/sui-benchmark/src/lib.rs:395-592 | every step of any of many concurrent calls keeps the shared gauges equal to what all calls hold together, and keeps what each call knows of the replies it has read |
| QuorumRuns.RunAccounted | crates/sui-benchmark/src/lib.rs:395-592 | so does every interleaving of any number of calls, late replies, guard drops and timeouts |
| QuorumRuns.GaugesReturn | crates/sui-benchmark/src/lib.rs:395-592 | with a positive quorum and no panic, the four shared gauges are back at their start once every call is at rest, however the calls interleaved |
| QuorumRuns.EndedExactly | crates/sui-benchmark/src/lib.rs:555-582 | in every run, a call that reached its background wait had effects from quorum stake among all its replies, and one that bailed out had not, and leaks exactly what the zero-quorum case leaks |
| QuorumRuns.CallFinishes | crates/sui-benchmark/src/lib.rs:395-592 | in every run any call can go on by itself until it is at rest, whatever the other calls are doing |
| QuorumRuns.StartsAndLateReplies | crates/sui-benchmark/src/lib.rs:571-577 | a call can start at any time, and a background wait takes a late reply exactly while it is owed one |
| QuorumClient.StopDecides | crates/sui-benchmark/src/lib.rs:555-564 | where the loop stops settles success; a failing loop has read everything, unless the quorum is zero and the first reply an error |
| QuorumClient.OrderIrrelevant | crates/sui-benchmark/src/lib.rs:528-564 | with a positive quorum the order of the replies changes neither success nor the accounting |
| CdsEpochs.FindMinimumEpoch | crates/sslab-execution/chase/src/cds_scheduler.rs:263-275 | the first epoch whose writes the transaction does not touch, or a new one |
| CdsEpochs.PlaceIntoEpochs | crates/sslab-execution/chase/src/cds_scheduler.rs:189-211 | the schedule is the first-fit placement: every candidate once, no empty epoch, candidate order within epochs |
| CdsEpochs.FirstFitUnique | crates/sslab-execution/chase/src/cds_scheduler.rs:189-211 | there is one first-fit placement |
| CdsEpochs.EpochsIndependent | crates/sslab-execution/chase/src/cds_scheduler.rs:263-275 | within an epoch no transaction touches what an earlier one writes |
| CdsEpochs.EpochsSerializable | crates/sslab-execution/chase/src/cds_scheduler.rs:122-187 | aborted transactions, re-executed epoch after epoch, each epoch against the state it starts from and with its commits landing in any order, can end in one state only: that of the flattened schedule run serially |
| CdsEpochs.EpochConflictsExactly | crates/sslab-execution/chase/src/cds_scheduler.rs:263-275 | two members of one epoch conflict exactly when the earlier reads what the later writes, although the comment excludes read-write conflicts |
| CdsEpochs.ReaderSharesWithLaterWriter | crates/sslab-execution/chase/src/cds_scheduler.rs:263-275 | such a pair: a reader and a later writer of one key share an epoch |
| CdsEpochs.CandidatesAreReordered | crates/sslab-execution/chase/src/cds_scheduler.rs:189-211 | a later candidate can overtake an earlier one that reads what it writes: the serial order is the schedule's, not the candidates' |
| CdsCommit.ReorderedCommit | crates/sslab-execution/chase/src/chase_core.rs:430-450 | commits may land in any order that keeps writers of a common key in order |
| CdsCommit.DisjointLands | crates/sslab-execution/chase/src/chase_core.rs:430-450 | effects without a common key, landing in any order, end in one state only |
| CdsSerial.SerialInExactly | crates/sslab-execution/chase/src/chase_core.rs:307-355 | effects computed on one snapshot and committed in list order equal a run in a given serial order, for every state and every program with those keys, if and only if that order keeps last writers last and puts no transaction that shows (some key it writes is written by none later) after a writer of what it read |
| CdsSerial.SomeOrderExactly | crates/sslab-execution/chase/src/chase_core.rs:307-355 | every program on every state ends as in some serial order of its own if and only if those constraints have no cycle, and then one order does for all programs |
| CdsSerial.CycleTells | crates/sslab-execution/chase/src/chase_core.rs:307-355 | with a cycle there is one program and one state from which committing ends where no serial order does |
| CdsSerial.ListedExactly | crates/sslab-execution/chase/src/chase_core.rs:430-450 | the list order is equivalent for every such program if and only if no transaction that shows reads what an earlier one writes |
| Orderings.OrderExactly | crates/sslab-execution/chase/src/cds_scheduler.rs:229-235 | there is an order with everything after its dependencies if and only if there is no cycle |
| CdsSerial.SnapshotIsSerial | crates/sslab-execution/chase/src/chase_core.rs:307-355 | transactions run against one snapshot and committed in order are as good as run serially, if none that writes reads an earlier one's writes and no key is written twice |
| CdsSerial.GroupSerializable | crates/sslab-execution/chase/src/chase_core.rs:307-355 | such a group ends in one state only, whatever order its commits land in |
| CdsSerial.ScheduleSerializable | crates/sslab-execution/chase/src/chase_core.rs:178-195 | re-executed group after group, each on what the one before it left, every sequence of such groups ends in one state only: that of the flattened schedule run serially |
| CdsFirstPass.FinalizedOutcome | crates/sslab-execution/chase/src/cds_scheduler.rs:104-120 | the finalized conflict zone ends in one state only, whatever order the commits of an epoch land in: the effects computed on the batch's starting state, applied in schedule order |
| CdsFirstPass.PassOutcomes | crates/sslab-execution/chase/src/chase_core.rs:400-412 | the states the first pass can end in are exactly those of all effects, computed on the batch's starting state, in some order that interleaves the chains and then follows the epochs |
| CdsFirstPass.OneOutcomeExactly | crates/sslab-execution/chase/src/chase_core.rs:400-412 | the pass ends in one state only, for every state and every program with those keys, if and only if every key written in two chains is written again in a finalized epoch |
| CdsFirstPass.PassExactly | crates/sslab-execution/chase/src/chase_core.rs:400-412 | every outcome of the pass is that of some serial order, for every state and every program with those keys, if and only if in no order the pass can commit in the constraints between writers and stale readers have a cycle |
| CdsFirstPass.PassInOrderExactly | crates/sslab-execution/chase/src/chase_core.rs:400-412 | every outcome is the serial run in the order of the schedule if and only if no transaction that shows reads what an earlier one writes and every key written in two chains is written again in an epoch |
| CdsFirstPass.FirstFitApart | crates/sslab-execution/chase/src/cds_scheduler.rs:189-211 | what these theorems assume of the epochs, that none writes a key twice, first fit provides |
| CdsFirstPass.ChainsOutcome | crates/sslab-execution/chase/src/chase_core.rs:357-379 | if no key is written in two chains, the conflict-free zone ends in one state only: the effects computed on the batch's starting state, applied chain after chain |
| CdsAnomalies.LostUpdate | crates/sslab-execution/chase/src/cds_scheduler.rs:104-120 | a blind write and a later update of the same key are put into an earlier and a later epoch, and for some program committing them ends where no serial order does |
| CdsAnomalies.LostUpdateValues | crates/sslab-execution/chase/src/chase_core.rs:430-450 | in values: after a store and an increment are committed the stored value is gone, and the result is that of neither serial order |
| CdsAnomalies.RacingChains | crates/sslab-execution/chase/src/cds_scheduler.rs:213-261 | three writers of one key, the second reading what the first writes, are divided into a chain of two and a chain of one |
| CdsAnomalies.RaceUnserializable | crates/sslab-execution/chase/src/chase_core.rs:357-379 | those chains are serializable in the order of the schedule and have no stale read there, yet the pass is not serializable: the second chain can land first |
| CdsAnomalies.RaceValues | crates/sslab-execution/chase/src/chase_core.rs:357-379 | in values: an outcome that sets the key from the old value of what was read, while every serial order ends it at one of three others |
| CdsFirstPass.ChainOrderExactly | crates/sslab-execution/chase/src/chase_core.rs:357-379 | however the chains interleave, they end where running them chain after chain does, for every program, if and only if no key is written in two chains and no transaction that shows depends on another: each dependency a chain puts in order is a stale read |
| CdsFirstPass.ChainsSerialBackwards | crates/sslab-execution/chase/src/chase_core.rs:357-379 | if no key is written twice, committing the chains is equivalent to running them from last to first |
| CdsValidation.Validate | crates/sslab-execution/chase/src/chase_core.rs:480-518 | keeps the earlier of two that clash; splits without loss into transactions that share no written key and transactions that clash with one of those; nothing is invalid if and only if nothing clashed |
| CdsValidation.SerialExactly | crates/sslab-execution/chase/src/chase_core.rs:480-518 | given no write clash, committing the group ends, for every program with those keys, as in some serial order if and only if the relation `a writing transaction reads what another writes` has no cycle, and the list order if and only if none reads what an earlier one writes; validation looks at neither |
| CdsValidation.WriteSkew | crates/sslab-execution/chase/src/chase_core.rs:480-518 | two transactions that read each other's written key pass validation, are such a cycle, and committing both matches neither serial order |
| CdsChains.BuildChains | crates/sslab-execution/chase/src/cds_scheduler.rs:213-261 | panics if and only if the dependencies have a cycle; otherwise every transaction is in one chain, each chain takes the lowest ready transaction until none extends it, and chain after chain nothing precedes what it depends on |
| CdsChains.ChainsUnique | crates/sslab-execution/chase/src/cds_scheduler.rs:213-261 | the greedy division into chains is the only one, so the result depends on the transactions alone |
| CdsChains.PickedIsLinked | crates/sslab-execution/chase/src/cds_scheduler.rs:240-255 | a chain is a path: each transaction reads a key its predecessor writes |
| CdsChains.DependencyLists | crates/sslab-execution/chase/src/cds_scheduler.rs:220-227 | `i` lists `j` exactly when it reads a key that `j` writes |
| CdsChains.FindReady | crates/sslab-execution/chase/src/cds_scheduler.rs:233-246 | finds the lowest unassigned transaction whose dependencies are all assigned, or there is none |
| CdsChains.GrowChain | crates/sslab-execution/chase/src/cds_scheduler.rs:237-255 | grows a chain by the lowest ready dependent of its last transaction until there is none |
| Orderings.OrderedMeansAcyclic | crates/sslab-execution/chase/src/cds_scheduler.rs:232-235 | an order that respects all dependencies rules out cycles |
| Orderings.StuckMeansCycle | crates/sslab-execution/chase/src/cds_scheduler.rs:233-235 | if everything unassigned waits for something unassigned, there is a cycle |
| CdsChains.ChainIsWalk | crates/sslab-execution/chase/src/cds_scheduler.rs:240-255 | in a chain, later transactions depend on earlier ones step by step |
| CdsChains.UnrelatedSplit | crates/sslab-execution/chase/src/cds_scheduler.rs:70-73 | two transactions neither of which leads to the other are never in one chain |
| CdsChains.SharedDependencyCrosses | crates/sslab-execution/chase/src/cds_scheduler.rs:70-73 | chains are not independent: what two such transactions both depend on has a dependent in another chain than its own |
| CdsInterleavings.ParallelExactly | crates/sslab-execution/chase/src/chase_core.rs:357-379 | committing chains in parallel gives one outcome for all effects and interleavings if and only if no key is written in two chains |
| CdsInterleavings.ChainsParallelExactly | crates/sslab-execution/chase/src/chase_core.rs:357-379 | the same, stated on chains of transactions |

## Left out

- Everything else in the repository: the node, Narwhal consensus, the Move compiler and VM, the JSON-RPC and indexer
  crates.
- The address-based conflict graph, the wave numbers it assigns, and the EV-BLP pipeline: the scheduler is modelled from
  the key sets and waves it is given.
- EVM execution: a transaction is its key sets and a function from states to writes; an effect is a map from keys to
  values, and one transaction's effect lands atomically.
- CdsEpochs.EpochsSerializable: of re-executed epochs only, the finalized ones being the subject of CdsFirstPass;
  assumes, as the scheduler does, that re-execution stays within the announced keys; what happens otherwise is the
  subject of CdsValidation.
- Concurrent writers of one archive: at most one writer process is alive, file copies and manifest puts are atomic, and
  the remote store does not fail.
- Node-store and file-system errors of the archive writer and reader, the manifest refresh task, the archive balancer
  and progress metrics.
- ArchiveReader.Read: downloads are modelled one pair at a time; the source buffers several but processes them in order.
- The local store keeps summaries and contents by sequence number, not by digest; transactions and effects inside
  contents are not stored separately.
- Metered-channel receivers that are dropped, wakers, `closed` futures, stream adapters, and the 64-bit range of gauges
  and counters.
- Median.ComputeMedian: over real numbers; rounding of the mean, infinities and NaN are not modelled.
- Median.Quicksort: recursion works on ranges of one array, where the source splits slices.
- Overflow of `usize` in heap sizes, the allocator itself, and conditional measurement of shared `Arc` pointers.
- PackageGraph.MissesNothingExactly: `all_simple_paths` is taken to find a path exactly when there is a walk; reading
  Cargo metadata is not modelled.
- CSV text: tokens and quoting are not modelled, records are; addresses are numbers and the default address is 0.
- Signature aggregation in the benchmark client is an input, and nothing is claimed about certificate validity: it
  assembles one even when votes fall short.
- QuorumClient.Client.Run: calls of one client happen one after the other, with late replies and timeouts of earlier
  calls between them; concurrent calls are the subject of QuorumRuns.
- QuorumRuns.GaugesReturn: each gauge update is atomic, as in the source; what a panicking call leaves behind is
  accounted for by RunAccounted and not returned.
- QuorumClient.Client.ExecuteBench: stake is counted per reply, as in the source; that authors are distinct is not
  claimed. The threshold is a parameter; the committee's is 6667, so the zero-quorum leak does not arise in this
  repository.
