# RocksDB compaction, caches, SuperVersions and pickers: a verified model

A Dafny model of the storage-engine cores of the RocksDB that is vendored under `task1/rocksdb`, with proofs of
the properties those cores are for. `dafny verify dfyconfig.toml` checks the whole project.

## What is modelled

**Compaction as a transformation of data.** `CompactionIterators` holds the iterator as a class with the source's
carried fields and loops. It is proved equal, record by record, to the specification `CompactionSteps.Run`; the
theorems are about `Run`. Records are (user key, sequence number, type, value); user keys are integers, readers are
the live snapshots and the tip, and a read over "output plus deeper data" is compared with the same read over "input
plus deeper data". `CompactionPlan` is the compaction's view of the levels, `CompactionJobs` ties what it computes
from files to the records in them, `CompactionDrops` says what must go, `TombstoneDrops` and `SnapshotZero` say exactly
when reads survive, and `CompactionChains` puts any number of compactions and writes in sequence. `Subcompactions` and
`SubcompactionSplit` are the split of a job into key ranges, `DictionarySampler` the sampling of the first output file.

**SuperVersions.** `SuperVersions` is a transition system: one step per atomic operation on a thread-local slot or a
reference count, or per section under the database mutex. Its theorems quantify over all interleavings.

**CLOCK cache.** `ClockFlags` is the concurrent protocol on the handles' flag words, again as a transition system with
all atomics sequentially consistent, and `ClockRuns` what it comes to over whole runs. `ClockCache` is the shard as a
class, run by one thread at a time, with its accounting and its hash map; `ClockSweeps` is the movement of the clock
hand and what it makes of the handles.

**LRU cache.** `LruHandleTables` is the chained hash table with its real `next_hash` pointers and bucket array,
`LruLists` the intrusive circular list with its two pools, `LruCache` the shard that combines them with reference
counts and charges. The list's part of the shard is an object of its own here, so that what list operations may
change is visible in their `modifies` clauses. Which entries have references (`live`) and which were handed to their
deleter (`freed`) are ghost sets.

**Compaction picking.** `LevelFiles` has the files of a version and the version storage's searches over them,
`InputSanitizer` completes manually chosen files, `CompactionPickers` picks leveled compactions and keeps the running
ones compatible, `UniversalPicker` reduces the number of sorted runs. `LevelCompactions` joins the two halves: what a
picked compaction does to the records that readers search, file by file and level by level.

**Log retention.** `PrepLogs` is the lazily deleted heap of logs with outstanding prepares.

## Main results

- For every sorted input, every ascending list of live snapshots and every key used within the Put/Delete or the
  Put/SingleDelete contract, no live reader can tell that the compaction happened
  (`CompactionTheorems.CompactionPreservesReads`); with a plan computed from the input files this holds without trust
  in the level test or the bottommost flag (`CompactionJobs.JobPreservesReads`, `JobOutputIsSorted`). The condition on
  `earliest_write_conflict_snapshot_` is not needed for reads; it is needed for the assertion that tombstones are never
  zeroed and for conflict checking.
- Output satisfies the contracts again, so over any sequence of writes and compactions with changing snapshots a reader
  that stays live keeps reading what it read (`CompactionChains.SnapshotsAreStable`; no compaction there has an input
  version at sequence 0 under a snapshot at 0).
- A compaction also drops what it can: for every input and carry a SingleDelete and the version it ends are both gone
  unless a conflict check may ask for them and no newer record of the key was put out, hidden versions are gone, and
  every tombstone kept has a reason (`CompactionDrops.PairFate`, `HiddenGoes`, `KeptTombstonesAreNeeded`).
- A started pick or manual range compaction to a level other than 0 is such a compaction: over files whose records are in
  age order, kept files split into newer and deeper data, and no live read of the whole database changes
  (`LevelCompactions.StartedCompactionPreservesReads`).
- The plain level test and the cursor-based one agree (`CompactionPlan.KeyNotExistsBeyondOutputLevel`).
- Subcompactions: the concatenated outputs equal one unsplit pass exactly when no range with output below it has an open
  SingleDelete pair under its first output (`SubcompactionSplit.SplitEqualsUnsplitIff`), so always for Puts and Deletes;
  reads survive the split for all inputs within contract.
- SuperVersion and CLOCK reference counts are exact in every reachable state; cleanup and recycling happen exactly once.
  Over all interleavings a Get returns a SuperVersion no older than the one current when it began, and a released cache
  entry survives the next examination, while an unused one does not (`SuperVersions.GetIsCurrentAtStart`,
  `ClockRuns.ReleasedGetsSecondChance`, `NewEntryGoesFirst`). Nobody gets stuck.
- The pointer-level hash table is a finite map; the pointer-level LRU list is two sequences; the LRU shard's `usage_`,
  `lru_usage_`, list membership and order, and freeing are determined by the operations, reference counts and flags, in
  every reachable state.
- The sanitizer returns the least closed set of files that holds the requested ones, and it fails exactly when that
  set holds a file being compacted.
- In every sequence of picks, manual compactions, releases and version changes, the marks are exactly the inputs of the
  running compactions, no file is in two of them, and equal output levels other than 0 have disjoint ranges. A pick and
  a `CompactRange` to a level other than 0 leave behind no file of their start or output level that could put an older
  version of a taken key above a newer one (`CompactionPickers.CompactionPicker.KeptVersionsKeepTheirPlace`);
  `CompactFiles` does not promise that, see below.
- A leveled pick is for the first level by score that asks for a compaction and can start; nothing is picked only if
  none can; with nothing running, a level that asks gets its compaction as long as files are left by priority
  (`CompactionPickers.CompactionPicker.SetupInitialFiles`, `PickCompaction`).
- With the sizes that table files have, the result of a universal pick is placed in age order for every file
  (`UniversalPicker.SizedFilesStayInAgeOrder`).

## Where the code does not do what is promised

1. *Compaction within level 0.* `KeyNotExistsBeyondOutputLevel` looks only at levels below the output level, so a
   leveled compaction whose output level is 0 may drop a Delete or a SingleDelete over an older level-0 file that is not
   among its inputs. `TombstoneDrops.IntraLevel0LosesTombstone` is a concrete case; `PutDeleteReadsPreservedIff` and
   `SingleDeleteReadsPreservedIff` are the exact condition, whatever the level test says.
2. *Snapshot 0.* The iterator uses 0 both for "no earlier snapshot" and as a sequence number, so with a live snapshot at
   0 it loses a Put at sequence 0. A Put/Delete key loses it when it is the key's newest input version
   (`SnapshotZero.PutDeleteReadsSurviveIff`, over any older deeper data). A Put/SingleDelete key loses it when it is the
   key's first input version, and also under a SingleDelete with no other snapshot below that: the look-ahead takes the
   two for a pair of one stripe and drops both, or keeps both with an empty value
   (`SnapshotZero.SingleDeleteReadsSurviveIff`, `SnapshotZeroLosesPut`). A Put that was empty to begin with reads the
   same exactly when its SingleDelete is kept; `PairKeptWhen` says when that is sure.
3. *Split SingleDeletes.* `SeekToFirst` does not set `has_outputted_key_`, so a range that starts at a key may keep a
   SingleDelete pair that one unsplit pass eliminates (`SplitCanKeepSingleDeletes`); `SplitEqualsUnsplitIff` says
   exactly when. Reads are unaffected.
4. *CLOCK eviction.* `EvictFromCache` reports failure when room appears only with the last of its 2n examinations
   (`ClockSweeps.RoomFoundTooLate`). It succeeds exactly when pinned usage, the charge of the entry just behind the hand
   if that is unreferenced and was used since last seen, and the new charge fit (`SuccessIff`); `FailureWithRoomIff` says
   exactly when it fails although there is room.
5. *LRU pool size.* `SetCapacity` lowers the high-priority pool's size without moving anything out of the pool
   (`LruCache.ShrinkingCanOverfillPool`); its contract says exactly when the pool still fits. Every other operation keeps
   the pool within its size once it is.
6. *Manually chosen level-0 files.* The sanitizer closes level 0 by the order of the files only, as its own TODO says: a
   chosen file may go to a deeper level while an older file that overlaps it stays above
   (`InputSanitizer.OlderFileCanStayAbove`). That happens exactly when an unchosen level-0 file overlaps a chosen newer
   one (`ClosedLeavesOlderIff`); when none does, reads survive (`LevelCompactions.CompletedFilesPreserveReads`).

## Model

| member | source | states |
|---|---|---|
| `Snapshots.StripeIsLeast` | `task1/rocksdb/db/compaction_iterator.cc:559-574` | The earliest visible snapshot of a sequence number is the least snapshot at or above it, or the sentinel |
| `Snapshots.StripeDecidesVisibility` | `task1/rocksdb/db/compaction_iterator.cc:559-574` | A live reader sees a version exactly when it sees the version's earliest visible snapshot |
| `Snapshots.TestedPairIsSeenTogether` | `task1/rocksdb/db/compaction_iterator.cc:363` | Two versions that pass the look-ahead test are seen by the same readers, except that the reader at 0 may see only an older one at 0 |
| `Snapshots.PreviousFromIsGreatest` | `task1/rocksdb/db/compaction_iterator.cc:559-574` | The reported previous snapshot is the greatest one that does not see the version |
| `Snapshots.SameStripeTest` | `task1/rocksdb/db/compaction_iterator.cc:363` | The look-ahead test `prev_snapshot == 0 or next > prev_snapshot` says that two versions share a stripe, or that the older one sits at 0 under a snapshot at 0, which 0 as "none" cannot tell apart |
| `CompactionPlan.KeyNotExistsBeyondOutputLevel` | `task1/rocksdb/db/compaction.cc:281-308` | The cursor test agrees with "no file below the output level covers the key", cursors only advance, and stay valid for every later key |
| `CompactionPlan.WidenByEachFile` | `task1/rocksdb/db/compaction.cc:53-67` | A level-0 input widens the range by every file |
| `CompactionPlan.WidenByEnds` | `task1/rocksdb/db/compaction.cc:68-80` | A deeper input widens the range by its first and last file, which bound all of them |
| `CompactionPlan.GetBoundaryKeys` | `task1/rocksdb/db/compaction.cc:43-82` | The result is the hull of all input files, for any mix of level-0 and sorted inputs |
| `CompactionPlan.IsBottommostLevel` | `task1/rocksdb/db/compaction.cc:86-118` | Bottommost exactly if no older level-0 file stays behind and no file below the output level overlaps the inputs' hull (for output level 0: no such file at all) |
| `CompactionPlan.PlanCompaction` | `task1/rocksdb/db/compaction.cc:142-194` | What a compaction derives from its input files: the bottommost flag and the largest user key |
| `CompactionPlan.BottommostCovers` | `task1/rocksdb/db/compaction.cc:86-118` | A bottommost compaction has nothing below its output level for any key inside one of its files |
| `CompactionSteps.VisitKeepsCoherence` | `task1/rocksdb/db/compaction_iterator.cc:166-538` | One turn puts out only the first record's key, sequence number and type, uses two records only for a SingleDelete and its pair, and leaves a carry that describes the rest of the input |
| `CompactionSteps.RunKeysComeFromInput` | `task1/rocksdb/db/compaction_iterator.cc:166-538` | Nothing is put out under a key the input does not have |
| `CompactionReads.SurvivorsAreOlder` | `task1/rocksdb/db/compaction_iterator.cc:438-450` | Surviving versions of a key lie in strictly older stripes than what was put out before them |
| `CompactionReads.NothingBelowOldestStripe` | `task1/rocksdb/db/compaction_iterator.cc:451-470` | Below the oldest stripe's newest version the output says nothing more about the key |
| `CompactionReads.OnlyObsoleteTombstonesVanish` | `task1/rocksdb/db/compaction_iterator.cc:451-470` | A version some reader would find is dropped only if it is an obsolete tombstone |
| `CompactionReads.PutDeleteReads` | `task1/rocksdb/db/compaction_iterator.cc:166-538` | For a Put/Delete key, any carry and any deeper data: the read after compaction is the old answer, except that a dropped tombstone is transparent |
| `SingleDeleteReads.UnsettledSingleDelete` | `task1/rocksdb/db/compaction_iterator.cc:309-437` | A SingleDelete that is dropped, paired or retained leaves every read to the rest of the input |
| `SingleDeleteReads.SettledTurn` | `task1/rocksdb/db/compaction_iterator.cc:309-437` | A record put out where the reader sees it is the one the reader would have found |
| `SingleDeleteReads.KeptRecordIsItsPut` | `task1/rocksdb/db/compaction_iterator.cc:309-318` | The two assertions at 313 and 314: the record kept under a retained SingleDelete is a Put in the same stripe; it is put out without its value |
| `SingleDeleteReads.SingleDeleteKeyReads` | `task1/rocksdb/db/compaction_iterator.cc:309-437` | Keys whose history alternates Put and SingleDelete read the same through pair elimination, retention with the value cleared, and fall-through |
| `CompactionOrder.TombstonesAreNeverZeroed` | `task1/rocksdb/db/compaction_iterator.cc:540-557` | The assertion at 553 holds: a record whose sequence number is squashed is never a Delete or SingleDelete |
| `CompactionOrder.NothingAfterOldestStripe` | `task1/rocksdb/db/compaction_iterator.cc:438-450` | At the bottommost level a version in the oldest stripe is the last one of its key |
| `CompactionOrder.RunStrictlySorted` | `task1/rocksdb/db/compaction_iterator.cc:540-557` | The output, with squashed sequence numbers, is strictly sorted by key ascending and sequence descending |
| `CompactionDrops.OutputComesFromInput` | `task1/rocksdb/db/compaction_iterator.cc:166-557` | Every output record is an input record, at most with its value cleared or its sequence number squashed, the latter only where that is allowed |
| `CompactionDrops.SquashedWherePossible` | `task1/rocksdb/db/compaction_iterator.cc:540-557` | In a bottommost job an output record has sequence number 0 or one above the oldest snapshot, unless its key is the largest; any other record keeps its sequence number |
| `CompactionDrops.DoubledGoes` | `task1/rocksdb/db/compaction_iterator.cc:353-371` | Of two SingleDeletes in a row in one stripe the newer one is not put out |
| `CompactionDrops.PairFate` | `task1/rocksdb/db/compaction_iterator.cc:373-407` | A SingleDelete and the version under it in its stripe: nothing of them is put out if it is at or below the conflict boundary or a newer record of the key was put out, not as the first of the run; otherwise both are, the second without its value |
| `CompactionDrops.HiddenGoes` | `task1/rocksdb/db/compaction_iterator.cc:438-450` | A Put or Delete right under another one of its key and stripe is not put out, for any carry |
| `CompactionDrops.KeptTombstonesAreNeeded` | `task1/rocksdb/db/compaction_iterator.cc:413-470` | Every Delete or SingleDelete that is put out is newer than the oldest snapshot or may have something deeper to cover |
| `CompactionTheorems.CompactionPreservesReads` | `task1/rocksdb/db/compaction_iterator.cc:166-538` | For keys within the Put/Delete or Put/SingleDelete contract every live read over output plus deeper data equals that over input plus deeper data, provided the deeper data lies where the level test looks |
| `CompactionTheorems.NewestSurvivesForConflictCheck` | `task1/rocksdb/db/compaction_iterator.cc:309-437` | When the conflict snapshot is live, a key's newest record above it stays the newest record in the output, so that write-conflict checking can see it; of SingleDeletes in a row a later one, still above it, may take its place |
| `TombstoneDrops.PutDeleteReadsPreservedIff` | `task1/rocksdb/db/compaction_iterator.cc:451-470` | For a Put/Delete key over older deeper data, whatever the level test says: reads are preserved if and only if no tombstone that the oldest snapshot finds is dropped over a deeper Put |
| `TombstoneDrops.SingleDeleteReadsPreservedIff` | `task1/rocksdb/db/compaction_iterator.cc:413-432` | The same exact condition for a Put/SingleDelete key, where the fall-through drop plays the part of the dropped tombstone |
| `TombstoneDrops.FallsThrough` | `task1/rocksdb/db/compaction_iterator.cc:309-437` | A history that the oldest snapshot sees begin with a SingleDelete leaves nothing of it in the output: pairs are eliminated and the last SingleDelete falls through |
| `TombstoneDrops.IntraLevel0LosesTombstone` | `task1/rocksdb/db/compaction.cc:281-308` | A concrete level-0 to level-0 compaction drops a Delete or a SingleDelete and brings an older level-0 Put back |
| `SnapshotZero.ZeroSnapshotHides` | `task1/rocksdb/db/compaction_iterator.cc:300-305` | A Put/Delete key of which all versions left sit at 0 under a snapshot at 0 leaves nothing in the output |
| `SnapshotZero.PutDeleteReadsSurviveIff` | `task1/rocksdb/db/compaction_iterator.cc:300-305` | Put/Delete keys, every snapshot and any older deeper data: reads survive exactly unless a dropped tombstone covered a deeper Put, or the newest version sits at 0 under a snapshot at 0 and deeper data does not answer as it did |
| `SnapshotZero.ZeroPutGoes` | `task1/rocksdb/db/compaction_iterator.cc:309-437` | What the reader at 0 gets for a Put at 0 that is hidden from the loop, for any carry: nothing, or an empty value exactly when the SingleDelete over it is put out; and when that is |
| `SnapshotZero.HiddenPutReads` | `task1/rocksdb/db/compaction_iterator.cc:309-437` | Such a Put is what the reader at 0 found before; under a SingleDelete every later reader is unaffected |
| `SnapshotZero.SingleDeleteReadsSurviveIff` | `task1/rocksdb/db/compaction_iterator.cc:309-437` | Put/SingleDelete keys, every snapshot and any deeper data: reads survive exactly unless a SingleDelete falls through over a deeper Put, or a Put at 0 under a snapshot at 0 is lost (first of its key, or under a version with no snapshot other than 0 below it; an empty one survives with its retained SingleDelete) |
| `SnapshotZero.PairKeptWhen` | `task1/rocksdb/db/compaction_iterator.cc:373-407` | The retained pair: never for a SingleDelete at or below the conflict boundary, always for a newer one that is the newest version of its key |
| `SnapshotZero.SnapshotZeroLosesPut` | `task1/rocksdb/db/compaction_iterator.cc:363` | The two smallest inputs that lose a Put at 0, alone and under a SingleDelete, for either conflict boundary |
| `CompactionJobs.FlagIsHonest` | `task1/rocksdb/db/compaction.cc:86-118` | The bottommost flag computed from the input files may be trusted for every record in those files |
| `CompactionJobs.LevelTestIsHonest` | `task1/rocksdb/db/compaction.cc:281-308` | When everything behind the inputs lies below the output level, a positive test, universal compaction included, means the deeper data does not hold an input key |
| `CompactionJobs.JobPreservesReads` | `task1/rocksdb/db/compaction_iterator.cc:166-538` | End to end: for a plan computed from the input files every live read of every key within its contract survives |
| `CompactionJobs.JobOutputIsSorted` | `task1/rocksdb/db/compaction_iterator.cc:540-557` | End to end: the output of such a job is strictly sorted, squashed sequence numbers included |
| `CompactionChains.HistoryIsKept` | `task1/rocksdb/db/compaction_iterator.cc:309-437` | Output over deeper data satisfies the SingleDelete contract again and may replace the input under any newer data |
| `CompactionChains.NothingUnderSquashed` | `task1/rocksdb/db/compaction_iterator.cc:540-557` | No version of a key is left, in the output or deeper, under one whose sequence number is squashed |
| `CompactionChains.CompactionKeepsKey` | `task1/rocksdb/db/compaction_iterator.cc:166-538` | One compaction anywhere in the search order keeps every key's contract and every live read |
| `CompactionChains.SnapshotsAreStable` | `task1/rocksdb/db/compaction_iterator.cc:166-538` | Over any sequence of writes and compactions with changing snapshots, none with an input version at 0 under a snapshot at 0, a reader that stays live keeps reading what it read |
| `CompactionIterators.FindEarliestVisibleSnapshot` | `task1/rocksdb/db/compaction_iterator.cc:559-574` | The sequential search returns the stripe of a sequence number and the snapshot before it |
| `CompactionIterators.TakenOneMore` | `task1/rocksdb/db/compaction_iterator.cc:121-164` | Taking the current output extends what has been taken from the run by one record |
| `CompactionIterators.CompactionIterator.constructor` | `task1/rocksdb/db/compaction_iterator.cc:51-101` | A new iterator has everything still to produce: the run over the whole input |
| `CompactionIterators.CompactionIterator.KeyIsGoneBelow` | `task1/rocksdb/db/compaction_iterator.cc:422-424` | The level test of the iterator is the plain test, whatever keys were asked before |
| `CompactionIterators.CompactionIterator.FallThrough` | `task1/rocksdb/db/compaction_iterator.cc:413-432` | A SingleDelete without an older version is dropped only if nothing deeper can hold its key |
| `CompactionIterators.CompactionIterator.VisitTheSingleDelete` | `task1/rocksdb/db/compaction_iterator.cc:309-437` | The look-ahead branch does what the specification turn does, including the statistics of dropped records |
| `CompactionIterators.CompactionIterator.NoteRecord` | `task1/rocksdb/db/compaction_iterator.cc:210-305` | The bookkeeping of current key, sequence number and stripe is the specification's |
| `CompactionIterators.CompactionIterator.KeepOrDrop` | `task1/rocksdb/db/compaction_iterator.cc:438-527` | Hidden versions and obsolete tombstones are dropped, everything else is put out |
| `CompactionIterators.CompactionIterator.VisitRecord` | `task1/rocksdb/db/compaction_iterator.cc:170-529` | One turn of the loop is one turn of the specification |
| `CompactionIterators.CompactionIterator.NextFromInput` | `task1/rocksdb/db/compaction_iterator.cc:166-538` | The loop ends at the next record of the run, or with none left |
| `CompactionIterators.CompactionIterator.PrepareOutput` | `task1/rocksdb/db/compaction_iterator.cc:540-557` | The sequence number is squashed exactly where the specification squashes it |
| `CompactionIterators.CompactionIterator.SeekToFirst` | `task1/rocksdb/db/compaction_iterator.cc:116-119` | Presents the first record of the run |
| `CompactionIterators.CompactionIterator.Next` | `task1/rocksdb/db/compaction_iterator.cc:121-164` | Presents the next record of the run; the run so far plus what is pending is unchanged |
| `CompactionIterators.Seek` | `task1/rocksdb/db/compaction_job.cc:732-740` | The sought input is the part at or after the start key |
| `CompactionIterators.TakeUntil` | `task1/rocksdb/db/compaction_job.cc:777-788` | Exactly the outputs below the end key are taken |
| `CompactionIterators.CompactKeyRange` | `task1/rocksdb/db/compaction_job.cc:732-788` | One subcompaction puts out the records below its end key of the run over the input from its start key |
| `Subcompactions.CandidateBounds` | `task1/rocksdb/db/compaction_job.cc:414-447` | The candidate keys are exactly both ends of every level-0 file, both ends of each deeper level, and every start in the output level |
| `Subcompactions.CandidatesSpanFiles` | `task1/rocksdb/db/compaction_job.cc:414-447` | The candidates reach from the first key to the last of every input file in the levels concerned; both ends of level-0 files and the starts of output-level files are among them |
| `Subcompactions.SortUnique` | `task1/rocksdb/db/compaction_job.cc:449-457` | The bounds become strictly increasing with the same members |
| `Subcompactions.MakeRanges` | `task1/rocksdb/db/compaction_job.cc:462-476` | Consecutive bounds with their sizes; the sum is the total of all ranges |
| `Subcompactions.MaxOutputFiles` | `task1/rocksdb/db/compaction_job.cc:480-482` | The number of output files when each is filled to four fifths, rounded up |
| `Subcompactions.GroupRanges` | `task1/rocksdb/db/compaction_job.cc:478-511` | Ranges are grouped greedily: every closed group ends with the first range that takes it to the mean, and the last one stays below the mean unless as many groups as allowed are there; sizes add up to the total, and the number of groups is within all limits |
| `Subcompactions.GenSubcompactionBoundaries` | `task1/rocksdb/db/compaction_job.cc:404-512` | Boundaries strictly increase, lie strictly inside the candidate keys and cut the consecutive ranges greedily at the mean as above; one more size than boundaries, summing to the total of all ranges |
| `SubcompactionSplit.RunSubcompactions` | `task1/rocksdb/db/compaction_job.cc:514-577` | Running all ranges and concatenating gives the specification's split output |
| `SubcompactionSplit.OneCut` | `task1/rocksdb/db/compaction_job.cc:732-788` | For every input, past a cut the run goes on as a fresh iterator would, except for the mark of the first output |
| `SubcompactionSplit.OneCutIff` | `task1/rocksdb/db/compaction_job.cc:732-788` | A cut changes nothing exactly when nothing was put out below it or no open SingleDelete pair lies under the first record above it |
| `SubcompactionSplit.SplitEqualsUnsplitIff` | `task1/rocksdb/db/compaction_job.cc:732-788` | The concatenated subcompaction outputs equal one unsplit pass if and only if no range with output below it has an open SingleDelete pair under its first output |
| `SubcompactionSplit.SplitEqualsUnsplit` | `task1/rocksdb/db/compaction_job.cc:732-788` | For Puts and Deletes the outputs always agree, for any increasing boundaries |
| `SubcompactionSplit.SplitPreservesReads` | `task1/rocksdb/db/compaction_job.cc:732-788` | For every input within contract, SingleDeletes included, reads survive any split |
| `SubcompactionSplit.RunAppends` | `task1/rocksdb/db/compaction_iterator.cc:121-164` | The run over two key-disjoint stretches is one run after the other, sharing only the mark of the first output |
| `SubcompactionSplit.FirstMarkIff` | `task1/rocksdb/db/compaction_iterator.cc:116-164` | Whether the first record is marked as put out changes the output exactly when an open SingleDelete pair lies under it |
| `SubcompactionSplit.SplitCanKeepSingleDeletes` | `task1/rocksdb/db/compaction_iterator.cc:116-119` | A split at a key keeps a SingleDelete pair that one pass eliminates |
| `DictionarySampler.SampleContinues` | `task1/rocksdb/db/compaction_job.cc:825-848` | The part of a sample copied from an element is its continuation, wherever the sample begins and ends |
| `DictionarySampler.SampleElement` | `task1/rocksdb/db/compaction_job.cc:814-857` | One key or value extends the dictionary to that of the longer stream; the assertion at 823 holds |
| `DictionarySampler.BuildDictionary` | `task1/rocksdb/db/compaction_job.cc:811-858` | The dictionary is the concatenation, in order, of the 64-byte samples of the whole stream, clipped at its end |
| `DictionarySampler.DictionaryLength` | `task1/rocksdb/db/compaction_job.cc:693-713` | The dictionary is never longer than its samples, and has full length when the stream reaches past the last |
| `DictionarySampler.DictionaryBytes` | `task1/rocksdb/db/compaction_job.cc:811-858` | As long as samples are complete, piece k of the dictionary is, byte for byte, the 64 bytes of the stream from offset k on |
| `DictionarySampler.StreamHoldsPair` | `task1/rocksdb/db/compaction_job.cc:811-858` | The stream holds every pair right behind those before it, the key first |
| `SuperVersions.EnabledStepsAreSafe` | `task1/rocksdb/db/column_family.cc:288-311` | No assertion of the source fails in a reachable state: counts are positive before decrements, cleanup sees zero, slots hold what Return and Get assert |
| `SuperVersions.StepKeepsInv` | `task1/rocksdb/db/column_family.cc:842-959` | Every step of every thread and of the installer keeps the invariant |
| `SuperVersions.RunsAreSafe` | `task1/rocksdb/db/column_family.cc:842-959` | Every interleaving of get, return, install and scrape steps runs without failing an assertion |
| `SuperVersions.ReferenceCountsAreExact` | `task1/rocksdb/db/column_family.cc:288-311` | A count equals 1 if current, plus the slots that cache it, plus the references in flight; zero means cleaned once, or owed exactly one cleanup |
| `SuperVersions.NeverCleanedInUse` | `task1/rocksdb/db/column_family.cc:853-915` | A thread between Get and Return never works on a SuperVersion that was or is being cleaned |
| `SuperVersions.CachesAreCurrent` | `task1/rocksdb/db/column_family.cc:945-959` | Once an installation is over, every cached pointer is the current SuperVersion |
| `SuperVersions.QuiescentMeansCleaned` | `task1/rocksdb/db/column_family.cc:923-943` | At rest and without client references, every SuperVersion but the current one was cleaned exactly once |
| `SuperVersions.ScrapeKeepsInv` | `task1/rocksdb/db/column_family.cc:945-959` | Scraping takes over exactly the references of the slots it empties |
| `SuperVersions.UsesAreFresh` | `task1/rocksdb/db/column_family.cc:853-897` | Over every interleaving, a thread that uses nothing older than some installed version never comes to use anything older |
| `SuperVersions.GetIsCurrentAtStart` | `task1/rocksdb/db/column_family.cc:853-897` | Over every interleaving, a Get returns a SuperVersion no older than the one current when it began |
| `SuperVersions.CacheServes` | `task1/rocksdb/db/column_family.cc:853-915` | While nothing is installed, a thread that has the current SuperVersion in its slot or in use keeps having it, and its Gets and Returns never need the mutex |
| `SuperVersions.CachedGet` | `task1/rocksdb/db/column_family.cc:853-897` | A Get that finds the current SuperVersion cached hands it out after its two steps; counts do not change |
| `SuperVersions.GetCompletes` | `task1/rocksdb/db/column_family.cc:853-897` | Whatever the slot holds, an idle thread gets to the current SuperVersion by steps of its own whenever the mutex is free |
| `SuperVersions.ReferencedGet` | `task1/rocksdb/db/column_family.cc:842-851` | A referenced Get hands its caller one reference to what the thread uses; the slot keeps its own exactly if it still has the thread's mark |
| `SuperVersions.InstallationEnds` | `task1/rocksdb/db/column_family.cc:923-959` | An installation under way can always be carried through |
| `SuperVersions.ThreadEnds` | `task1/rocksdb/db/column_family.cc:842-915` | No thread is ever stuck between Get and Return |
| `ClockFlags.EnabledStepsAreSafe` | `task1/rocksdb/cache/clock_cache.cc:421-476` | No assertion on the flag words fails in a reachable state |
| `ClockFlags.StepKeepsInv` | `task1/rocksdb/cache/clock_cache.cc:397-491` | Every atomic flag step and every section step keeps the invariant |
| `ClockFlags.RunsAreSafe` | `task1/rocksdb/cache/clock_cache.cc:397-491` | Every interleaving runs to its end without failing an assertion |
| `ClockFlags.BinHoldsOnlyFreeHandles` | `task1/rocksdb/cache/clock_cache.cc:397-408` | `recycle_` holds each free handle once and never one that is in the cache or referenced |
| `ClockFlags.EachLifeRecycledOnce` | `task1/rocksdb/cache/clock_cache.cc:441-476` | Each entry a handle has held was recycled exactly once, or is live, or has exactly one thread retiring it |
| `ClockFlags.ReferencedIsNotReused` | `task1/rocksdb/cache/clock_cache.cc:421-439` | A handle somebody references is neither recycled nor refilled |
| `ClockRuns.UsedEntryStays` | `task1/rocksdb/cache/clock_cache.cc:478-491` | Over every interleaving, a used entry that is not erased is still cached after one more examination |
| `ClockRuns.ReleaseIsUse` | `task1/rocksdb/cache/clock_cache.cc:441-445` | Over every interleaving, a release leaves the entry used unless it is examined or erased meanwhile |
| `ClockRuns.ReleasedGetsSecondChance` | `task1/rocksdb/cache/clock_cache.cc:441-491` | Together: after a release the next examination leaves the entry cached, whatever else happens |
| `ClockRuns.NewEntryGoesFirst` | `task1/rocksdb/cache/clock_cache.cc:478-491` | An entry to which no reference is ever given back is evicted and recycled by the first examination that finds it idle |
| `ClockRuns.TwoLooksEvict` | `task1/rocksdb/cache/clock_cache.cc:478-491` | Two examinations of an idle entry evict it, used or not |
| `ClockRuns.ErasedIsGone` | `task1/rocksdb/cache/clock_cache.cc:463-476` | An erased entry is never found again, and starts to be recycled at once if nobody refers to it |
| `ClockRuns.LookupSucceeds` | `task1/rocksdb/cache/clock_cache.cc:604-627` | A lookup whose handle is in the cache gets a reference to the entry that is there, whatever happens until it has compared the key |
| `ClockRuns.ClientsHold` | `task1/rocksdb/cache/clock_cache.cc:629-638` | A reference stays with its client until the client releases it, and clients get none but from lookups and insertions |
| `ClockRuns.HandlesAreReused` | `task1/rocksdb/cache/clock_cache.cc:548-557` | The list does not grow while the bin has handles |
| `ClockRuns.TaskEnds` | `task1/rocksdb/cache/clock_cache.cc:397-476` | Every lookup and release can come to its end by at most three steps of its own |
| `ClockRuns.SectionEnds` | `task1/rocksdb/cache/clock_cache.cc:397-491` | The thread in the critical section can always finish by itself |
| `ClockCache.ClockCacheShard.RecycleHandle` | `task1/rocksdb/cache/clock_cache.cc:397-408` | The handle joins the bin, its entry goes to the deleter, and its charge leaves the usage |
| `ClockCache.ClockCacheShard.TryEvict` | `task1/rocksdb/cache/clock_cache.cc:478-491` | Evicts a cached, unreferenced handle whose usage bit is clear; otherwise only clears the bit |
| `ClockCache.ClockCacheShard.EvictFromCache` | `task1/rocksdb/cache/clock_cache.cc:493-517` | At most twice as many examinations as handles; state and deleted entries are those of a sweep of that length; success exactly when pinned usage, the one entry the sweep spares, and the new charge fit |
| `ClockCache.ClockCacheShard.UnsetInCache` | `task1/rocksdb/cache/clock_cache.cc:463-476` | The in-cache bit goes, and with it an entry nobody refers to |
| `ClockCache.ClockCacheShard.Store` | `task1/rocksdb/cache/clock_cache.cc:548-565` | The entry takes a handle from the bin or a new one |
| `ClockCache.ClockCacheShard.Lookup` | `task1/rocksdb/cache/clock_cache.cc:604-627` | A hit takes one reference of exactly the cached handle of the key |
| `ClockCache.ClockCacheShard.Unref` | `task1/rocksdb/cache/clock_cache.cc:441-461` | The last reference to an uncached entry retires it; otherwise the handle keeps everything but one reference and a usage bit that is set if asked and kept if not; counters follow |
| `ClockCache.ClockCacheShard.Release` | `task1/rocksdb/cache/clock_cache.cc:629-638` | Unless forced or last of an uncached entry, the handle is left with its usage bit set and one reference fewer, and survives the next examinations of the whole list; forced, the key\'s entry is erased as well; what goes to its deleter, exactly |
| `ClockCache.ClockCacheShard.EraseAndConfirm` | `task1/rocksdb/cache/clock_cache.cc:646-657` | Whatever is cached under the key leaves the table; a referenced entry keeps everything but its in-cache bit |
| `ClockCache.ClockCacheShard.EraseUnRefEntries` | `task1/rocksdb/cache/clock_cache.cc:659-669` | No handle is in the cache any more; referenced ones keep everything else; the unreferenced entries go to their deleters in list order |
| `ClockCache.ClockCacheShard.SetCapacity` | `task1/rocksdb/cache/clock_cache.cc:519-527` | Eviction runs for a charge of zero, with its exact success condition and deleter calls; if usage still exceeds the new capacity, nothing is left that could be evicted |
| `ClockCache.ClockCacheShard.Admit` | `task1/rocksdb/cache/clock_cache.cc:548-599` | The entry takes a free handle and the place of its key; whoever held it is let go, and deleted if nobody refers to it |
| `ClockCache.ClockCacheShard.Insert` | `task1/rocksdb/cache/clock_cache.cc:534-602` | The new entry replaces the key's former one in table, list and counters; refusal exactly when no room was made and the entry may not exceed the capacity; what is handed to deleters, exactly |
| `ClockSweeps.FailureMeansAllPinned` | `task1/rocksdb/cache/clock_cache.cc:493-517` | Failure means no cached entry with a charge is left without references |
| `ClockSweeps.SweptHandle` | `task1/rocksdb/cache/clock_cache.cc:493-517` | Within two rounds each handle is examined once a round, in the order of the hand |
| `ClockSweeps.LastChance` | `task1/rocksdb/cache/clock_cache.cc:493-517` | One examination short of two rounds, what is left is what is referenced, and the entry just behind the hand if it was used since last seen |
| `ClockSweeps.SuccessIff` | `task1/rocksdb/cache/clock_cache.cc:493-517` | Eviction succeeds exactly when the referenced entries, the one spared entry and the new charge fit: known before the call |
| `ClockSweeps.FailureWithRoomIff` | `task1/rocksdb/cache/clock_cache.cc:493-517` | Failure is reported although there is room exactly when only the spared entry was in the way |
| `ClockSweeps.SecondChance` | `task1/rocksdb/cache/clock_cache.cc:478-491` | A recently used entry survives the first round |
| `ClockSweeps.SweepOnlyAges` | `task1/rocksdb/cache/clock_cache.cc:478-491` | A sweep only clears usage bits and empties cached entries nobody refers to |
| `ClockSweeps.TwoRoundsEvictAll` | `task1/rocksdb/cache/clock_cache.cc:493-517` | Two rounds leave no cached entry without references |
| `ClockSweeps.RoomFoundTooLate` | `task1/rocksdb/cache/clock_cache.cc:493-517` | A concrete shard for which room appears with the last examination and failure is reported |
| `ClockSweeps.LiveIsPinned` | `task1/rocksdb/cache/clock_cache.cc:659-669` | When nothing is cached any more, usage is pinned usage |
| `LruHandleTables.MaskIsRemainder` | `task1/rocksdb/cache/lru_cache.cc:68-74` | For a power-of-two length the mask picks the remainder's bucket |
| `LruHandleTables.InsertKeepsChains` | `task1/rocksdb/cache/lru_cache.cc:42-56` | Replacing or appending an entry keeps every chain exactly its bucket's entries, each once |
| `LruHandleTables.DropFromChains` | `task1/rocksdb/cache/lru_cache.cc:58-66` | Unlinking an entry keeps every chain exactly its bucket's entries |
| `LruHandleTables.MovedIsChains` | `task1/rocksdb/cache/lru_cache.cc:84-95` | When all entries have moved, the new chains hold exactly the table's entries |
| `LruHandleTables.ValuesCount` | `task1/rocksdb/cache/lru_cache.cc:96` | Entries at their own places are as many as their handles, so that counting moves counts entries |
| `LruHandleTables.LRUHandleTable.constructor` | `task1/rocksdb/cache/lru_cache.cc:25-27` | An empty table of a power-of-two length of at least 16 |
| `LruHandleTables.LRUHandleTable.FindPointer` | `task1/rocksdb/cache/lru_cache.cc:68-74` | The pointer-to-pointer ends at the key's entry, or behind the bucket's chain |
| `LruHandleTables.LRUHandleTable.Lookup` | `task1/rocksdb/cache/lru_cache.cc:38-40` | The entry of the key and hash in the finite map, or null |
| `LruHandleTables.LRUHandleTable.LinkIn` | `task1/rocksdb/cache/lru_cache.cc:42-46` | The pointer writes of an insertion leave every bucket's chain linked |
| `LruHandleTables.LRUHandleTable.LinkOut` | `task1/rocksdb/cache/lru_cache.cc:58-64` | The pointer write of a removal leaves every bucket's chain linked |
| `LruHandleTables.LRUHandleTable.Insert` | `task1/rocksdb/cache/lru_cache.cc:42-56` | The map gains or replaces one entry, the former one is returned, and `elems_ <= length_` holds again |
| `LruHandleTables.LRUHandleTable.Remove` | `task1/rocksdb/cache/lru_cache.cc:58-66` | The map loses the entry of the key and hash, which is returned |
| `LruHandleTables.LRUHandleTable.MoveAll` | `task1/rocksdb/cache/lru_cache.cc:84-96` | Every entry moves exactly once: the count asserted at 96 is `elems_` |
| `LruHandleTables.LRUHandleTable.Resize` | `task1/rocksdb/cache/lru_cache.cc:76-100` | The map is unchanged, nothing lost or duplicated; the length is a power of two of at least 16 and at least one and a half times the entries |
| `LruLists.Unlink` | `task1/rocksdb/cache/lru_cache.cc:160-168` | The pointer writes take one handle out of the circular list |
| `LruLists.LinkBehind` | `task1/rocksdb/cache/lru_cache.cc:176-196` | The pointer writes put one handle behind another of the circular list |
| `LruLists.OverflowFits` | `task1/rocksdb/cache/lru_cache.cc:201-209` | Overflowing keeps the list and its order, ends within capacity, and moves no entry that could have stayed |
| `LruLists.LruList.constructor` | `task1/rocksdb/cache/lru_cache.cc:102-108` | An empty circular list |
| `LruLists.LruList.MaintainPoolSize` | `task1/rocksdb/cache/lru_cache.cc:201-209` | Terminates without reaching the dummy head and overflows exactly the oldest high-priority entries that do not fit |
| `LruLists.LruList.Remove` | `task1/rocksdb/cache/lru_cache.cc:160-174` | The entry leaves its pool; both usages, the low-priority end and the pool bits follow |
| `LruLists.LruList.Insert` | `task1/rocksdb/cache/lru_cache.cc:176-199` | A high-priority entry becomes the newest of its pool, which then overflows; any other becomes the newest low-priority entry |
| `LruLists.LruList.OldestIsNext` | `task1/rocksdb/cache/lru_cache.cc:211-214` | `lru_.next` is the oldest entry, or the dummy head of an empty list |
| `LruCache.EvictsJustEnough` | `task1/rocksdb/cache/lru_cache.cc:211-224` | Eviction takes the shortest run of oldest entries that makes room, or all |
| `LruCache.SurvivorsByPool` | `task1/rocksdb/cache/lru_cache.cc:211-224` | The low-priority pool is evicted first, the high-priority one for what is then still over |
| `LruCache.ShrinkingCanOverfillPool` | `task1/rocksdb/cache/lru_cache.cc:226-239` | A shard whose pool fits is built and shrunk, and its pool is overfull |
| `LruCache.ListIsPartOfTotal` | `task1/rocksdb/cache/lru_cache.cc:421-425` | The charge of all referenced entries splits into that on the list and the rest |
| `LruCache.LRUCacheShard.LifeCycle` | `task1/rocksdb/cache/lru_cache.h:27-44` | The three states of a live entry: on the list exactly when cached with one reference; cached exactly when the table maps its key to it; with the list empty while usage exceeds capacity |
| `LruCache.LRUCacheShard.constructor` | `task1/rocksdb/cache/lru_cache.cc:102-108` | An empty shard is valid |
| `LruCache.LRUCacheShard.EvictFromLRU` | `task1/rocksdb/cache/lru_cache.cc:211-224` | Evicts exactly the shortest run of oldest entries, pool by pool; the assertions at 215 and 216 hold; all others keep their references |
| `LruCache.LRUCacheShard.Free` | `task1/rocksdb/cache/lru_cache.h:105-111` | An entry is handed to its deleter at most once, in one of the two states its assertion allows |
| `LruCache.LRUCacheShard.SetCapacity` | `task1/rocksdb/cache/lru_cache.cc:226-239` | New limits with the old ratio, eviction as needed, everything evicted is freed; the pool fits afterwards exactly when what eviction leaves of it fits the new size |
| `LruCache.LRUCacheShard.Lookup` | `task1/rocksdb/cache/lru_cache.cc:246-257` | A hit leaves the list and gains one reference; nothing else changes |
| `LruCache.LRUCacheShard.Ref` | `task1/rocksdb/cache/lru_cache.cc:259-267` | One more reference, off the list |
| `LruCache.LRUCacheShard.DropReference` | `task1/rocksdb/cache/lru_cache.cc:112-116` | One reference fewer; the last one of an entry outside the table ends its life and its charge |
| `LruCache.LRUCacheShard.Release` | `task1/rocksdb/cache/lru_cache.cc:276-312` | Freed exactly when it was the last reference, or the entry is idle and the cache is full or force is set; otherwise an idle entry joins the list; the assertion at 293 holds |
| `LruCache.LRUCacheShard.RefusalMeans` | `task1/rocksdb/cache/lru_cache.cc:328-344` | An insertion is turned away exactly if what is referenced outside and the new charge exceed the capacity and no handle is wanted or the limit is strict; any other such insertion fits after eviction |
| `LruCache.LRUCacheShard.Insert` | `task1/rocksdb/cache/lru_cache.cc:314-389` | What is evicted, refused, dropped or displaced, exactly; freed are the victims, the displaced entry if only the cache held it, and a dropped newcomer, nothing else; the order of both pools; usage goes beyond the capacity only for a handle without a strict limit |
| `LruCache.LRUCacheShard.Erase` | `task1/rocksdb/cache/lru_cache.cc:391-414` | The entry leaves the table; it is freed exactly if nobody refers to it; every other entry keeps its references |
| `LruCache.LRUCacheShard.EraseUnRefEntries` | `task1/rocksdb/cache/lru_cache.cc:120-141` | Exactly the entries on the list are freed; usage becomes the pinned usage |
| `LruCache.LRUCacheShard.SetHighPriorityPoolRatio` | `task1/rocksdb/cache/lru_cache.cc:269-274` | The pool fits its new size at once, by overflowing its oldest entries |
| `LruCache.LRUCacheShard.GetPinnedUsage` | `task1/rocksdb/cache/lru_cache.cc:421-425` | The charge of exactly the entries referenced outside; the assertion holds |
| `PrepLogs.PrepTracker.MarkLogAsContainingPrepSection` | `task1/rocksdb/db/db_impl_files.cc:59-67` | One more outstanding prepare of the log |
| `PrepLogs.PrepTracker.MarkLogAsHavingPrepSectionFlushed` | `task1/rocksdb/db/db_impl_files.cc:51-57` | One outstanding prepare fewer; the assertion holds while flush marks do not exceed prepare marks |
| `PrepLogs.PrepTracker.FindMinLogContainingOutstandingPrep` | `task1/rocksdb/db/db_impl_files.cc:69-101` | The least log with an outstanding prepare, or 0 if there is none; nothing outstanding changes |
| `PrepLogs.PrepTracker.MinLogNumberToKeep` | `task1/rocksdb/db/db_impl_files.cc:103-127` | No log at or above the result is needed less than the three sources say |
| `PrepLogs.CleanTopIsLeast` | `task1/rocksdb/db/db_impl_files.cc:78-96` | A top without pending deletion is the least outstanding log |
| `PrepLogs.FindMinPrepLogReferencedByMemTable` | `task1/rocksdb/db/db_impl_files.cc:21-49` | The least nonzero log a live memtable refers to |
| `InputSanitizer.OverlapIsIntersection` | `task1/rocksdb/db/compaction_picker.cc:708-729` | The branches of `HaveOverlappingKeyRanges` decide exactly whether the closed intervals intersect |
| `InputSanitizer.OverlapIsForced` | `task1/rocksdb/db/compaction_picker.cc:836-859` | A file that overlaps the hull of chosen files at or above its level is in every closed set |
| `InputSanitizer.BlockIsForced` | `task1/rocksdb/db/compaction_picker.cc:764-812` | Files between the first and last chosen one, and neighbours that share keys with them, are in every closed set |
| `InputSanitizer.GapLiesInside` | `task1/rocksdb/db/compaction_picker.cc:814-834` | A file outside the block that overlaps the stretched range lies inside it, so that the range stays the hull |
| `InputSanitizer.StretchedIsHull` | `task1/rocksdb/db/compaction_picker.cc:814-834` | After a level the range is the hull of all chosen files down to that level |
| `InputSanitizer.LevelIsDone` | `task1/rocksdb/db/compaction_picker.cc:759-860` | One round keeps: everything chosen is forced, levels done are closed and idle, and levels below are covered |
| `InputSanitizer.Expand` | `task1/rocksdb/db/compaction_picker.cc:782-802` | The block grows to the next clean boundaries of its level, and not further |
| `InputSanitizer.StretchRange` | `task1/rocksdb/db/compaction_picker.cc:814-834` | The range grows to hold the block and is attained |
| `InputSanitizer.SanitizeCompactionInputFilesForAllLevels` | `task1/rocksdb/db/compaction_picker.cc:732-862` | OK: the least closed set of files that holds the requested ones, none of it being compacted. Aborted: every closed set holds a file being compacted |
| `InputSanitizer.SanitizeCompactionInputFiles` | `task1/rocksdb/db/compaction_picker.cc:864-927` | The whole check, with the level bounds and the existence of every file |
| `InputSanitizer.ClosedLeavesOlderIff` | `task1/rocksdb/db/compaction_picker.cc:738-741` | A closed set leaves out an older overlapping file exactly when an unchosen level-0 file overlaps a chosen newer one: the case of the TODO |
| `InputSanitizer.OlderFileCanStayAbove` | `task1/rocksdb/db/compaction_picker.cc:732-862` | Asked for the newer of two overlapping level-0 files, the sanitizer returns that file alone |
| `InputSanitizer.ForcedExists` | `task1/rocksdb/db/compaction_picker.cc:899-924` | Completion adds existing files only, so a missing file was requested |
| `LevelFiles.OverlappingLevel0` | `task1/rocksdb/db/version_set.cc:1697-1725` | The restarting search ends, with the least clean cut of level 0 that holds every file meeting the range |
| `LevelFiles.FindFile` | `task1/rocksdb/db/version_set.cc:1784-1805` | Binary search finds a file that meets the range, or lies inside it, exactly if there is one |
| `LevelFiles.ExtendFileRangeOverlappingInterval` | `task1/rocksdb/db/version_set.cc:1833-1880` | The files that meet a range are neighbours, and these are all of them |
| `LevelFiles.ShrinkToCleanCut` | `task1/rocksdb/db/version_set.cc:1908-1951` | Shrinking from both ends stops at the largest clean cut inside the range |
| `LevelFiles.ExtendFileRangeWithinInterval` | `task1/rocksdb/db/version_set.cc:1889-1951` | The largest clean cut inside the range; it is not empty if the range holds any clean cut, so that the assertion at 1820 holds for the picker's calls |
| `LevelFiles.GetOverlappingInputs` | `task1/rocksdb/db/version_set.cc:1670-1725` | Exactly the files that meet the range; in level 0 with all that overlaps them in turn |
| `LevelFiles.GetCleanInputsWithinInterval` | `task1/rocksdb/db/version_set.cc:1733-1757` | The largest clean cut inside the range, and nothing in level 0 |
| `CompactionPickers.GetRange` | `task1/rocksdb/db/compaction_picker.cc:127-154` | The range of one level's inputs is their hull |
| `CompactionPickers.GetRangeOfAll` | `task1/rocksdb/db/compaction_picker.cc:175-200` | The range of all inputs is their hull |
| `CompactionPickers.FindSpan` | `task1/rocksdb/db/compaction_picker.cc:40-71` | The longest run of newest level-0 files that are idle and for which the work per deleted file does not grow |
| `CompactionPickers.SpanIsCheap` | `task1/rocksdb/db/compaction_picker.cc:50-59` | Past the second, a file of the span is no larger than what one deleted file has cost so far, but for rounding, and an idle file that ends the span is larger than that |
| `CompactionPickers.StartIsCompatible` | `task1/rocksdb/db/compaction_picker.cc:930-942` | Starting a compaction of unmarked files, with a free range at a deeper output level, keeps all running compactions compatible |
| `CompactionPickers.EndIsCompatible` | `task1/rocksdb/db/compaction_picker.cc:944-953` | Ending a compaction keeps the others compatible |
| `CompactionPickers.Level0Starts` | `task1/rocksdb/db/compaction_picker.cc:937-940` | Only compactions that start at level 0 take level-0 files |
| `CompactionPickers.GrowthStep` | `task1/rocksdb/db/compaction_picker.cc:218-227` | Growing by the range of what is there only grows, ends at a clean cut, and adds only what every clean cut has |
| `CompactionPickers.OutputIsClosed` | `task1/rocksdb/db/compaction_picker.cc:417-430` | The output files are closed over the input range and their own range together |
| `CompactionPickers.OutputsMeetNothingKept` | `task1/rocksdb/db/compaction_picker.cc:1185-1218` | New files of the output level meet no file that stays there |
| `CompactionPickers.OutputsStayApart` | `task1/rocksdb/db/compaction_picker.cc:247-281` | New files of two compactions that run together and write to the same deeper level never meet |
| `CompactionPickers.CompactionPicker.ExpandInputsToCleanCut` | `task1/rocksdb/db/compaction_picker.cc:202-245` | The least clean cut around the inputs; success means none of it is being compacted |
| `CompactionPickers.CompactionPicker.RangeOverlapWithCompaction` | `task1/rocksdb/db/compaction_picker.cc:247-261` | Exactly whether a running compaction with that output level touches the range |
| `CompactionPickers.CompactionPicker.FilesRangeOverlapWithCompaction` | `task1/rocksdb/db/compaction_picker.cc:263-281` | Exactly whether the hull of all inputs touches a running compaction with that output level; empty inputs touch nothing |
| `CompactionPickers.CompactionPicker.AreFilesInCompaction` | `task1/rocksdb/db/compaction_picker.cc:284-292` | Exactly whether one of the files is marked |
| `CompactionPickers.CompactionPicker.IsRangeInCompaction` | `task1/rocksdb/db/compaction_picker.cc:373-383` | Whether a marked file of the level meets the range; for level 0, whether every clean cut around the range holds one |
| `CompactionPickers.CompactionPicker.SetupOtherInputs` | `task1/rocksdb/db/compaction_picker.cc:395-499` | Fails exactly when every clean cut of the output level around the inputs\' range holds a marked file; otherwise takes the least such cut, and grows the start level to the whole joined range or to what lies inside it exactly when that takes more files, all idle, below the byte limit, and asks for no other output files |
| `CompactionPickers.CompactionPicker.GrowInputs` | `task1/rocksdb/db/compaction_picker.cc:432-497` | The start level grows to the least clean cut around the joined range if that is worth taking and asks for the same output files, else to the largest clean cut inside the range if that is, else not at all |
| `CompactionPickers.CompactionPicker.NeedsNoMoreOutput` | `task1/rocksdb/db/compaction_picker.cc:452-470` | Whether the grown inputs ask for exactly the output files already there: idle, cleanly cut, no more of them |
| `CompactionPickers.CompactionPicker.FinishPick` | `task1/rocksdb/db/compaction_picker.cc:1185-1220` | A pick comes to nothing exactly when output files are taken or a running compaction of the output level is in the way; otherwise it starts with the inputs as grown |
| `CompactionPickers.CompactionPicker.CompactRange` | `task1/rocksdb/db/compaction_picker.cc:515-703` | A started manual compaction is sound: closed over its range in the output level, free of running compactions, cleanly cut in its input level; the files meeting the range are taken in order up to the byte limit, those of level 0 all; a cut-off range resumes at the first file not reached; and when none is started, and why, exactly |
| `CompactionPickers.CompactionPicker.CompactFiles` | `task1/rocksdb/db/compaction_picker.cc:294-321` | None exactly when a compaction out of level 0 runs and these inputs start there, or a running one at the output level overlaps them; marks and running set follow |
| `CompactionPickers.CompactionPicker.StartCompaction` | `task1/rocksdb/db/compaction_picker.cc:930-942` | The marks are exactly the inputs of running compactions, no file is in two, equal deeper output levels have disjoint ranges |
| `CompactionPickers.CompactionPicker.ReleaseCompactionFiles` | `task1/rocksdb/db/compaction_picker.cc:120-125` | The same after a release |
| `CompactionPickers.CompactionPicker.PickFileToCompact` | `task1/rocksdb/db/compaction_picker.cc:1313-1372` | The first file by priority that is idle and meets no marked file of the output level; none only if all are blocked; the next search resumes at the first idle file |
| `CompactionPickers.CompactionPicker.PickIntraL0Compaction` | `task1/rocksdb/db/compaction_picker.cc:1374-1388` | A span is picked exactly when enough level-0 files are there, the newest is idle, and the longest span of newest idle ones is long enough; and it is that span |
| `CompactionPickers.CompactionPicker.PickFilesMarkedForCompaction` | `task1/rocksdb/db/compaction_picker.cc:1049-1091` | The file tried first if it can start, else the first in order that can, grown to the least clean cut around it; none only if no marked file can start |
| `CompactionPickers.CompactionPicker.TryLevel` | `task1/rocksdb/db/compaction_picker.cc:1108-1113` | A level starts exactly when level 0 is free for it and its first unblocked file by priority has an idle clean cut around it that no running compaction of the output level overlaps; and it starts with that cut |
| `CompactionPickers.CompactionPicker.NothingLeftBehind` | `task1/rocksdb/db/compaction_picker.cc:202-245` | A file of the start level, level 0 included, that stays behind meets none that is taken |
| `CompactionPickers.CompactionPicker.KeptVersionsKeepTheirPlace` | `task1/rocksdb/db/compaction_picker.cc:1157-1220` | A file that is not taken may hold a taken key only below the output level or with newer versions |
| `CompactionPickers.CompactionPicker.SetupInitialFiles` | `task1/rocksdb/db/compaction_picker.cc:1093-1155` | The choice: the first level by score with score at least 1 that can start, passing over the base level behind such a level 0, by size if possible and else within level 0; a marked file only if no such level can; nothing only if no marked file can either. Initial inputs are idle, cleanly cut, and out of level 0 only while no other such compaction runs |
| `CompactionPickers.CompactionPicker.IdleLevelStarts` | `task1/rocksdb/db/compaction_picker.cc:1313-1356` | With nothing running, a level starts with the next file by priority |
| `CompactionPickers.CompactionPicker.SetupOtherL0FilesIfNeeded` | `task1/rocksdb/db/compaction_picker.cc:1157-1183` | The least clean cut of level 0 around the picked files: all that meet them, in turn; fails exactly if a marked file of the output level meets their range; the assertion at 1161 holds and none of them is being compacted |
| `CompactionPickers.CompactionPicker.PickCompaction` | `task1/rocksdb/db/compaction_picker.cc:1222-1249` | A pick starts from the choice above and ends in the inputs as grown, in the base level or the next one, or with the longest run of at least 4 newest idle files within level 0. Nothing is started only if nothing was chosen, or output files are taken, or a running compaction is in the way. With nothing running, a level that asks gets its compaction |
| `CompactionPickers.CompactionPicker.MarkFilesBeingCompacted` | `task1/rocksdb/db/compaction.cc:311-318` | Every input is marked; the assertion that none was holds, file by file |
| `CompactionPickers.CompactionPicker.ClearFilesBeingCompacted` | `task1/rocksdb/db/compaction.cc:311-318` | Every input is cleared; the assertion that all were marked holds |
| `UniversalPicker.SumLevel` | `task1/rocksdb/db/compaction_picker_universal.cc:214-238` | Size, compensated size and busy flag of a level in one pass, with trivial moves or without |
| `UniversalPicker.CalculateSortedRuns` | `task1/rocksdb/db/compaction_picker_universal.cc:205-244` | Each level-0 file is a run with its own sizes and mark, then each deeper level that has some size |
| `UniversalPicker.SortedRunsAreInAgeOrder` | `task1/rocksdb/db/compaction_picker_universal.cc:205-244` | Runs are ordered newer first: level 0, then each deeper level at most once |
| `UniversalPicker.GrowBlock` | `task1/rocksdb/db/compaction_picker_universal.cc:466-511` | A block of idle runs that each satisfy the stop rule, and that could not or must not be longer |
| `UniversalPicker.BlockIsBalanced` | `task1/rocksdb/db/compaction_picker_universal.cc:466-511` | No run of a picked block is larger, by more than the ratio, than all of the block before it together; with similar sizes asked for, neighbours differ by no more than the ratio either way |
| `UniversalPicker.NothingToPick` | `task1/rocksdb/db/compaction_picker_universal.cc:443-531` | When pairs may be merged and no block is found, of two idle neighbours the older one is always larger by more than the ratio, or with similar sizes asked for smaller |
| `UniversalPicker.FindBlock` | `task1/rocksdb/db/compaction_picker_universal.cc:443-531` | The first start whose full block is wide enough, within both width bounds; or no start has one |
| `UniversalPicker.OutputKeepsAgeOrder` | `task1/rocksdb/db/compaction_picker_universal.cc:559-567` | Every newer run stays above the result and every older one below it, or in level 0 beside it |
| `UniversalPicker.OutputIsDeepest` | `task1/rocksdb/db/compaction_picker_universal.cc:559-567` | No deeper output level would keep that order |
| `UniversalPicker.LevelIsInOrderIff` | `task1/rocksdb/db/compaction_picker_universal.cc:559-567` | A level down to the output level was picked or is newer exactly when its files have some size |
| `UniversalPicker.FilesStayInAgeOrder` | `task1/rocksdb/db/compaction_picker_universal.cc:559-567` | Age order holds for files exactly when every non-empty level down to the output level has some size |
| `UniversalPicker.SizedFilesStayInAgeOrder` | `task1/rocksdb/db/compaction_picker_universal.cc:559-567` | With the sizes files have every run has some size, as asserted, and no file of levels 1 to the output level outside the picked runs is older than what was picked |
| `UniversalPicker.ZeroSizedLevelIsOvertaken` | `task1/rocksdb/db/compaction_picker_universal.cc:239-242` | That rests on the sizes: a level of size zero would be no run, and the result could go below it |
| `UniversalPicker.FillInputs` | `task1/rocksdb/db/compaction_picker_universal.cc:576-595` | The inputs are exactly the picked runs' files, level by level |
| `UniversalPicker.Level0Contributes` | `task1/rocksdb/db/compaction_picker_universal.cc:576-595` | From level 0 they are the files of the picked runs, each once and in order |
| `UniversalPicker.LevelContributes` | `task1/rocksdb/db/compaction_picker_universal.cc:576-595` | From a deeper level they are all its files if it was picked, and none otherwise |
| `UniversalPicker.InputsAreIdle` | `task1/rocksdb/db/compaction_picker_universal.cc:576-595` | No file of idle runs is being compacted |
| `UniversalPicker.PickCompactionToReduceSortedRuns` | `task1/rocksdb/db/compaction_picker_universal.cc:419-610` | A contiguous block of idle runs of width within [max(min_merge_width, 2), min(max_merge_width, limit)], its output level in age order, its files idle; none only if there is no such block |
| `UniversalPicker.CompensatedSize` | `task1/rocksdb/db/version_set.cc:1188-1203` | A file never counts for less than its size, and for more exactly when deletions prevail in it and values have some size |
| `LevelCompactions.MergedVersions` | `task1/rocksdb/db/version_set.cc:3503-3557` | The sorted merge of files in age order has each key's versions in the order in which readers find them |
| `LevelCompactions.DatabaseSplits` | `task1/rocksdb/db/version_set.cc:3503-3557` | Key by key the database is the kept files down to the output level, then the merged taken ones, then everything deeper |
| `LevelCompactions.SoundKeepsOrder` | `task1/rocksdb/db/compaction_picker.cc:202-245` | No taken file of a started compaction comes, in search order, before a kept one that overlaps it |
| `LevelCompactions.OrderedCompactionIsPossible` | `task1/rocksdb/db/compaction_picker.cc:1222-1249` | Then the kept and the deeper data satisfy everything that read preservation asks of them: honest flag, honest level test, versions in place |
| `LevelCompactions.StartedCompactionPreservesReads` | `task1/rocksdb/db/compaction_picker.cc:1222-1249` | End to end: a started compaction to a level other than 0 changes no live read of any well-used key of the whole database |
| `LevelCompactions.ClosedKeepsOrderIff` | `task1/rocksdb/db/compaction_picker.cc:732-862` | Files completed by the sanitizer keep that order exactly when no chosen level-0 file overlaps an older one left out |
| `LevelCompactions.CompletedFilesPreserveReads` | `task1/rocksdb/db/compaction_picker.cc:294-321` | End to end for manually chosen files, under that condition |

## Left out

- Merge operands, compaction filters, range tombstones, event listeners, corrupt keys and shutdown in the compaction iterator: they call classes that are not part of this model; the Put, Delete and SingleDelete paths are complete.
- `allow_ingest_behind`, which disables dropping and shifts the last level.
- Universal size amplification, the universal picker's path and compression choice, FIFO compaction, and `CompactRange` over all levels, which only universal compaction uses.
- The version storage's compaction scores, files by priority and `base_level` are arguments of the picker, and where the next search by priority resumes is a result of `PickFileToCompact` that nothing keeps; its searches are modelled for ranges that are bounded on both sides or not at all, without their index hints.
- CompactionPickers.CompactionPicker.CompactFiles: takes files that its callers found idle; it promises nothing about files left out, because it does not look at them. What the sanitizer makes of that is stated beside it.
- Cutting a compaction's output into files and installing them in the output level: a compaction's effect is stated on the records that readers search.
- The sizes between two keys (`ApproximateSize`) are an argument of the subcompaction split; `std::sort` and `std::unique` are one method with their combined contract.
- Floating point: size ratios are compared in exact arithmetic, the mean and the ceiling of the split in integers, pool ratios as reals. Rounding of doubles is not modelled.
- 32-bit and 64-bit wrap-around of sizes, counters, reference counts and version numbers: integers are unbounded.
- Memory orders: every atomic is sequentially consistent. The CLOCK shard's `usage_`, `pinned_usage_` and hash map are proved for whole operations by one thread at a time, the flag words for all interleavings.
- The LRU shard's operations are proved as whole critical sections; deleters run inside the operation that decides on them, after its section.
- The packed flag word and `char` flags are records of booleans and a count; the variable-length key in an `LRUHandle` is a sequence.
- The temporary handle whose key sits in `value`, `ApplyToAllCacheEntries`, the table's destructor, and the sharding of caches by hash bits.
- Thread exit handlers of the thread-local slots, column family destruction, and getting a SuperVersion before the first one is installed.
- The priority queue of prepared logs is a bag with a least element; iteration over column families and memtables is iteration over the logs they report.
- Indices and hints that only speed up searches (`parent_index_`, `base_index_`, `hint_index`).
- Logging, statistics other than the iterator's drop counters, sync points, file system, compression choice, output file boundaries, and everything outside `task1/rocksdb`.
