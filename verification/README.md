# The omxdb storage core

omxdb is a small log-structured key-value engine. This project models its
storage core and proves what it promises to a caller: that `get` answers like a
finite map from 64-bit keys to values, one call after another, with readers and
writers interleaved, and after a crash or a clean close followed by a reopening.
Where the code does not keep that promise, a run that breaks it is given, and the
exact condition under which it does is proved: for removes, for the largest key,
for empty segments, for the number of segments and for the compressor. For values
that outgrow the 32-bit fields it is proved row by row when a stored place is the
true one, and what `get` reads when it is not.

## How it is built

The layers follow the source. Objects whose methods update fields are classes
(`InStream`, `SSTable`, `SSTableIndex`, `MemTable`, `WriteAheadLog`,
`BloomFilter`, `Index`, `StorageEngine`), and each method is proved against a
function on the object's value. The theorems are about those functions.

| Modules | Content |
|---|---|
| `Wrappers`, `Bytes`, `Streams` | 32- and 64-bit words in little-endian order; the input stream with its end-of-file and failure bits |
| `Rows`, `Records` | the row format and its two decoders; newest and first row of a key |
| `MemTableKeys`, `MemTableSpec`, `MemTables` | the ordered map, its lookup, the scans, replay |
| `SSTables`, `SSTableIndexes`, `Merges` | a segment's rows, its index and index file; merging of two tables |
| `Indexes`, `IndexHistory`, `FileNames` | the newest-first list with its by-id map; file names and the order of the directory scan |
| `BloomFilters`, `WriteAheadLogs` | the filter and the log |
| `EngineSpec`, `EngineFacts`, `StorageEngines` | the engine on values; its operations in any state, field by field; the engine object |
| `Histories`, `Reads` | a session as the rows it logged; what `get` means |
| `Models`, `Coherence`, `Refinement` | the finite map, built from the puts and removes alone; when the engine agrees with it |
| `Lz4Adapters` | the default compressor around a block codec |
| `Machine`, `Concurrency`, `Interleavings`, `Progress` | the engine as interleaved atomic steps; linearizable reads; interleaved runs against sequential ones; nobody is stuck |
| `Recovery`, `RecoveryTheorems` | crash images, reopening |
| `Limits`, `Sizes` | runs that break each condition; the tracked memtable size |

A *history* is the list of batches already snapshotted and the rows logged since
(the tail). `Histories.StateOf` gives the whole engine state of a first session
as a function of its history; every operation and every step of the machine is
proved to keep that, so each theorem speaks of arbitrary runs.

The hash, the compressor, the Bloom hash and the enumeration order of the
index's hash map are arbitrary functions in `EngineSpec.Env`. A compressor may
throw. The finite map (`Models.Model`) is built from the keys and values that were
passed to `put` and `remove`. The compressor must lose nothing on those values
(`Models.Lossless`), which for the default one means that no stored value is empty
or longer than 2^31-1 bytes.

## The conditions

* *Harmless.* A tombstone in the memtable does not stop the search, so an older
  value on disk shows through. A remove is harmless when the newest row of its
  key on disk is absent or a tombstone. Runs without removes satisfy it.
* *The largest key.* The three scans start from 2^64-1 and therefore lose that
  key when it is the memtable's only one (`SentinelOnly`), and the segment is then
  empty. A snapshot of such a memtable is harmless when the disk happens to give
  the same answer already.
* *Forged zero.* The loops test the end of the stream after decoding. The index
  file of an empty segment therefore loads with a bogus hint for key 0, and a read
  of key 0 after reopening decodes garbage when that hint stands in front of every
  segment holding the key, the filter lets the read through and the replayed log
  has no value for it. No other key is affected, and without an empty segment
  none is.
* *At least one record.* For the same reason an empty log replays one
  uninitialised row.
* *Lossless.* The compressor gives back every value that was put. The default
  one accepts the empty value and throws when it is read.
* *Fits.* Segment numbers, offsets and sizes are 32 bits wide. A read needs it only
  for the row that answers (`KeyFits`); `Sizes.ModestRunFits` derives it for whole
  runs from the memtable limit.
* *Ten segments.* Index files load in path order, which is creation order for up
  to ten segments. It matters only to keys that were removed while an older value
  was on disk: a harmless run recovers with any number of segments.
* *First session.* Opening truncates the log and restarts the segment numbers,
  so recovery is about one session from a new directory, one reopening, and the
  reads, puts and removes until the next snapshot.

`Limits` gives a run that breaks each of the conditions on removes, on the largest
key, on empty segments, on the compressor, on 32 bits and on ten segments.

In the order of difficulty the main results are `ReadsAreLinearizable` with `GetAlone`,
`InterleavedExactly`, `CrashAnswersExactly`, `CrashRecoversMap`, `RefinesExactly`,
`ReopenIsInvisible` with `ReopenInvisibleUpToTen`, and below them `GetMeaning`,
`ChunkIndexAgree`, `NewestRegistrationAnswers`, `StreamRoundTrip` and
`LookupIsNewest`.

## Model

| member | source | states |
|---|---|---|
| Concurrency.ReadsAreLinearizable | src/StorageEngine.cpp:34-49 | In every interleaving of any number of writers, snapshots and readers, a finished `get` returned what an atomic `get` returns at some instant, with the lock free, between its memtable lookup and its last look at shared memory; no condition on removes |
| Concurrency.ReadsAgreeWithMap | src/StorageEngine.cpp:12-49 | In a run of harmless steps that result is, at such an instant, the answer of the finite map of the puts and removes issued until then; the map is built from the values passed to `put`, and the compressor need only lose nothing on those |
| Progress.GetAlone | src/StorageEngine.cpp:34-49 | Begun with the lock free and left alone, a `get` ends within four steps more than the filter has probes, and returns exactly what the engine's `get` returns in that state |
| Progress.EveryGetCanFinish | src/StorageEngine.cpp:34-49 | From any point of any run, snapshots in progress included, any `get` in progress can still come to its end |
| Progress.ReaderFinishes | src/StorageEngine.cpp:153-186 | With the lock free the steps of a reader alone lead to its end, change nothing else, and give the result its stage foretells |
| Progress.ReaderGoesOn | src/StorageEngine.cpp:153-186 | A reader tests filter cells and reads its segment in every phase of every snapshot; only for the index does it wait for the lock |
| Progress.ReaderCanStart | src/StorageEngine.cpp:148-151 | A `get` can begin whenever the lock is free, however many are running |
| Progress.WriterFinishes | src/StorageEngine.cpp:116-146 | Whoever holds the lock comes to release it by its own steps, below 2^32 segments |
| Progress.EveryRunHappens | src/StorageEngine.cpp:12-32 | Every sequence of puts that the compressor accepts and of removes is what some run issues, ending with the lock free |
| Interleavings.InterleavedExactly | src/StorageEngine.cpp:12-49 | In an interleaved run that ends with the lock free, all atomic reads at all instants with the lock free agree with the finite map if and only if every step was harmless and the compressor lost no value |
| Interleavings.RunIsSequential | src/StorageEngine.cpp:12-32 | Whenever the lock is free, memory and files are exactly those of the sequential run of the puts and removes issued so far, whatever the readers did |
| Interleavings.HarmlessExactly | src/StorageEngine.cpp:12-32 | The steps of a run are harmless if and only if its operations, one after another, are |
| Interleavings.AtomicIsSequential | src/StorageEngine.cpp:12-49 | Atomic reads of an interleaved run agree with the map if and only if those of the sequential run do |
| Concurrency.ReadersExplained | src/StorageEngine.cpp:153-186 | The invariant of a reader at each of its four stages, at every instant of every run |
| Concurrency.MissWitness | src/StorageEngine.cpp:148-164 | After a memtable miss, the segments at any later instant give the answer of an atomic read in between, though a snapshot may have moved the key from memory to disk meanwhile |
| Concurrency.ClearCell | src/StorageEngine.cpp:154-156 | A filter cell read as clear without the lock proves that the key was on no segment when the memtable missed |
| Concurrency.LookUpExplained | src/StorageEngine.cpp:158-164 | The locked index lookup, hit or miss, is explained by an instant since the memtable miss, although it may see segments newer than that miss |
| Concurrency.RunInv | src/StorageEngine.cpp:116-146 | At every instant of every run, memory and files are exactly those of the history and of the snapshot stage reached |
| Concurrency.Grows | src/StorageEngine.cpp:116-146 | Segments are only ever added and filter cells only ever set |
| Concurrency.RunLogged | src/MemTable.cpp:13-34 | At every instant of every run the log holds exactly one row for every put and remove issued, in order |
| Concurrency.RunSealed | src/StorageEngine.cpp:16-21 | In every reachable state every live row carries the hash of its own data |
| Concurrency.NoReadIsCorrupted | src/StorageEngine.cpp:38-41 | So no `get` of any run throws "data corrupted" or decodes garbage |
| Machine.WriteKeeps | src/StorageEngine.cpp:12-32 | Each of the writer's ten steps keeps the state a function of history and stage |
| Machine.RegisterKeeps | src/StorageEngine.cpp:137-145 | The small steps of a snapshot add up to closing the batch |
| Machine.NextRowBits | src/StorageEngine.cpp:131-133 | Setting cell after cell, row after row, amounts to adding the rows' keys one by one |
| Machine.StagesInOrder | src/StorageEngine.cpp:116-146 | What there is at each stage of a snapshot, which is its order: segment file, then empty memtable and flushed log, then bloom file, then index file, then registration |
| RecoveryTheorems.CrashRecoversMap | src/StorageEngine.cpp:51-96 | Wherever between two file writes a harmless run stops, whatever record-aligned part of the log beyond the flushed bytes survives, whatever is left of the bloom file and however many segments there are: every `get` after reopening is the answer of the finite map of the surviving puts and removes; the one exception is key 0, with its exact condition |
| RecoveryTheorems.CrashAnswersExactly | src/StorageEngine.cpp:51-96 | For every run, harmless or not, and every such stop: exactly what each `get` gives after reopening, and exactly when it is the answer of the finite map of the surviving puts and removes |
| RecoveryTheorems.CrashKeepsSegments | src/StorageEngine.cpp:123-145 | At every stop between whole-file writes every row of an indexed segment is in the surviving log, each index file has its segment file, and the saved filter covers all indexed keys (the truncation of the bloom file before it is rewritten is not such a stop) |
| RecoveryTheorems.ReopenIsInvisible | src/StorageEngine.cpp:51-96 | After a cleanly closed session of up to ten segments, reopening leaves the answer for a key unchanged if and only if neither key 0 reads through a forged hint nor a value of key 2^64-1 that a snapshot lost comes back; so never for any other key, whatever was removed when, and for no key if no segment is empty |
| RecoveryTheorems.ClosedGet | src/StorageEngine.cpp:51-96 | The exact answers after a clean close and a reopening, for any number of segments |
| RecoveryTheorems.MaxDiffers | src/MemTable.cpp:110-127 | Log and segments disagree on key 2^64-1 if and only if the last batch that mentions it holds nothing else and the older segments answer differently |
| RecoveryTheorems.ReopenNeedsARow | src/MemTable.cpp:95-103 | Reopening a closed directory is well defined if and only if at least one row was logged; otherwise the replay decodes an uninitialised row (the source then goes on with that row and does not throw) |
| RecoveryTheorems.ReplayRebuildsMemTable | src/MemTable.cpp:90-104 | Without a snapshot, replay rebuilds the memtable entry for entry, counters included; only the tracked size starts from zero |
| RecoveryTheorems.SnapshotAfterReopenThrows | src/Index.cpp:31-36 | The first snapshot after reopening starts at segment 0 and throws if and only if the closed session had a segment; in both cases its whole state: memtable emptied, log flushed, keys added to the filter, all three files written, index file 0 that of the new table, segment number 1, and the list unchanged when it throws |
| EngineFacts.SnapshotAnywhere | src/StorageEngine.cpp:116-146 | In any state: a snapshot throws if and only if its file id is in the list, and by then everything but the registration has been done, field by field |
| EngineFacts.ReadAfterThrow | src/StorageEngine.cpp:153-186 | After a snapshot that throws: nothing is in memory, and the old list is read through the new segment file where their numbers meet |
| EngineFacts.PutAnywhere | src/StorageEngine.cpp:12-27 | In any state: a put whose compressor throws changes nothing; otherwise one row with type byte 0 and its hash is added and logged, and there is a snapshot if and only if the tracked size with its 35 bytes and its value reaches the limit |
| EngineFacts.RemoveAnywhere | src/StorageEngine.cpp:29-32 | In any state: a remove adds and logs one tombstone with type byte 1 and never snapshots |
| EngineFacts.GetInMemory | src/MemTable.cpp:36-53 | In any state: the memtable's newest entry of the key answers unless its type byte is 1 |
| EngineFacts.GetOnDisk | src/StorageEngine.cpp:153-186 | In any state: otherwise not found if a position of the key's hash is clear or no table holds the key, and else what is read at the hint of the first table that does |
| EngineFacts.ChunkRowExactly | src/StorageEngine.cpp:166-176 | What is decoded at any hint in any file, missing and short ones included, byte by byte |
| EngineFacts.MissingFileReads | src/StorageEngine.cpp:167-176 | A missing segment file reads as an empty value sealed with a zero checksum |
| EngineFacts.OpenAnywhere | src/StorageEngine.cpp:51-96 | Opening an arbitrary directory: which of completion, exception and undefined decoding it is, and after completion the list, every memtable answer, counter, size, log, each filter cell and the segment number |
| EngineFacts.AnyConfiguration | src/StorageEngine.cpp:66-72 | Any compressor, hash and limit and any filter with a cell make a configuration the theorems cover |
| RecoveryTheorems.RemovedOnDisk | src/StorageEngine.cpp:29-32 | In a harmless run, if the last surviving word on a key is not a put, no indexed segment holds it live, in whatever order the segments load |
| RecoveryTheorems.RunTailHarmless | src/StorageEngine.cpp:29-32 | In a harmless run no remove since the last snapshot shadows a value on disk |
| RecoveryTheorems.RunUnburied | src/StorageEngine.cpp:29-32 | In a harmless run no segment ever holds a value under a newer tombstone, and the segments answer like the log they were written from |
| RecoveryTheorems.ClosedImage | src/StorageEngine.cpp:51-96 | A clean close is the crash in which the whole log survives |
| Recovery.LogFirst | src/MemTable.cpp:152-157 | At every stop, what an indexed segment holds had been flushed to the log before |
| Recovery.PrefixHolds | src/WriteAheadLog.cpp:12-20 | A part of the log that contains all flushed bytes contains every row flushed |
| Recovery.DiskFacts | src/StorageEngine.cpp:116-146 | At every stop, index files, segment files and the saved filter agree on the segments that count |
| Recovery.ImageExists | src/StorageEngine.cpp:116-146 | Whatever part of the log beyond the flushed bytes is left and whatever bloom bytes, there is such a directory for the crash theorems to speak of |
| Recovery.WholeLogIsLeft | src/WriteAheadLog.cpp:12-20 | The whole log is always such a part |
| Recovery.OpenImage | src/StorageEngine.cpp:51-96 | Opening what a stopped session leaves decodes an uninitialised row exactly when no row survived, and otherwise gives the replayed memtable, the loaded list and the filter of whatever bloom bytes are left |
| Recovery.PutsSurvive | src/StorageEngine.cpp:51-96 | A key whose last surviving operation is a put reads that value after reopening, with any number of segments and no condition on removes |
| Recovery.NeverWrittenIsNotFound | src/StorageEngine.cpp:51-96 | A key that no surviving row mentions is not found, with any number of segments and whatever was removed when; key 0 reads garbage instead exactly when the filter lets it through to a forged hint |
| Recovery.RecoveredGet | src/StorageEngine.cpp:51-96 | The exact meaning of `get` after reopening, for any number of segments, any bloom bytes and whatever was removed when: the last surviving row if it is a put, and else, if the filter passes, the row of the last segment in path order that holds the key |
| Recovery.ListLeads | src/Index.cpp:49-93 | The loaded list leads to the row of the last segment in load order that holds the key, to garbage exactly for a forged key 0, and to nothing exactly when no segment has the key |
| Recovery.ReopenedSessionReads | src/StorageEngine.cpp:12-49 | Puts and removes after reopening continue the surviving log as if it had never been closed |
| Recovery.LiveListRestored | src/Index.cpp:66-93 | Up to ten segments load as exactly the list that was live if and only if none of them is empty; their order is always restored |
| Recovery.LoadAllLoads | src/Index.cpp:81-92 | Loading the files in scan order never meets a duplicate id and gives each segment's index in front of the ones before |
| Recovery.FileLoads | src/SSTableIndex.cpp:26-72 | What each segment's index file loads as, the empty segment's bogus hint included |
| Recovery.EmptySegment | src/MemTable.cpp:110-127 | A snapshot writes an empty segment if and only if the memtable is empty or holds nothing but key 2^64-1 |
| Recovery.DiskIsFlat | src/Index.cpp:49-64 | Newest-first search over all segments finds the newest row of all snapshotted rows, for every key but 2^64-1, and for that too when no snapshot lost it |
| Recovery.BitsCover | src/BloomFilter.h:76-94 | A filter saved for more segments than are indexed still covers the indexed ones |
| Recovery.CoveredPasses | src/StorageEngine.cpp:92-95 | A saved filter that covers the segments, once loaded, lets every key they hold through |
| Refinement.RefinesExactly | src/StorageEngine.cpp:12-49 | In any first-session run of puts and removes with any memtable limit, every `get` after every operation agrees with the finite map if and only if every operation was harmless when issued and the compressor lost no value of the run |
| Refinement.AgreedPutReturns | src/StorageEngine.cpp:39-43 | If the `get` of a key right after its put answers the value, the compressor gives that value back, even when the snapshot lost the row and an older one answered |
| Refinement.PutReturns | src/StorageEngine.cpp:12-49 | A put whose value the compressor takes and gives back succeeds, and the `get` right after it returns the value, whatever was done before; key 2^64-1 needs the put to be harmless |
| Lz4Adapters.DefaultRefinesExactly | include/omx/Options.h:24 | In the default configuration the engine agrees with the finite map throughout a run if and only if every operation was harmless and no stored value was empty or longer than 2^31-1 bytes |
| Lz4Adapters.DefaultPutReturns | include/omx/Options.h:24 | The same for the default configuration and every value of 1 to 2^31-1 bytes that the library takes |
| Lz4Adapters.AcceptedExactly | src/Compression/LZ4CompressionAdapter.cpp:7-38 | A value is compressed if and only if its size cut to 32 bits is a non-negative `int`, at most the library's maximum, and the library makes a block of it; the result is the length in eight bytes and that block |
| Lz4Adapters.OrdinaryValues | src/Compression/LZ4CompressionAdapter.cpp:11-16 | Up to 2^31-1 bytes: accepted when within the library's maximum, an exception above it |
| Lz4Adapters.ReturnsExactly | src/Compression/LZ4CompressionAdapter.cpp:40-59 | What comes back of an accepted value of any size: its first bytes, as many as its size cut to 32 bits, and an exception if those are none |
| Lz4Adapters.UncompressExactly | src/Compression/LZ4CompressionAdapter.cpp:40-59 | Uncompressing arbitrary bytes: which of them throw, and the library's result otherwise |
| Lz4Adapters.StoringCodec | src/Compression/LZ4CompressionAdapter.cpp:7-59 | There are sound codecs of every maximum |
| Lz4Adapters.Lz4Configuration | src/Compression/CompressionFactory.cpp:9-20 | Each of them makes a default configuration |
| Lz4Adapters.ValueReturns | src/Compression/LZ4CompressionAdapter.cpp:7-59 | With a sound block codec, a value that was compressed comes back if and only if it is neither empty nor longer than 2^31-1 bytes |
| Lz4Adapters.EmptyThrows | src/Compression/LZ4CompressionAdapter.cpp:53-56 | The empty value is accepted as soon as its block has a byte, and then throws when uncompressed |
| Lz4Adapters.LosslessExactly | src/Compression/LZ4CompressionAdapter.cpp:7-59 | The losslessness the theorems ask for, in terms of the values that were put |
| Refinement.NextCoherent | src/StorageEngine.cpp:12-32 | One operation keeps reads in step with the log if and only if it is harmless, which the caller can check before it |
| Refinement.RunIsHistory | src/StorageEngine.cpp:12-32 | After any run the whole engine state is that of the run's history |
| Refinement.ExecNext | src/StorageEngine.cpp:12-32 | One operation appends its row and closes the batch when the memtable is full; it throws exactly when the compressor does |
| Refinement.LoggedIs | src/MemTable.cpp:13-34 | After any run the log holds the rows of its operations, however they were snapshotted |
| Refinement.ModelIsSaid | src/StorageEngine.cpp:12-32 | The finite map answers for a key what the last row of the key in the log says |
| Refinement.AgreesIsCoherent | src/StorageEngine.cpp:34-49 | All reads of a state agree with the map if and only if the newest visible row of every key is its last logged one |
| Reads.GetMeaning | src/StorageEngine.cpp:34-49 | The meaning of `get` whenever the row that answers lies below 2^32 in its segment: the memtable's newest row if live, else the newest row on disk if live, checked and uncompressed; no condition on removes |
| Reads.GetExactly | src/StorageEngine.cpp:34-49 | The meaning of `get` without any condition on sizes: otherwise, whatever is decoded at the place of the row cut to 32 bits in the newest segment that holds the key |
| Reads.ChunkIndexAgree | src/SSTableIndex.cpp:78-86 | The offset and size stored for a row below 2^32 cut exactly its serialized bytes out of the segment file |
| Reads.SlicesTile | src/SSTableIndex.cpp:78-86 | The slices start at 0, follow each other without gap or overlap and end with the file |
| Reads.SegmentRow | src/StorageEngine.cpp:166-176 | Reading a segment at the hint of a key decodes the key's row of that segment, if that row fits; there is a hint if and only if there is a row |
| Reads.SegmentRead | src/StorageEngine.cpp:166-176 | The same for every row, fitting or not: what is decoded stands at the row's place cut to 32 bits |
| Reads.ReadBack | src/StorageEngine.cpp:169-176 | Seeking, reading and decoding at a row's place gives back the row |
| Reads.SearchFinds | src/StorageEngine.cpp:158-176 | The index finds a hint if and only if some segment holds the key, and the hint leads to the newest such row, if that row fits |
| Reads.SearchReads | src/StorageEngine.cpp:158-176 | The same for every row: the hint leads into the newest segment that holds the key |
| Reads.FilterPasses | src/StorageEngine.cpp:154-156 | A key that any segment holds passes the filter |
| Reads.DiskNewestIs | src/StorageEngine.cpp:116-146 | What one more snapshot makes visible on disk, the lost key 2^64-1 included |
| Reads.TamperedValueIsDetected | src/StorageEngine.cpp:39-41 | A value altered in place in its segment file is reported, not delivered, when its hash differs from the stored checksum |
| Coherence.RemoveCoherent | src/StorageEngine.cpp:29-32 | A remove breaks agreement if and only if the newest row of its key on disk is a value |
| Coherence.CutCoherent | src/StorageEngine.cpp:116-146 | A snapshot breaks agreement if and only if 2^64-1 is the memtable's only key and the disk answers differently for it |
| Coherence.PutCoherent | src/StorageEngine.cpp:12-27 | A put without a snapshot never breaks agreement |
| Coherence.SeenInLog | src/StorageEngine.cpp:34-49 | Whatever row a read delivers was logged for that key as a value |
| Models.ModelAnswers | src/StorageEngine.cpp:38-46 | For every sequence of puts and removes, delivering the last row logged for a key gives what the finite map of the operations answers: neither checksum nor decompression errors occur, given a compressor that loses nothing on the values put |
| Models.RowsOfPrefix | src/MemTable.cpp:13-34 | The first rows of the log are those of the first operations, so what survives of the log is what survives of the operations |
| Histories.AppendState | src/MemTable.cpp:13-22 | A put or remove appends one row to memory and log and changes nothing else |
| Histories.SnapshotState | src/StorageEngine.cpp:116-146 | A first session's snapshot never throws and gives the state in which the batch is closed |
| Histories.NextIdIsFree | src/Index.cpp:30-36 | The next segment's id is not taken before 2^32 snapshots |
| Histories.FreshOpen | src/StorageEngine.cpp:51-96 | Opening a new directory gives the state of the empty history |
| StorageEngines.StorageEngine.constructor | src/StorageEngine.cpp:51-96 | An engine before `open`: an empty filter of the configured shape |
| StorageEngines.StorageEngine.Put | src/StorageEngine.cpp:12-27 | The whole new state, memory and files, and exactly when it throws |
| StorageEngines.StorageEngine.Remove | src/StorageEngine.cpp:29-32 | The whole new state; the memtable limit is not looked at |
| StorageEngines.StorageEngine.Get | src/StorageEngine.cpp:34-49 | The result, in every case found, not found, corrupted or not decodable, of the state it reads |
| StorageEngines.StorageEngine.FindInMemory | src/StorageEngine.cpp:148-151 | The live newest row of the memtable; tombstones count as absent |
| StorageEngines.StorageEngine.FindOnDisk | src/StorageEngine.cpp:153-186 | Filter, index, segment file and tombstone check, in this order |
| StorageEngines.StorageEngine.ReadChunk | src/StorageEngine.cpp:166-176 | What is decoded at a hint, a missing or short file included |
| StorageEngines.StorageEngine.MakeSnapshot | src/StorageEngine.cpp:116-146 | The whole new state after segment file, clearing, bloom file, index file and registration, also when registration throws |
| StorageEngines.StorageEngine.WriteSegment | src/StorageEngine.cpp:117-127 | The file written and the table kept for filter and index hold the same rows, and the memtable is cleared |
| StorageEngines.StorageEngine.WriteBloomFile | src/StorageEngine.cpp:129-135 | The saved filter is the old one with the table's keys added |
| StorageEngines.StorageEngine.WriteIndexFile | src/StorageEngine.cpp:137-145 | The index file is written even when the registration after it throws |
| StorageEngines.StorageEngine.Open | src/StorageEngine.cpp:51-96 | On a new or an already used engine: exactly when it completes, when it throws and when it decodes uninitialised data, and in the first case the whole state, with an empty log and the object's own segment number and filter carried over |
| StorageEngines.StorageEngine.ReplayLog | src/StorageEngine.cpp:74-78 | The memtable holds the log's rows before the log is truncated |
| MemTableKeys.StrictTotalOrder | src/MemTableKey.h:30-43 | The comparator is a strict total order whose equivalence is equality |
| MemTableKeys.SearchKeyPartitions | src/MemTableKey.h:50-66 | The mixed comparisons split every ordered map into below, equal and above |
| MemTableSpec.LookupIsNewest | src/MemTable.cpp:36-53 | Lower-bound lookup returns the row inserted last for the key, whatever came between |
| MemTableSpec.FindIsFirst | src/MemTable.cpp:37-43 | In an ordered map, lower bound and equivalence check find the first entry of the key |
| MemTableSpec.InsertSorted | src/MemTable.cpp:21 | Inserting under a fresh counter keeps the order |
| MemTableSpec.InsertContents | src/MemTable.cpp:21 | It adds exactly that entry and never drops one |
| MemTableSpec.InsertEquivalent | src/MemTable.cpp:21 | An equivalent key that is already there keeps its row |
| MemTableSpec.MemOfInvariant | src/MemTable.cpp:13-22 | After any puts and removes the map is ordered, numbered and holds one entry per operation |
| MemTableSpec.ReplayContinues | src/MemTable.cpp:90-104 | Inserting further rows into a memtable gives the memtable of the concatenated log |
| MemTableSpec.ScanIncreases | src/MemTable.cpp:110-127 | A scan yields strictly increasing keys above its initial key |
| MemTableSpec.TableLookup | src/MemTable.cpp:110-127 | A snapshot's table is strictly increasing and holds exactly the newest row of each key, or nothing when 2^64-1 is the only key |
| MemTableSpec.SnapshotKeepsNewest | src/MemTable.cpp:110-127 | The table keeps the newest row of every key if and only if 2^64-1 is not the memtable's only key |
| MemTables.MemTable.constructor | src/MemTable.cpp:159 | An empty memtable without a log |
| MemTables.MemTable.PutRow | src/MemTable.cpp:13-22 | New map, counter, tracked size and log |
| MemTables.MemTable.Put | src/MemTable.cpp:24-26 | Inserts a value row; what it logs begins with byte 0 |
| MemTables.MemTable.Remove | src/MemTable.cpp:32-34 | Inserts a tombstone and logs exactly its record, byte 1 first, with an empty value and sixteen zero checksum bytes |
| MemTables.RemoveRecord | src/SSTableRow.h:13-16 | The whole record of a remove: byte 1, 8, the key, a zero length, 16, sixteen zero bytes |
| MemTables.MemTable.Get | src/MemTable.cpp:36-53 | The row found unless its type byte is 1; absent keys and tombstones are not told apart |
| MemTables.MemTable.Dump | src/MemTable.cpp:60-84 | Writes exactly the rows of the sorted table, in its order |
| MemTables.MemTable.CreateSortedStringsTable | src/MemTable.cpp:110-127 | The table is the same scan's rows |
| MemTables.MemTable.CreateSortedStringsTableIndex | src/MemTable.cpp:129-150 | The index built from the map equals the index built from the table, narrowing of 64-bit offsets included |
| MemTables.MemTable.SetWriteAheadLog | src/MemTable.cpp:86-88 | A new, empty log; the map stays |
| MemTables.MemTable.RestoreFromLog | src/MemTable.cpp:90-104 | Inserts the stream's rows under continuing counters, neither counted nor logged |
| MemTables.MemTable.Clear | src/MemTable.cpp:152-157 | Empties map, counter and size and flushes the log |
| Rows.RowRoundTrip | src/SSTableRow.cpp:58-104 | A row is decoded exactly, wherever its bytes stand and whatever its value holds |
| Rows.RecordBytes | src/SSTableRow.cpp:58-77 | Where every byte of a record stands, numbers least significant byte first |
| Rows.FirstByteDecides | src/SSTableRow.h:13-16 | A decoded record is a tombstone if and only if its first byte is 1 |
| Rows.DecodeExactly | src/SSTableRow.cpp:84-104 | Decoding arbitrary bytes: undefined exactly when the key or the checksum runs over its target, and otherwise the row that stands there byte by byte, zeros beyond the end |
| Rows.StreamRoundTrip | src/SSTable.cpp:35-52 | Every non-empty row sequence is loaded back from its bytes, same rows, same order |
| Rows.TornRecordReplays | src/MemTable.cpp:95-103 | A log cut inside its last record replays all whole records and then one row of what is there with zeros for what is missing |
| Rows.TornRowKeeps | src/SSTableRow.cpp:84-104 | Such a row is of the same kind, and has its key and its value as soon as those were written whole |
| Rows.EmptyStreamIsUndefined | src/SSTable.cpp:36-42 | An empty stream is still decoded once, into garbage |
| Rows.SerializedSlice | src/SSTableRow.cpp:37-77 | A row's bytes lie behind the sizes of the rows before it |
| Rows.SerializeAllInjective | src/SSTableRow.cpp:58-104 | Encoded row sequences are uniquely decodable |
| Rows.SerializeRow | src/SSTableRow.cpp:58-77 | The bytes of one row |
| Rows.GetRowSize | src/SSTableRow.cpp:37-52 | The size computed from the parts is the length of the encoding |
| Rows.DeserializeFrom | src/SSTableRow.cpp:84-104 | The row and the stream left behind, on arbitrary input; undefined exactly when the type byte is missing or more bytes arrive than their target holds |
| Rows.DeserializeData | src/SSTableRow.cpp:79-82 | The same on a string |
| Bytes.LittleEndianRoundTrip | src/SSTableRow.cpp:70-74 | A word's bytes read back as the word |
| Bytes.DigitAt | src/SSTableRow.cpp:68-74 | Words are written least significant byte first |
| Streams.InStream.Read | src/SSTableRow.cpp:93-101 | Bytes delivered and state bits, on short reads and failed streams too |
| Streams.InStream.Peek | src/SSTable.cpp:41 | Notices the end without consuming |
| Streams.GoodStream | src/SSTableRow.cpp:93-101 | A read fails and ends the stream exactly when it asks for more than there is; looking ahead ends it exactly at the last byte |
| Streams.BadStream | src/SSTableRow.cpp:93-101 | A stream that has failed or ended delivers nothing and does not move |
| SSTables.SSTable.Append | src/SSTable.cpp:8-10 | The row goes to the end |
| SSTables.SSTable.Dump | src/SSTable.cpp:45-52 | All rows' bytes in order |
| SSTables.SSTable.Load | src/SSTable.cpp:35-43 | Appends the stream's rows; the loop ends because unread bytes decrease |
| Merges.MergeIsLeftBiasedUnion | src/SSTable.cpp:12-33 | With any comparator that orders the two tables' rows by key, merging and dropping duplicates gives each key once, answered by the first table, then the second |
| Merges.AddressesDecide | src/SSTable.cpp:21 | The call as written compares pointers, and then the result can be unsorted |
| Merges.MergeWinner | src/SSTable.cpp:21 | While the merge keeps in step, a key that both tables hold is answered by whichever table's first row of it the comparator puts first |
| Merges.SortedExactly | src/SSTable.cpp:12-33 | For every comparator, pointers included, and all key-sorted tables, the result is strictly key-sorted if and only if no comparison the merge comes to picks the row with the greater key |
| Merges.UnionExactly | src/SSTable.cpp:12-33 | For every comparator the merge is the strictly sorted left-biased union if and only if it keeps in step and no common key's first row in the second table is less than its first row in the first |
| Merges.DisjointSortedExactly | src/SSTable.cpp:12-33 | For tables without a common key, in terms of the tables alone: if and only if the comparator picks the smaller key for every two rows that each follow only smaller keys of the other's |
| Merges.TiesDecideWhoMeets | src/SSTable.cpp:21 | With a common key no such condition on the different keys exists: the order of two equal rows decides which later rows are compared |
| Merges.Table.MergeWith | src/SSTable.cpp:12-33 | In place, for every comparator: sorted exactly when the merge keeps in step, and the left-biased union when the comparator orders rows by key |
| Merges.Table.MergeAsWritten | src/SSTable.cpp:12-33 | The call of the source, which compares the pointers: it meets test/Test.cpp:357-379 exactly when the addresses keep the merge in step and prefer the first table on common keys |
| SSTableIndexes.RegisteredHint | src/SSTableIndex.cpp:78-86 | For every table, also one with repeated keys, the hint of the last row with its key, under 32-bit wrap-around |
| SSTableIndexes.HintIsExact | src/SSTableIndex.cpp:78-86 | The stored hint is the row's true place if and only if its offset and size are below 2^32 |
| SSTableIndexes.IndexRoundTrip | src/SSTableIndex.cpp:26-72 | A non-empty index, written in any enumeration order of its hash map, loads as the same file id and map |
| SSTableIndexes.EmptyIndexGainsKeyZero | src/SSTableIndex.cpp:63-71 | The file of an empty index loads with one bogus hint for key 0 |
| SSTableIndexes.HintRoundTrip | src/SSTableIndex.cpp:63-71 | One round of the loop reads back one key and hint |
| SSTableIndexes.HintBytes | src/SSTableIndex.cpp:38-43 | Where every byte of a key's record stands in an index file |
| SSTableIndexes.FileBytes | src/SSTableIndex.cpp:31-43 | The index file: byte 4, the file id, then 18 bytes for each key in the order of enumeration |
| SSTableIndexes.KeyReads | src/SSTableIndex.cpp:64-65 | The first half of a loading round on arbitrary bytes, stale bytes of the round before included |
| SSTableIndexes.HintReads | src/SSTableIndex.cpp:66-67 | The second half |
| SSTableIndexes.LastRoundCounts | src/SSTableIndex.cpp:63-71 | A round that runs into the end of the file still inserts its key, unless that is already there |
| SSTableIndexes.EmptyFileLoadsNothing | src/SSTableIndex.cpp:60-63 | A file of no bytes leaves the object as it was |
| SSTableIndexes.ReadKeyFrom | src/SSTableIndex.cpp:64-65 | Size byte and key, leaving the previous round's bytes on a short read |
| SSTableIndexes.ReadHintFrom | src/SSTableIndex.cpp:66-67 | The same for the hint |
| SSTableIndexes.SSTableIndex.constructor | src/SSTableIndex.cpp:5-7 | An empty index |
| SSTableIndexes.SSTableIndex.FromTable | src/SSTableIndex.cpp:78-86 | The table's index with accumulated 32-bit offsets |
| SSTableIndexes.SSTableIndex.Insert | src/SSTableIndex.cpp:9-11 | Inserts or assigns |
| SSTableIndexes.SSTableIndex.Get | src/SSTableIndex.cpp:13-24 | Found if and only if present; the zero hint otherwise |
| SSTableIndexes.SSTableIndex.Dump | src/SSTableIndex.cpp:26-46 | The file's bytes in the given enumeration order |
| SSTableIndexes.SSTableIndex.Load | src/SSTableIndex.cpp:48-72 | The file id and map after loading arbitrary bytes into any object: a short read keeps the rest of the old id, a key already present keeps its first hint |
| Indexes.Index.constructor | src/Index.h:36-37 | An empty list and an empty map |
| Indexes.Index.Register | src/Index.cpp:38-42 | A new table at the front; list and map stay in bijection |
| Indexes.Index.Update | src/Index.cpp:30-47 | Throws exactly for a known id, and then changes nothing |
| Indexes.Index.Insert | src/Index.cpp:14-28 | Into the table with that id wherever it stands, or a new one in front |
| Indexes.Index.ById | src/Index.h:36-37 | The map knows an id if and only if the list does |
| Indexes.Index.Get | src/Index.cpp:49-64 | The first table of the list that holds the key answers; the zero hint otherwise |
| Indexes.Index.Load | src/Index.cpp:66-93 | Completes exactly when every file loads and no id repeats, throws exactly on a repeated id; the later file is in front |
| Indexes.LoadAllExactly | src/Index.cpp:81-92 | Loading arbitrary files: complete if and only if each loads with an id of its own, with the last in front; an exception if and only if the first that does not has a repeated id |
| IndexHistory.NewestRegistrationAnswers | src/Index.cpp:14-64 | After any inserts and updates, the most recently registered segment holding the key answers with the hint last stored there, even if an older segment was inserted into later |
| IndexHistory.RunTracks | src/Index.cpp:14-47 | After any calls the list is in order of registration, newest first, and each table holds what was last stored under its id |
| FileNames.LoadOrderIsCreationOrder | src/Index.cpp:71-92 | The path-ordered scan visits the segments in creation order if and only if there are at most ten |
| FileNames.NameOrder | src/StorageEngine.cpp:117-119 | Names of equally many digits compare like their numbers |
| FileNames.NameInjective | src/StorageEngine.cpp:117-119 | No two segments share a file |
| FileNames.DecimalDenotes | src/StorageEngine.cpp:118-119 | Segment numbers are written in decimal without leading zeros |
| FileNames.NamesInFull | src/StorageEngine.cpp:118-119 | Three names in full |
| FileNames.TenBeforeTwo | src/Index.cpp:71-92 | From the eleventh segment on, segment 10 loads before segment 2 |
| FileNames.PathOrderExists | src/Index.cpp:71-79 | A path order exists for any number of segments |
| BloomFilters.LivedExact | src/BloomFilter.h:41-94 | After any adds and dump-and-load cycles the set cells are exactly those at (first + i * second) mod 2^64 mod cells of the added keys' hashes |
| BloomFilters.NoFalseNegative | src/BloomFilter.h:56-69 | An added key always tests positive |
| BloomFilters.AddRowsExact | src/BloomFilter.h:46-54 | The same on top of any filter: other cells keep their value |
| BloomFilters.AddAt | src/BloomFilter.h:46-54 | Adding a key sets exactly the positions of its hash |
| BloomFilters.ContainsAt | src/BloomFilter.h:56-69 | A key is refused if and only if one of the positions of its hash is clear |
| BloomFilters.AddRowsContains | src/BloomFilter.h:46-69 | Added keys test positive and positives stay positive |
| BloomFilters.DumpLoad | src/BloomFilter.h:76-94 | A loaded dump replaces every cell |
| BloomFilters.LoadBitsAt | src/BloomFilter.h:86-94 | Each cell after loading a file of any length |
| BloomFilters.BloomFilter.constructor | src/BloomFilter.h:71-74 | All cells clear |
| BloomFilters.BloomFilter.Rehash | src/BloomFilter.h:41-44 | The probe position under wrapping 64-bit arithmetic, in range |
| BloomFilters.BloomFilter.AddKey | src/BloomFilter.h:46-54 | In place: cells at the positions of the key's hash become 1, the others stay |
| BloomFilters.BloomFilter.Contains | src/BloomFilter.h:56-69 | Positive if and only if every position of the key's hash is set |
| BloomFilters.BloomFilter.Dump | src/BloomFilter.h:76-84 | The cells as bytes |
| BloomFilters.BloomFilter.Load | src/BloomFilter.h:86-94 | The cells overwritten by the file; a short file overwrites a prefix |
| WriteAheadLogs.WriteAheadLog.constructor | src/WriteAheadLog.cpp:5-10 | Opening truncates |
| WriteAheadLogs.WriteAheadLog.LogRow | src/WriteAheadLog.cpp:12-15 | Appends the row's bytes, unflushed |
| WriteAheadLogs.WriteAheadLog.FlushAndClear | src/WriteAheadLog.cpp:17-20 | Everything written is on disk |
| Limits.ReopenInvisibleUpToTen | src/Index.cpp:66-93 | In a configuration where some value fills the memtable by itself, reopening is invisible, for every key but 0 and 2^64-1, in all sessions of n segments if and only if n is at most ten |
| Limits.InvisibleUpToTen | src/Index.cpp:66-93 | The half for at most ten segments holds in every configuration |
| Limits.EleventhSegmentResurrects | src/Index.cpp:71-92 | With eleven or more segments, a value put in segment 2 and removed in segment 10 is back after reopening |
| Limits.RemovedValueReturns | src/MemTable.cpp:45-47 | Put, snapshot, remove, get: the removed value is back |
| Limits.EmptySegmentForgesZero | src/SSTableIndex.cpp:63-71 | remove(0), put(2^64-1), put(2^64-1): every operation is harmless and key 0 is not found; after closing and reopening, key 0 reads garbage |
| Limits.LargestKeyIsLost | src/MemTable.cpp:113 | Put of key 2^64-1, snapshot, get: not found; close, reopen, get: found |
| Limits.LossyCompressorDelivers | src/StorageEngine.cpp:12-49 | With a compressor that does not give back a value, `get` throws or delivers a value that was never put |
| Limits.EmptyValueIsUnreadable | src/Compression/LZ4CompressionAdapter.cpp:53-56 | In the default configuration the put of an empty value succeeds and its `get` throws |
| Limits.WrappedSizeIsUnreadable | src/SSTableIndex.cpp:83-84 | A row of exactly 2^32 bytes is indexed with size 0 and reads as garbage |
| Limits.ThrowingPutLosesKey | src/StorageEngine.cpp:116-146 | put(1), close, reopen, put(2): the put throws, key 2 is not found afterwards, and key 1 is read from the segment file that the put has replaced |
| Limits.SessionHistory | src/StorageEngine.cpp:12-32 | The puts and removes that build such a session of any length |
| Sizes.SegmentWithinTracked | src/MemTable.cpp:106-108 | The tracked size is the sum of 35 plus value length over the rows since the last clear, and bounds the segment file |
| Sizes.TrackedBelowLimit | src/StorageEngine.cpp:18-32 | It stays below the limit plus 35 for each remove since the last put |
| Sizes.RemovesNeverSnapshot | src/StorageEngine.cpp:29-32 | Any number of removes leaves the segments alone and adds 35 bytes each to the tracked size |
| Sizes.SmallBatchFits | src/SSTableIndex.cpp:78-86 | A batch below 2^32 bytes has exact 32-bit hints |
| Sizes.ModestRunFits | src/StorageEngine.cpp:12-32 | The 32-bit condition follows from the memtable limit, the longest value and the longest run of removes |

## Left out

- Networking, UUIDs and the command-line programs: socket plumbing and argument handling around the engine.
- `Database` and `FastPimpl`: pure forwarding to the engine.
- The overloads of `MemTable::put` and `get` without a checksum, and the accessors of a row: forwarding.
- `StorageEngine::handle` and the `Request` and `Response` codecs: a dispatch on three calls and a weaker form of the row codec.
- `saveOptions` and `loadOptions`: fixed fields; the options are parameters in `EngineSpec.Env`, so a different choice at reopening is not modelled.
- src/File.cpp: the engine does not use it.
- CityHash, MurmurHash3, Snappy and the LZ4 block format: arbitrary functions here. Of the LZ4 library it is asked that unpacking a packed block into a buffer of its original size gives it back.
- Bloom false-positive probability.
- The log's stream buffer: handed to the stream and cleared at every flush. Writes reach the file whole and in order; what survives beyond the flushed bytes is any record-aligned part. After a crash the bloom file may hold anything: a snapshot truncates it before it writes it. A torn record is followed through replay (`Rows.TornRecordReplays`) but not through the crash theorems, and torn segment and index files are not modelled.
- Multi-session durability: the code truncates the log and restarts segment numbers, so only one reopening is covered; `RecoveryTheorems.SnapshotAfterReopenThrows` shows why.
- 64-bit counters, tracked size and segment number: unbounded here, while the source wraps at 2^64. File ids, offsets and sizes are 32 bits wide as in the source.
- Allocation failures and files that cannot be opened: a corrupt length would throw there and decodes as zeros here.
- Data races in the sense of C++: single-byte reads and writes of the filter are atomic steps, and so is each file write and the read of a segment.
- `std::map`, `std::merge`, `std::unique` and `std::unordered_map`: given by functions on sequences and maps. `find` with several equivalent entries is lower bound followed by an equivalence check.
- Shared ownership: rows are values, so that memtable and table share row objects is not captured; nothing mutates a row.
- Files and the index directory: fields of the engine keyed by segment number; `FileNames` relates the numbers to the names.
- Uninitialised reads, and reads that write past their target: one result, undefined, told apart from an exception. What the source happens to do next, such as going on with a row of key 0 and an indeterminate type after an empty log, is not modelled.
