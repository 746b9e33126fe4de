# chickadee, modelled and proved in Dafny

chickadee is an LSM-tree key-value store: writes go to a framed write-ahead log (the WAL) and to an
in-memory table, full memtables become SSTable files with a Bloom filter footer, and every tenth flush a
k-way merge compacts all files. This project models the store from its bytes to its clients and proves
when, through runs of writes, flushes, compactions, reopens and crashes at any byte, each lookup answers
as one plain map that only the writes have changed, and when the commands of any number of clients,
through crashes and restarts of the server, are one sequential run of that map. While the store runs,
nothing is asked of the log. A reopen asks that the log read back as the memtable. It does so in every run
in which no append is torn; behind a torn append the code can lose a synced write, and the exact condition
is given.

## How the model is built

| file | what it models |
|---|---|
| `Bytes`, `Crc32`, `Keys`, `Entries` | little-endian fields, CRC-32 bit by bit, string order, entries and the outside world |
| `Header`, `Reader`, `Recovery` | the frame codec, a file with a cursor, the recovery scan and what it recovers |
| `Bloom`, `Tables`, `Names` | filter bits and footer, SSTable files complete or cut short, file names |
| `MemTables`, `Disk` | the memtable with its size, replay and flush; the directory and its durable steps |
| `Lookup`, `Merge` | lookups with and without filters, what a merge must keep |
| `Plans`, `Compaction` | the merge round by round on tables of any shape, and the code that does it |
| `Sizes`, `Flushes` | what the memtable weighs and when it flushes, which flush compacts |
| `Store`, `Logs` | the store as a value with its specification, and the `Log` object that is proved against it |
| `Refinement`, `Crash`, `Runs` | one operation, one cut compaction, whole runs |
| `CleanRuns`, `TornFrames`, `TornLogs` | runs in which the conditions hold by themselves, what a torn frame can show, and what it does to the next write |
| `Inputs` | the entries of the inputs that fail, with the bytes of their frames |
| `Commands`, `Durability` | commands with their replies, whole or stopped by a crash |
| `Clients`, `Sessions`, `Epochs` | connections interleaving around the lock, what one client sees, and the server restarted after crashes |

Objects the program updates in place are classes (`Stream`, `BloomFilter`, `MemTable`, `SSTable`,
`Directory`, `Log`). Each method is proved equal to a specification function on values, and the theorems
are about those functions. `Directory.history` is a ghost record of every durable step in the order
taken; a crash is a prefix of those steps, the last one cut at any byte.

Everything is stated for every `Env`: any codec that reads back what it wrote (encodings longer than
their key, nothing decoded from nothing, every decoded entry encodable), any hash, and any clock whose
readings increase. The codec may refuse entries, which is how texts that no Rust `String` can hold, or a
limit of wincode, enter the model. `Entries.Sample` is a concrete instance with a tag and length-prefixed
texts, so the laws are not vacuous. Texts are byte strings, ordered as Rust orders them.

## Conditions that are stated, not assumed away

- *The log.* The scan accepts any window that decodes. What the running store answers does not depend on
  the log (`LiveInv`), so the guard of an event (`LogGuard`) asks nothing of it until a reopen, and then that
  it read back as the memtable. A log that holds frames only does (`HoldsFrames`), and every event except an
  append torn inside its frame keeps it so (`FramesKept`, and through restarts `UntornEpochsFit`). Behind a
  torn frame each write is to bring no window to life that was passed over (`StillQuiet`): then every later
  reopen is covered (`WriteGuardSuffices`, `QuietRunRefines`). `GrowthKeepsScan`, `TailAddsNothing` and
  `Resynchronises` prove that this is exactly the condition for the scan. When up to four bytes of the torn
  payload are missing, and it has no magic pair inside, a caller can check it before the write: the new frame does
  not start with the missing bytes (`SmallTearExact`). One such write heals the log (`TearHeals`).
  `WriteOntoTornExact` and `CutWriteExact` give the exact conditions for the answers after a reopen.
- *The files.* A file, complete or cut at any byte, is to show no entry beyond its whole frames
  (`HarmlessCut`): it does not open, or its footer starts inside the frames, or no window behind them
  decodes. `CutTableExact` proves that this is exactly the condition for a cut file, `TableRoundTrip` for a
  complete one; `CutFlushExact` and `CutOutputExact` give the exact conditions for the answers after a
  reopen. It holds by itself for files of at most four keys (`SmallFileNeedsNoGuard`), so runs over four keys
  need no condition on codec or hash at all (`FewKeysRunRefines`).
- *Clock.* Readings are later than every existing file name, as the invariant carries along.
- *Deletion order.* Compaction deletes the newest original first, which loses: see below.

## What the proofs found

- A compaction stopped among its deletions can bring a deleted key back, because the file with the
  tombstone goes before the file with the old value (src/lib/log/sstable/compact.rs:25-26, 77-79).
  `CrashResurrects` gives the input, `CompactionCrashExact` and `DeletionCrashCondition` the exact condition, and
  `OldestFirstCrashRefines` shows that deleting oldest first needs no such condition, at any step and byte.
- A write that returned, and whose frame was synced, can be lost. An append is torn, and the next frame
  starts with the bytes the torn one lacks: the scan of the next reopen reads the torn entry and passes over
  the new one (src/lib/log/mod.rs:85-88, src/lib/log/header/reader.rs:40-51). With one byte missing that is every
  entry whose encoding ends in the first byte of the magic pair, `C`. `NextWriteLost` says so for any codec
  and hash; `AcknowledgedWriteLost` is `city = NYC` torn one byte short, reopened, then `b = x`: answered,
  and after another reopen `b` is gone and `city` is there.
- A flush or an append cut inside a frame can show a key that nobody wrote, when the value of the torn frame
  holds a whole frame itself. `TornFlushShowsInner` says so for every codec and hash;
  `TornFlushShowsStranger` and `TornWriteShowsStranger` give key and value for the layout of `Entries`, both
  one word of ASCII, as a client can send them.
- A Set writes its reply before it writes the log (src/lib/log/command.rs:138-140), so an entry whose
  encoding does not fit the u32 length is acknowledged and then refused: `AcknowledgedNotStored` is such a
  Set, and `SetReplyTruthful` says exactly when the acknowledgement is true. For the same reason a reply can
  arrive before a crash that loses its command (`AcknowledgedSetLost`): on standard output always, which is
  written line by line (src/bin/cli.rs:19), on a connection when the reply overflows the write buffer
  (src/bin/server.rs:38). `RepliesAfterRestart` says that this concerns the one running command only, and exactly when
  its reply holds after the restart.
- The comment on `read_next_entry` says it stops once the cursor reaches the footer
  (src/lib/log/sstable/mod.rs:59); the test is `>` (line 61), so one scan does run over the footer. The
  model follows the code, and `TableRoundTrip` says when that is harmless.
- The comment that the file count is the flush count (src/lib/log/mod.rs:65) holds until the first compaction
  and no longer: `CountIsFiles`, for every run of a new store with reopens and crashes in which each flush
  writes a file; after the tenth flush the count is ten and the files are those of the merge
  (`TenthFlushMerges`). A reopened store counts on from its files, so that it compacts next when their number
  ends in nine (`FirstFlushAfterReopen`).

## Model

| member | source | states |
|---|---|---|
| Keys.LessTotal | src/lib/log/memtable.rs:19 | any two keys are equal or one is less |
| Keys.LessExact | src/lib/log/memtable.rs:19 | the order is lexicographic: of two keys the one with the lesser byte at the first difference is less, or with none, the shorter |
| Keys.LessTransitive | src/lib/log/memtable.rs:19 | the order is transitive |
| Keys.LessIrreflexive | src/lib/log/memtable.rs:19 | no key is less than itself |
| Keys.SortedKeys | src/lib/log/memtable.rs:130-132 | the walk over the map is strictly ascending and visits every key once |
| Keys.AscendingUnique | src/lib/log/memtable.rs:129-132 | an ascending listing is determined by the keys in it |
| Crc32.CheckValue | src/lib/log/header/serializer.rs:21 | the bitwise form gives CBF43926 for the digits 1 to 9, as this CRC-32 must |
| Crc32.BurstDetected | src/lib/log/header/deserializer.rs:62-64 | two messages of equal length that differ only within four consecutive bytes never have the same checksum |
| Entries.CodecRoundTrip | src/lib/log/entry.rs:4-14 | the sample codec reads back every entry it accepts, so the codec laws can be met |
| Sizes.LaidOutTombstone | src/lib/log/entry.rs:4-14 | a tombstone of the sample codec, byte by byte |
| Header.Serialize | src/lib/log/header/serializer.rs:16-29 | returns the frame of the entry, or the error exactly when the codec refuses it or its length does not fit u32 |
| Header.DeserializeExact | src/lib/log/header/deserializer.rs:39-70 | the windows accepted are exactly those that start with the magic, the checksum and the length of a payload and that payload, which decodes; the bytes consumed are those |
| Header.DeserializeErrors | src/lib/log/header/deserializer.rs:43-65 | which error each rejected window gives, as an if-and-only-if for each, on the bytes of the window |
| Header.FrameRoundTrip | src/lib/log/header/deserializer.rs:33-38 | a written frame followed by any bytes reads back as its entry and takes up exactly its own length |
| Header.FrameLocality | src/lib/log/header/deserializer.rs:61-69 | a success depends only on the bytes it reports consumed |
| Header.OneByteDamages | src/lib/log/header/deserializer.rs:46-64 | any changed byte outside the length field is damage the header notices |
| Header.DamageRejected | src/lib/log/header/deserializer.rs:46-64 | a frame damaged in its magic, in its checksum, or within four consecutive payload bytes is rejected, whatever follows it, as a magic mismatch in the first case and as a checksum mismatch in the others |
| Reader.NextHitIsFirst | src/lib/log/header/reader.rs:40-51 | the scan stops at the first window that decodes and passes over no other |
| Reader.Stream.ReadNext | src/lib/log/header/reader.rs:27-52 | returns the entry of the next window that decodes and leaves the cursor behind it, or `None` with the cursor where `read_to_end` left it |
| Reader.Stream.HasAtLeastOne | src/lib/log/header/reader.rs:54-60 | true exactly when some window of the file decodes; the cursor does not move |
| Reader.Stream.Append | src/lib/log/header/writer.rs:22-27 | the frame lands at the end wherever the cursor stood; an error leaves the data alone |
| Recovery.ScanFrames | src/lib/log/header/reader.rs:35-51 | frames are read back in order, each at its offset, and the scan goes on behind them |
| Recovery.Resynchronises | src/lib/log/header/reader.rs:15-16 | for any interleaving of frames and junk, repeated reads return exactly the framed entries if and only if no window starting in junk decodes |
| Recovery.GrowthKeepsScan | src/lib/log/header/reader.rs:35-51 | when a file grows, the old entries and then the new ones are read if and only if no window passed over before comes to life |
| Recovery.TailAddsNothing | src/lib/log/header/reader.rs:35-51 | bytes added to a file add nothing to what is read if and only if no window passed over comes to life and no new one decodes |
| Recovery.CleanStaysQuiet | src/lib/log/header/reader.rs:35-51 | in a file of frames only, nothing can come to life |
| Recovery.FramesStayQuiet | src/lib/log/header/reader.rs:35-51 | the same for any log known to be frames, whatever follows it |
| Recovery.AppendedFrameIsRead | src/lib/log/mod.rs:85-90 | for any log and entry: the scan reads what it read before and the new frame at its own offset if and only if no window passed over comes to life |
| Recovery.TornFrameRejected | src/lib/log/header/deserializer.rs:61 | a frame cut at any byte is rejected at its own start, for want of bytes |
| Recovery.TornTailIsDropped | src/lib/log/memtable.rs:35-42 | a log whose last frame is cut at any byte, with no magic pair inside, replays as all the entries before it |
| Recovery.DamageCostsOneEntry | src/lib/log/header/reader.rs:40-51 | a log with one damaged frame, with no magic pair inside, replays as all other entries at their own offsets |
| Recovery.OneByteCostsOneEntry | demo/corrupt_wal.py:2-18 | one byte flipped outside the length field costs exactly that entry |
| Bloom.BloomFilter.Add | src/lib/log/sstable/bloom_filter.rs:62-68 | the array becomes the filter with the seven bits of the key set, and every other bit below the bit count as it was |
| Bloom.BloomFilter.Query | src/lib/log/sstable/bloom_filter.rs:73-78 | false exactly when one of the seven bits of the key is clear |
| Bloom.FilterExact | src/lib/log/sstable/bloom_filter.rs:39-68 | the filter of any keys, bit by bit: those bits are set that are h1 + i * h2 in 64 bits, modulo the bit count, for some key and some i below 7, and no other; and its length |
| Bloom.FalsePositiveExact | src/lib/log/sstable/bloom_filter.rs:70-78 | a key passes if and only if the inserted keys have all its seven bits between them |
| Bloom.InsertedMayBeContained | src/lib/log/sstable/bloom_filter.rs:62-78 | no inserted key is ever reported absent, for any hash, any bit count and any later inserts |
| Bloom.FooterRoundTrip | src/lib/log/sstable/bloom_filter.rs:95-117 | the footer written behind any bytes reads back as the same filter |
| Tables.ReadBloomFilter | src/lib/log/sstable/bloom_filter.rs:95-117 | returns the filter in the footer with the cursor back at the start, or null when the file is too small for the footer it declares |
| Tables.SSTable.FromPath | src/lib/log/sstable/mod.rs:31-52 | opens exactly the files with a footer and a first entry, positioned so that all entries are still to come |
| Tables.SSTable.ReadNextEntry | src/lib/log/sstable/mod.rs:60-65 | delivers the remaining entries one by one and then `None` forever |
| Tables.TableRoundTrip | src/lib/log/sstable/mod.rs:27-65 | a written file opens with its own filter and delivers its entries; nothing else follows if and only if no footer window decodes |
| Tables.ShortFooterIsQuiet | src/lib/log/header/deserializer.rs:43-45 | a footer no longer than a header hides no frame |
| Tables.CutTableExact | src/lib/log/sstable/mod.rs:31-65 | a file cut at any byte delivers no entry beyond its whole frames if and only if it does not open, its footer starts inside the frames, or no window behind them decodes |
| Tables.CompleteIsHarmless | src/lib/log/sstable/mod.rs:59-65 | for a complete file that condition is that no window of the footer decodes |
| Names.NameOrderIsTimeOrder | src/lib/log/memtable.rs:78-79 | below 10^20 file names compare as their timestamps do |
| Names.NameReadsBack | src/lib/log/memtable.rs:79 | a file name is twenty digits that read back as the timestamp, and `.sst` |
| Names.NameSortIsListing | src/lib/log/mod.rs:106-108 | sorting the directory by name, descending, gives exactly the newest-first listing, in whatever order it is read |
| MemTables.MemTable.Apply | src/lib/log/memtable.rs:52-58 | the entry replaces the one for its key and the size follows with saturating arithmetic; an entry the codec refuses is not stored, but the size of the one it was to replace is given up |
| Sizes.ProcessSaturates | src/lib/log/memtable.rs:52-64 | whatever the tracked size is: what the replaced entry counts for is taken off, not below 0, and what the new one counts for is added, not beyond 2^64 - 1 |
| MemTables.MemTable.FromFile | src/lib/log/memtable.rs:35-42 | the rebuilt memtable is the replay of every entry the scan finds |
| MemTables.WriteTable | src/lib/log/memtable.rs:80-97 | the file gets the frames in key order, the filter and the bit count, or exactly the part written before an error |
| MemTables.FlushedFooter | src/lib/log/memtable.rs:84-97 | how a flushed file ends: ten bits per entry with exactly the bits of its keys set, in as few bytes as hold them, and that number in four bytes, least significant first |
| MemTables.MemTable.FlushTo | src/lib/log/memtable.rs:73-100 | one new file under the next clock reading and an empty memtable; on error the memtable is untouched; nothing at all when empty |
| MemTables.ReplayKeepsLast | src/lib/log/memtable.rs:34-58 | the memtable holds for each key precisely the last entry written |
| MemTables.ProcessTracksSize | src/lib/log/memtable.rs:52-64 | one entry keeps the tracked size the total over the map, as long as that fits u64 |
| MemTables.CountWithinSize | src/lib/log/memtable.rs:60-64 | the size bounds the number of keys |
| Sizes.TrackedSizeExact | src/lib/log/memtable.rs:52-64 | for any codec and any replay: the tracked size is, throughout, the sum over the map of key length and encoded length, if and only if that sum fits u64 throughout |
| Sizes.LaidOutWeighs | src/lib/log/memtable.rs:60-64 | in the codec as laid out a Set weighs twice its key, its value and 20 bytes, a Delete twice its key and 12 |
| Sizes.FlushesPastFourMiB | src/lib/log/memtable.rs:66-69 | a write is followed by a flush if and only if its key and encoding, and those of all other keys, are over 4 * 2^20 bytes together |
| Sizes.LaidOutFlushes | src/lib/log/mod.rs:160-166 | the same in the lengths of keys and values |
| Sizes.BoundedHeld | src/lib/log/memtable.rs:24 | while commands run that sum is within 4 * 2^20, and each crash in a row adds 2^33 at most |
| Lookup.GetFromTables | src/lib/log/mod.rs:106-124 | the loop over files returns the newest entry its filters let it find |
| Lookup.FiltersChangeNothing | src/lib/log/mod.rs:109-123 | with covering filters the lookup equals the scan without filters |
| Lookup.FilterGetFindsOnlyEntries | src/lib/log/mod.rs:109-123 | whatever the filters say, nothing is found that a plain scan would not find |
| Lookup.FilterGetExact | src/lib/log/mod.rs:106-124 | the answer is the first entry for the key in the first file that opens, has none of its seven bits clear, and holds it |
| Lookup.FilterGetNone | src/lib/log/mod.rs:106-124 | there is none if and only if there is no such file |
| Merge.LiveEntriesStep | src/lib/log/sstable/compact.rs:42-69 | deciding the least key and moving every table past it leaves all other keys as they were |
| Merge.LiveEntriesShape | src/lib/log/sstable/compact.rs:13-17 | what is kept is strictly ascending, Set-only, and holds for each key its winner exactly when that is a Set |
| Merge.ChunksFlatten | src/lib/log/sstable/compact.rs:70-76 | the cuts between output files lose, repeat and move nothing, and leave no file empty |
| Sizes.OutputCuts | src/lib/log/sstable/compact.rs:70-76 | every output file but the last is over 4 * 2^20 bytes, and without its last entry no file is |
| Merge.ChunksFit | src/lib/log/sstable/compact.rs:70-76 | every output file has few enough keys for its bit count, so no flush of a compaction fails |
| Merge.WinnerOfChunks | src/lib/log/mod.rs:106-124 | a lookup in the output files finds what the whole output holds, in whatever order they are read |
| Plans.LeastInFront | src/lib/log/sstable/compact.rs:44-51 | in sorted tables the least key in front of any table is the least key of all |
| Plans.PlanIsChunks | src/lib/log/sstable/compact.rs:13-17 | on sorted tables the loop writes the winning Sets in key order, cut by size, and no flush in it fails |
| Compaction.OpenAll | src/lib/log/sstable/compact.rs:27-35 | opens the files newest first and skips those that do not open |
| Compaction.LeastKey | src/lib/log/sstable/compact.rs:44-51 | the least of the keys in front, or none when every table is exhausted |
| Compaction.Round | src/lib/log/sstable/compact.rs:54-69 | on any tables: the first table with the key in front wins unless the key is decided, only a Set reaches the memtable, every table with it in front moves on, and the key joins the seen keys |
| Compaction.MergeAll | src/lib/log/sstable/compact.rs:27-76 | for any directory: the files written are exactly those of the plan, each under its own clock reading, up to the first that fails |
| Compaction.Compact | src/lib/log/sstable/compact.rs:22-81 | for any directory: the durable steps are all outputs in order, then the deletion of every original, newest first; nothing is deleted after an error |
| Crash.MergeOutputShape | src/lib/log/sstable/compact.rs:13-17 | the output files in the order written form one ascending run with one entry per live key, and look-up in it is the winner if that is a Set |
| Crash.CompactRefines | src/lib/log/sstable/compact.rs:22-81 | a compaction changes no answer and keeps the invariant, for any number and overlap of files and any memtable |
| Crash.CutRefines | src/lib/log/sstable/compact.rs:70-79 | any outputs, the last possibly cut short, with all originals present change no answer; nor do deletions that resurrect nothing |
| Crash.DeletionCrashExact | src/lib/log/sstable/compact.rs:77-79 | after the i newest originals are deleted the answers are unchanged if and only if no key outside the memtable whose newest entry was a tombstone is live in the rest |
| Crash.DeletionCrashCondition | src/lib/log/sstable/compact.rs:25-26 | with covering filters: if and only if no such key has a Set as its newest entry in the rest |
| Crash.OldestFirstNeedsNoCondition | src/lib/log/sstable/compact.rs:77-79 | had the oldest files been deleted first, any number of deletions would keep the invariant and every answer, whatever the filters cover |
| Crash.NewestFirstResurrects | src/lib/log/sstable/compact.rs:25-26 | the input: a key set, flushed, deleted, flushed, and back after the first deletion of a compaction |
| CleanRuns.WitnessReached | src/lib/log/mod.rs:141-153 | that directory is what two writes and two flushes make of a new store |
| Refinement.WriteRefines | src/lib/log/mod.rs:85-90 | a write changes the answer for its own key and no other, whatever the log holds |
| Refinement.WriteKeepsLog | src/lib/log/mod.rs:85-90 | the log goes on reading back as the memtable if nothing in it comes to life |
| Refinement.ShadowedFile | src/lib/log/memtable.rs:80-98 | a file holding any prefix of the memtable, whatever its filter says, changes no answer while the log is there |
| Refinement.CompleteImage | src/lib/log/memtable.rs:86-97 | a finished file opens, holds all its entries, and its filter admits every one |
| Refinement.FlushFileRefines | src/lib/log/mod.rs:144-147 | writing the file and truncating the log changes no answer, even when the flush fails, whatever the log holds |
| Refinement.ReopenAfterDamage | src/lib/log/header/reader.rs:40-51 | the store reopened on a log with one damaged frame is in the invariant and answers as if that entry, and only that, had never been written |
| Refinement.ReopenAfterFlip | demo/corrupt_wal.py:2-18 | the same for one byte flipped outside a length field |
| Logs.Log.Open | src/lib/log/mod.rs:47-77 | the opened store is the replay of the log over the directory as it is, or of an empty log when truncating, with the number of files for its count |
| Flushes.FirstFlushAfterReopen | src/lib/log/mod.rs:65-70 | after a reopen and any writes, the first flush that writes its file compacts if and only if the number of files found ends in nine |
| Flushes.CountIsFiles | src/lib/log/mod.rs:65-70 | in every run of a new store in which each flush writes a file and none compacts, reopens and crashes included, the count is the number of files |
| Logs.Log.Write | src/lib/log/mod.rs:85-90 | the new state is that of the specification, the log grows by the frame, and an entry that cannot be framed changes nothing |
| Logs.Log.Get | src/lib/log/mod.rs:98-125 | the answer of the specification: memtable, then files newest to oldest, a tombstone ending the search |
| Logs.Log.Contains | src/lib/log/mod.rs:132-134 | true exactly when `get` finds the key |
| Logs.Log.FlushAndTruncate | src/lib/log/mod.rs:141-144 | file first, then truncation, then the count; nothing after an error |
| Logs.Log.Flush | src/lib/log/mod.rs:144-153 | from any state: the new state, the result and the durable steps are those of the specification, the compaction of every tenth flush included |
| Flushes.FlushesAtTen | src/lib/log/mod.rs:148-151 | a flush goes on to compact if and only if the count it leads to is a multiple of ten, and the count stays at the end of u64 |
| Flushes.FailedFlushCountsNot | src/lib/log/mod.rs:145 | a flush that fails to write its file does not count, truncates nothing and does not compact |
| Flushes.TenthFlushMerges | src/lib/log/mod.rs:144-153 | ten writes and flushes of a new store leave the outputs of one merge and no other file, and these hold for each key its last entry if that is a Set, and nothing else |
| Logs.Log.MaybeFlush | src/lib/log/mod.rs:160-166 | flushes exactly past the threshold |
| Logs.Log.Compact | src/lib/log/sstable/compact.rs:22-81 | from any state: the new state, the result and the durable steps are those of the specification |
| Runs.OpsExplainDisk | src/lib/log/mod.rs:144-153 | the recorded steps of each operation account for everything it leaves on disk |
| Runs.WriteCrashRefines | src/lib/log/mod.rs:85-88 | a write cut at any byte is lost whole, or kept if its last byte was written, when what reached the log reads back so |
| Runs.FlushCrashRefines | src/lib/log/mod.rs:144-152 | a flush cut anywhere, its file at any byte, before or after truncation, or in the compaction it started, changes no answer on reopen, provided the cut file is harmless |
| TornFrames.CutFlushExact | src/lib/log/memtable.rs:80-97 | the exact condition: a reopen after a flush cut at any byte answers as before if and only if the cut file finds nothing for a key outside the memtable but what was its answer anyway |
| TornFrames.CutOutputExact | src/lib/log/sstable/compact.rs:70-76 | the exact condition for a compaction cut at any byte of any output, when the outputs before it show no entry beyond their frames |
| TornFrames.TornFlushShowsInner | src/lib/log/sstable/mod.rs:31-65 | the input that fails it, for any codec and hash: a torn frame that holds a whole frame and four zero bytes |
| TornFrames.TornFlushShowsStranger | src/lib/log/memtable.rs:80-97 | those bytes for the codec as laid out, key and value one word of ASCII: after the reopen a key that nobody wrote has a value |
| TornFrames.CutWriteExact | src/lib/log/mod.rs:85-88 | for an append to any log it brings nothing of to life, cut at any byte: a reopen answers as before if and only if what the scan reads out of the torn frame is, key by key, what was the answer anyway |
| TornFrames.TornWriteShowsStranger | src/lib/log/memtable.rs:35-42 | the same Set, torn while it is appended to the log |
| TornLogs.TornTailExact | src/lib/log/header/reader.rs:40-51 | any frames written behind any torn frame with no magic pair inside, with any frames before it, bring nothing to life if and only if the torn bytes and those frames do not decode together |
| TornLogs.SmallTearExact | src/lib/log/header/deserializer.rs:61-64 | with up to four bytes of the payload missing: if and only if the new frames do not start with the missing bytes |
| TornLogs.TearHeals | src/lib/log/header/reader.rs:15-16 | then the log reads as all frames but the torn one, and nothing written later can bring that one back |
| TornLogs.WriteOntoTornExact | src/lib/log/mod.rs:85-88 | the answers: a reopen after such a write answers as the running store did if and only if the new frame does not start with the missing bytes, or losing its entry for the torn one changes no answer |
| TornLogs.TornStoreReached | src/lib/log/mod.rs:85-88 | the store of the two inputs below is what a crash one byte short of a first append leaves |
| TornLogs.NextWriteLost | src/lib/log/header/reader.rs:40-51 | for any codec and hash: a first append whose last byte is the first of the magic pair is torn there; the next write succeeds and is readable, and after a reopen it is gone and the torn one is there |
| TornLogs.AcknowledgedWriteLost | src/lib/log/command.rs:138-142 | such a Set as a client sends it, answered and then lost, for the codec as laid out |
| Runs.CompactCrashRefines | src/lib/log/sstable/compact.rs:70-79 | a compaction cut anywhere changes no answer on reopen, among the deletions provided nothing is resurrected |
| Runs.CompactionCrashExact | src/lib/log/sstable/compact.rs:77-79 | the exact condition for a reopen after a crash among the deletions |
| Runs.CrashResurrects | src/lib/log/sstable/compact.rs:77-79 | the reopen that brings a deleted key back |
| Runs.OldestFirstCrashRefines | src/lib/log/sstable/compact.rs:70-79 | with the deletions in the other order, a compaction cut at any step and any byte changes no answer on reopen, with no condition on what is deleted |
| Runs.EventRefines | src/lib/log/mod.rs:47-166 | one operation, reopen or crash keeps the agreement with the plain map and the invariant, the log being needed at a reopen only |
| Runs.RunRefines | src/lib/log/mod.rs:47-166 | over every run of operations, reopens and crashes that find the log and the files as they ask, every lookup answers as the plain map changed only by the writes that took effect |
| Runs.WriteGuardSuffices | src/lib/log/mod.rs:85-90 | if no write, whole or torn, brings a window of the log to life, every later reopen finds the log it needs |
| Runs.QuietRunRefines | src/lib/log/mod.rs:47-166 | so runs with torn appends need a condition on each write, and none on reopens |
| CleanRuns.FramesKept | src/lib/log/mod.rs:85-152 | every event except an append torn inside its frame leaves a log of frames a log of frames |
| CleanRuns.UntornRunRefines | src/lib/log/mod.rs:47-166 | from a log of frames, over every run without such appends, the same with no condition on the log |
| CleanRuns.FewKeysRunRefines | src/lib/log/mod.rs:47-166 | over four keys, the same with no condition at all, for crashes between durable steps short of the deletions |
| Runs.FreshIsEmpty | src/lib/log/mod.rs:47-77 | a new store is in the invariant and answers as the empty map |
| CleanRuns.SomeRun | src/lib/log/mod.rs:144-153 | a run of write, flush, compaction and a crash behind the first output of another meets all conditions, for any codec and hash, and keeps the value |
| CleanRuns.CleanLogNeedsNoGuard | src/lib/log/header/writer.rs:22-27 | on a log of frames nothing comes to life under a write, and replay gains exactly its entry |
| CleanRuns.SmallFileNeedsNoGuard | src/lib/log/memtable.rs:86-96 | a flush of at most four keys needs no condition, for any hash |
| Runs.CrashFreeStaysSound | src/lib/log/memtable.rs:71-100 | over every run without crashes and failed flushes every file opens, is not empty, and is covered by its filter |
| Commands.CommandRefines | src/lib/log/command.rs:136-163 | each command replies and changes the store as on the plain map, whatever the log holds; the memtable is within 4 MiB after each write, no flush fails even after crashes, and a Delete answers "deleted" exactly for live keys and otherwise writes nothing |
| Commands.SetReplyTruthful | src/lib/log/command.rs:138-142 | the reply to a Set is true if and only if the entry can be framed or the key held that value before |
| Commands.StorableByLength | src/lib/log/header/serializer.rs:22-23 | for the layout of the codec, the Sets that can be framed, to the byte |
| Commands.AcknowledgedNotStored | src/lib/log/command.rs:138-142 | a Set of 2^32 bytes is answered as stored and is not |
| Commands.ExecuteOn | src/lib/log/command.rs:136-163 | from any state the object ends in the state, with the reply and by the durable steps, of the specification |
| Durability.CommandCrash | src/lib/log/command.rs:136-163 | a command stopped at any step and any byte is kept whole after the reopen if its frame was complete and is lost whole otherwise, if the log reads back so, and the memtable is over its threshold by one more entry at most |
| Clients.ThreadsKept | src/lib/run.rs:45-61 | one step of any connection's thread, whatever its command does, keeps exclusion, order, delivery, real time, and that a connection goes on after its command exactly if that succeeded and was answered |
| Clients.LogThroughout | src/lib/run.rs:45-61 | a log of frames that reads back as the memtable stays one through every interleaving |
| Clients.Linearizable | src/lib/run.rs:43-63 | for any number of connections in any interleaving, whatever the log holds, the commands in lock order are one sequential run with the same answers, in an order that respects real time and each client's own order; all commands of a connection but its last succeeded and were answered, and one that failed closes it |
| Sessions.AllServedInTurn | src/lib/run.rs:45-61 | whenever the lock is free, a client with any list of commands that succeed can have all of them run in order and answered, and is then ready to send more |
| Sessions.SomeSession | src/lib/run.rs:45-61 | so a new server has a run that serves any such client from its first command to its last |
| Sessions.GetSeesLastWrite | src/lib/log/command.rs:143-146 | in such a run every Get, of whichever client, is answered with the value of the last Set of its key in lock order, or "not found" if a Delete came later or there was none |
| Sessions.WritesAnswered | src/lib/log/command.rs:138-157 | a Set is answered with its own value, a Delete with "deleted" exactly if the key was there |
| Sessions.ReadsChangeNothing | src/lib/log/command.rs:143-146 | a Get succeeds, and leaves the store and the disk as they are |
| Epochs.CrashKeepsCommands | src/lib/run.rs:43-63 | after a crash in any system state and a restart the store answers as the map of the commands that ran, and of the running one if its frame was complete |
| Epochs.DurablyLinearizable | src/lib/run.rs:43-63 | through any sequence of crashes that find log and files as they ask, and restarts, 425 million at most, each with any interleaving of its own clients: the commands of every life, with the replies its clients got, are one sequential run in real-time order from the map of the commands that survived the lives before, each connection going on exactly while its commands succeed; and the store answers as the map of those that survive |
| Epochs.UntornEpochsFit | src/lib/run.rs:43-63 | from a log of frames, if no crash falls inside an append, nothing is asked of the log through all those lives |
| Epochs.RepliesAfterRestart | src/lib/log/command.rs:138-141 | after a crash and a restart the store honours every reply a client got, except possibly that of the running command, and that one if and only if its frame was complete or it changes nothing |
| Epochs.SetAfterRestart | src/lib/log/command.rs:138-140 | for a running Set: the restarted store has the value the client was shown if and only if the frame was complete or the key held that value before |
| Epochs.AcknowledgedSetLost | src/lib/log/command.rs:139-140 | the reply of the running command can be lost: the client has read it, and after the restart the key is not there |

## Left out

- TCP, standard input and output, `.env`, threads and mutex poisoning: plumbing; the lock-step interleaving is what is modelled.
- Command parsing, aliases, help text, reply strings, and lines that do not parse: flat case analysis; replies are a datatype, and a line that does not parse never reaches the store.
- Operating-system errors, permissions, and what `sync_all` really guarantees: durable steps succeed in order, and a crash is a prefix of them.
- wincode and xxh3: arbitrary functions of the environment; `Entries.Sample` is a witness of the laws, not wincode itself, and does not check UTF-8.
- The Bloom false-positive rate: probabilistic, not decided by the code.
- Damage to a length field, or inside an SSTable: the checksum does not cover the length, and a lost SSTable entry may expose an older value.
- Clock readings that repeat or run backwards, and timestamps of 10^20 and more: files are known by their timestamps, and names are tied to them below that bound.
- Files in the directory that the store did not write: every file is a flush image, complete or cut short.
- `Log::new` with `truncate`: `Logs.Log.Open` models it, the runs only reopen without it, as the binaries do.
- MemTables.WriteTable: the file is built in memory and then put on disk in one recorded step; that step may be cut at any byte, so every partial file is still covered.
- Entries.CodecRoundTrip: speaks of the codec laid out in `Entries`, a witness of the laws; that the derived wincode codec keeps them is not part of this model.
- Compaction.MergeAll: does not say of each open file where its cursor ends, as the files are closed with it; that the whole of every input is taken into account follows from the plan it is equal to.
- Clients.Linearizable: a reply is sent as one unit, so a client that reads half of one is not modelled.
