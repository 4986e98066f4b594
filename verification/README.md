# cachedb in Dafny

cachedb is a key-value server built as a log-structured merge tree: writes go to a
write-ahead log and an ordered in-memory table, full memtables are flushed to sorted
immutable files, runs of similar files are merged, and a restart rebuilds everything from
the file names and the log. This project models that engine down to the bytes it writes and
the individual file-system steps it takes, together with the request parser in front of it
and the event loop around it, and proves that the layers agree.

## What is proved

**The engine is a map.** `StoreRun.Run` covers every sequence of look-up, set, delete,
multi-delete, expire, increment, flush, sweep, merge and clear under a clock that does not go
back. The store reads as one plain map from key to value and expiry stamp, and flush, sweep and
merge leave it alone. What it answers is also stated from the steps and the answers alone
(`KeyHistory.AnsweredIsTruth`, `KeyHistory.TruthIsLast`): a look-up finds what the last step that
touched the key left there, until its stamp has passed.

The directory keeps a history of every state it passed through. The same theorem cuts
that history at the steps: between two steps a restart finds exactly what was acknowledged,
and at any point within a step it finds that plus a prefix of the records of the step in
flight, down to a log write torn in the middle of a record. Two stretches are exposed: a merge
of a run that reaches the oldest table, between its rename and its last unlink, and the unlinks
of a clear. No other step has an exposed instant, and what a restart reads from an exposed disk
is stated in terms of the disk the step began on: after a cut merge the map as it was, except
that a dropped key nothing newer answers is read from the inputs that are left; after a cut
clear the log over the oldest tables. `StoreRun.Live` chains all of it through any number of
crashes, during start-up, within any step and on any disk: each process starts from the very
disk the one before died on and reads the map that crash left. The histories it speaks of are
those of the directories the processes ran on.

**Every piece under it is verified at the level of bytes.** The WAL codec round trips both
ways, torn tails are cut exactly, the checksum is the remainder of the message by the CRC-32
generator polynomial and nothing else is (`Crc32Polynomial.CrcExactly`), it catches every
one-byte change it covers, sorted files written by the writer answer `get` like a linear search
of their rows, the windowed cursor enumerates them, the k-way merge is "first table that has the
key wins", and a bit of the bloom filter is set exactly when it is a probe of some key, in spite
of the 32-bit wrap-around of probe positions.

**Group commit.** `Server.Serve` covers every run of the event loop, from the bytes the clients
send to the bytes they are sent. It executes exactly the commands in those bytes, each on the
map the ones before it left, and answers it from that map. Each client is sent a prefix of its
replies and nothing else, and its commands are those of its own reads, however the clients
interleave (`Streams.EachStreamHeard`, `Streams.StreamIsDrained`). Before the replies of a turn
leave, every read of the turn has been executed; then each event lets its client have as much of
what it is owed as the socket takes, so that whoever was served is caught up when the sockets take
it all (`Delivery.AllDelivered`). The directory keeps a trace
of what every call, syncs included, leaves on the disk and leaves unsynced; the sockets note how
long that trace was at every write. At that point of the trace the disk recovers to the map after
everything executed so far, and nothing this process wrote is unsynced. So a power cut there
leaves a disk that recovers to that map unless it takes something that was unsynced before the
loop began and has not been touched since. `AtRisk.StartLeaves` and `AtRisk.SafeFromThenOn` say
what that can be: the log, after a start that had to cut or create it, until the first write or
directory sync.

**The parser.** `RespChunking.ChunkingExact` says exactly when the way a stream is cut into
reads does not matter. `RespRoundTrip.RequestRoundTrip` is the round trip, and
`RespRoundTrip.InlineDrained` says what any other line amounts to.

## Where the code does less than its comments say

Each of these is a theorem here, with the exact condition.

- A merge that reaches the oldest table drops tombstones, so the merged table does not shadow
  the inputs that are still to be unlinked. A crash between the rename and the last unlink
  recovers the right map exactly when no dropped key has a live version in a remaining input
  (`DiskSteps.CrashInsideDropMerge`, `Engine.MidDropExact`). `Exposure.DeletedKeyComesBack` is
  a store, a merge and the disk right after its rename from which a deleted key comes back; the
  tier walk chooses that merge exactly when the value is at most 66 bytes longer than twice the
  key. The comment at src/store.cpp:367-374 does not make the distinction.
- `src/resp.h:41-42` promises that chunking does not matter. It does not matter if and only if
  every line ends before it has outgrown the 64 KB limit; the limit is looked at only while
  the terminator is missing. For a CRLF line the carriage return counts as well.
  `RespChunking.LongLineHappens` is a stream for which it does matter.
- `src/resp.h:35-36` says reply prefixes and null forms are refused. `*-1` is skipped
  (`RespRoundTrip.NonPositiveCountSkipped`), and a line starting with `+`, `-` or `:` is an
  inline command (`RespRoundTrip.ReplyPrefixIsInline`). `$-1` is refused
  (`RespRoundTrip.LengthRefused`).
- Members of a tier are within a factor of two of the smallest member older than themselves,
  not of each other. They are pairwise within it exactly when none of them was less than half
  the largest member when it joined, which the walk does not ask
  (`TierWalk.PairwiseExactly`, `TierWalk.ChosenRunNeedNotBePairwise`). Tiers are
  also cut greedily, so a run of four can be passed over (`TierWalk.RunPassedOver`).
- The event loop syncs whenever bytes are unsynced, whatever the policy (src/server.cpp:151),
  so the group-commit theorem has no hypothesis about the policy.
- Nothing syncs the directory entry of a `wal.log` that did not exist before, until the first
  table is renamed. Until then an acknowledged write survives a power cut exactly when that
  entry happens to be on disk (`AtRisk.FreshLogEntry`). `AtRisk.FirstWriteAtRisk` runs the loop
  into it: a new directory, one write, its reply sent, and a disk without the key.
- `parse_int64` refuses the smallest 64-bit integer although it has a canonical spelling
  (`Int64Text.CanonicalExact` gives the exact set).

## Assumptions

The clock does not go backwards and is read once per command. Keys and values are shorter
than 2^32 bytes, which is what the length fields can carry, and the file system lets no table
grow past 2^43 bytes. Files are byte strings in a map; a write may stop after any prefix,
a rename is atomic, and `fsync` makes durable what it is defined to make durable. Opening and
reading a file always succeeds; a write to a table under construction may fail and is then
cleaned up. Integers are unbounded in Dafny; 32- and 64-bit wrap-around and saturation are
written out where the program relies on them.

## Model

| member | source | states |
|---|---|---|
| StoreRun.Run | src/store.cpp:140-496 | every run reads as the plain map; each answer is right by the steps and answers before it, and a look-up finds what the last step to touch its key left, while the stamp lasts; a crash between steps leaves exactly what was acknowledged, a crash within a step that plus a prefix of its records, and on an exposed disk what a cut merge or a cut clear leaves |
| KeyHistory.AnsweredIsTruth | src/store.cpp:140-303 | a run answered from the plain map is answered as the steps and earlier answers demand: look-ups, the two deletes, EXPIRE and INCR, each by what its keys hold |
| KeyHistory.TruthIsLast | src/store.cpp:140-303 | then a look-up finds the last set, expiry or increment of its key while its stamp lasts, and nothing after a delete, a clear or on a key never there |
| KeyHistory.AfterIsNext | src/store.cpp:199-303 | one step of the plain map, key by key |
| KeyHistory.AnswerIsTold | src/store.cpp:140-303 | one answer of the plain map, by what each key holds |
| KeyHistory.HoldingIsMap | src/store.cpp:140-303 | what the steps and answers say a key holds is what the plain map has there |
| StoreRun.Live | src/main.cpp:124-158 | through any number of crashes, on any disk in the history of the directory the process ran on, during start-up or any step, each process starts from the disk the one before died on and reads the map left there: all that was acknowledged and a prefix of what was in flight, or what a cut merge or clear leaves |
| StoreRun.LiveOnce | src/main.cpp:124-158 | one life from a disk to the disk it dies on, which is the one of its directory's history that the life names |
| StoreRun.DieIn | src/store.cpp:199-496 | the disk a process dies on within a step is the one its life names, exposed or not, and the map read from it |
| StoreRun.Take | src/store.cpp:140-496 | one step of any kind is answered from the plain map and changes it as that step should, every disk on the way leaves what `StoreRun.Run` says, a set that does not fill the memtable syncs no directory, and a flush, a sweep or a merge is really done unless a table write fails |
| StoreRun.Write | src/store.cpp:199-303 | a write, a flush or a sweep is safe at every instant: no disk on the way is excepted |
| StoreRun.MergeIsSafe | src/store.cpp:305-399 | the disks of a merge recover to the map, except those between rename and last unlink of a chosen run that reaches the oldest table, whose reads are given by the disk the merge began on |
| StoreRun.ClearIsSafe | src/store.cpp:401-429 | the disks of a clear recover to the empty map, except those between its unlinks, which read as the log over the oldest tables |
| Exposure.ExposedLeaves | src/store.cpp:367-386 | every exposed disk of a merge is the starting disk with the chosen run cut short, and recovers to the map as it was with dropped keys read from the inputs that are left |
| Exposure.DropMergeReads | src/store.cpp:367-386 | what each key reads as on such a disk |
| Exposure.ClearedLeaves | src/store.cpp:405-421 | every exposed disk of a clear is the starting disk without its newest tables, and recovers to the log over the others |
| Exposure.FlushedTier | src/store.cpp:319-345 | of four single-row tables, three with a value and a newer tombstone, the tier walk takes all or none, by the length of the value |
| Exposure.DeletedKeyComesBack | src/store.cpp:319-386 | a consistent store without a key, a merge of all its tables, chosen by the tier walk if and only if the value is short enough, and the disk right after its rename, which is a cut of that merge and does not recover to that store but to one with the key |
| StoreRun.RunOneMore | src/store.cpp:140-496 | the cut of the history into steps extends by one step |
| Store.Start | src/main.cpp:124-158 | from any disk that recovers to a map, opening the tables, replaying the log and opening it for append gives a valid store that reads as that map; exactly which files it leaves and which of them are unsynced; a crash during start-up changes nothing |
| Store.Adopt | src/store.cpp:101-131 | the file names alone give back the tables, newest first, and the next free number; temporary files are removed |
| Store.ReplayLog | src/wal.cpp:298-348 | replay rebuilds the memtable from the decodable prefix of the log and cuts the rest |
| Store.OpenLog | src/wal.cpp:203-217 | the log is opened as it is, or created empty with its bytes and its name unsynced |
| Store.Store.Lookup | src/store.cpp:140-179 | the layered walk answers what the plain map answers, at any time from the last command on |
| Store.Store.LookupIn | src/store.cpp:140-179 | memtable, then tables newest first, stopping at the first layer with a row, is a read of any map the layers agree with |
| Store.Store.Set | src/store.cpp:214-226 | the map gets the value and stamp; every disk on the way recovers with or without the record |
| Store.Store.Del | src/store.cpp:228-247 | the key leaves the map, the result says whether it was visible, every disk on the way recovers |
| Store.Store.DelMany | src/store.cpp:249-273 | all keys leave the map; the count is of distinct visible keys; a crash keeps a prefix of the deletions |
| Store.Store.DelFromMemory | src/store.cpp:263-270 | the tombstones of a logged batch reach the memtable and each key is counted once |
| Store.Store.Expire | src/store.cpp:199-212 | a visible key keeps its value and gets the new stamp; any other key is left alone and nothing is logged |
| Store.Store.SweepExpired | src/store.cpp:293-303 | sweeping changes no read and no file, and turns exactly one window of expired rows into tombstones |
| Store.Store.LogOne | src/wal.cpp:219-232 | after the append the record is in the log and not yet in the memtable, and any torn prefix of the write recovers to the map before it |
| Store.Store.LogMany | src/wal.cpp:234-252 | the same for a batch: a torn write recovers to the map with a prefix of the batch |
| Store.Store.MaybeFlush | src/store.cpp:431-435 | below the limit nothing happens; at it the memtable is empty afterwards or a table write has failed; the map is unchanged and every disk recovers to it |
| Store.Store.Flush | src/store.cpp:437-496 | a flush is invisible, every intermediate disk recovers to the same map, and on success the memtable is empty |
| Store.Store.WriteMemtable | src/store.cpp:442-469 | the temporary file, when complete, is the table of the memtable's rows and is synced; nothing else is touched |
| Store.Store.Publish | src/store.cpp:471-495 | rename, directory sync, log truncation, in that order, keep the map through every disk between them |
| Store.Store.SwapIn | src/store.cpp:471-489 | exactly the disks seen between rename and truncation, and that nothing unsynced is left behind |
| Store.Store.MaybeCompact | src/store.cpp:305-399 | the map is unchanged; the run is the walk's choice, and is merged unless a table write fails; dead rows are dropped exactly when it reaches the oldest table; the list shrinks; a disk is exposed only in such a merge, holds exactly the cut list of tables, and recovers to the map if and only if no dropped key is alive in what is left |
| Store.Store.MergeRun | src/store.cpp:346-398 | merging a run gives the same, with the number of tables that went away |
| Store.Store.WriteRun | src/store.cpp:346-365 | the merged table in the temporary file is the merge of the run's rows, and no disk up to here has changed for a restart |
| Store.Store.SwapRun | src/store.cpp:367-386 | rename over the newest input before any unlink: every disk recovers, or is exposed, holds the cut list and has its exact condition |
| Store.Store.UnlinkInputs | src/store.cpp:381-386 | the older inputs go one by one through exactly the intermediate table lists |
| Store.Store.FinishRun | src/store.cpp:388-398 | the merged table takes the run's place, or none if it is empty, and the store is valid again |
| Store.Store.TableSizes | src/store.cpp:309-311 | the sizes the tier walk looks at are the sizes of the files |
| Store.Store.FlushAll | src/store.cpp:401-429 | afterwards the map is empty, no table is left, numbering starts over and nothing the process wrote is unsynced; the disks on the way hold the log and the oldest tables |
| Store.Store.ClearDisk | src/store.cpp:401-425 | all tables are unlinked and the directory synced before the log is cut |
| Store.Store.UnlinkAll | src/store.cpp:405-414 | the tables go newest first, and the directory ends with no table file |
| Engine.ConsistentRecovers | src/store.cpp:101-131 | a consistent engine's disk recovers to its map |
| Engine.LoggedConsistent | src/store.cpp:214-226 | a record that is in the log and not yet in the memtable leaves a consistent engine once it is applied |
| Engine.LogWriteSafe | src/wal.cpp:219-252 | every disk during an append recovers to the map with a prefix of the batch |
| Engine.FlushedConsistent | src/store.cpp:471-495 | after rename, truncation and clear the engine is consistent with the same map |
| Engine.FlushStates | src/store.cpp:471-489 | the disk after the rename and the disk after the truncation both recover to the same map |
| Engine.MidMergeSafe | src/store.cpp:367-386 | with obsolete rows kept, every disk between rename and last unlink recovers to the map |
| Engine.MidDropExact | src/store.cpp:367-386 | with obsolete rows dropped, such a disk recovers to the map exactly when no dropped key is alive in a remaining input |
| Engine.MergedConsistent | src/store.cpp:388-398 | the list with the run replaced by its merge, under the newest input's number, is strictly descending, below the next number, and consistent with the same map |
| Engine.EmptyMergeConsistent | src/store.cpp:388-395 | an empty merge can be unlinked as well |
| Engine.SweptConsistent | src/store.cpp:293-303 | a swept memtable is consistent with the same map at every later time |
| Engine.EmptiedConsistent | src/store.cpp:401-429 | an empty directory and an empty log are consistent with the empty map |
| DiskSteps.HoldsUnique | src/store.cpp:110-130 | a directory holds at most one list of tables, so the order is determined by the file names |
| DiskSteps.MidMergeAgrees | src/store.cpp:367-386 | with obsolete rows kept, the tables of any intermediate disk answer every key as before |
| DiskSteps.EndMergeAgrees | src/store.cpp:348-391 | after the last unlink they do whether or not obsolete rows were dropped |
| DiskSteps.MidMergeOrder | src/store.cpp:348-391 | every intermediate list is strictly descending in sequence number |
| DiskSteps.CrashInsideDropMerge | src/store.cpp:367-386 | a restart inside a dropping merge is right if and only if no dropped key is alive in an input that is left |
| DiskSteps.TableFileUnique | src/sstable.cpp:138-174 | no file is the table of two different row lists |
| DiskSteps.FlushRenamed | src/store.cpp:471-482 | with the flushed rows on disk twice, in the new table and in the log, every key reads as before, and also once the log is gone |
| StoreModel.AgreesPut | src/memtable.cpp:52-80 | a record written into the topmost table does to every read what it does to the plain map |
| StoreModel.AgreesLater | src/store.cpp:140-179 | agreement with the plain map lasts as time goes on |
| StoreModel.LogWriteCrash | src/wal.cpp:219-252 | a log followed by any prefix of a batch's bytes replays to the log and a prefix of the batch |
| StoreModel.RecoversExcept | src/store.cpp:119-123 | what a restart finds does not depend on files that are neither tables nor the log |
| StoreModel.HeldRecovers | src/store.cpp:101-131 | a directory of whole tables recovers to the map they and the log read as |
| StoreModel.NothingRecovers | src/store.cpp:101-131 | before the first start, an empty directory stands for the empty map |
| StoreRecovery.ListSequences | src/store.cpp:110-125 | exactly the sequence numbers in the directory, in strictly descending order |
| StoreRecovery.ListedIsOrder | src/store.cpp:110-125 | that list is the list of the tables the directory holds |
| StoreRecovery.OpenAll | src/store.cpp:126-130 | every listed file opens as the table it was written from |
| StoreRecovery.ApplyRecords | src/store.cpp:275-291 | applying replayed records in order leaves the memtable of those records |
| MergeLaws.MergeShadows | src/store.cpp:367-374 | a merge that keeps obsolete rows answers for its inputs, whichever subset of them is still there |
| MergeLaws.DropMergeInvisible | src/compaction.cpp:62-80 | dropping dead rows under the oldest table changes no visible answer |
| MergeLaws.DropMergeLeftovers | src/store.cpp:367-386 | with inputs left over, answers are the same if and only if nothing dropped is alive in them |
| MergeLaws.LeftoversRead | src/store.cpp:367-386 | with inputs left over, a dropped key nothing newer answers is read from them and every other key as before |
| MergeLaws.DeletedKeyResurfaces | src/compaction.cpp:62-80 | a key written and then deleted, whose merge comes out empty and whose values the other inputs still hold |
| Compaction.Compact | src/compaction.cpp:31-95 | the output is strictly ascending and answers every key as the first input that has it, without the dead ones if they are dropped; written plus dropped is the number of rows read |
| Compaction.MergeAll | src/compaction.cpp:54-90 | the heap loop ends with the merge of its inputs, or stops at an input that failed |
| Compaction.Top | src/compaction.cpp:22-27 | the head on top of the heap is the least key, from the newest input among equals |
| Compaction.TopIsNext | src/compaction.cpp:22-57 | the top of the heap is the smallest row not yet taken |
| Compaction.NextIsFirstHit | src/compaction.cpp:59-80 | the first row taken for a key is the first hit of that key, newest input first |
| Compaction.MergeStep | src/compaction.cpp:54-90 | taking the next row, written or skipped, extends the merge of everything below it |
| Compaction.TakenAll | src/compaction.cpp:31-95 | a merge that has taken every row is the merge |
| Compaction.TakenEnds | src/compaction.cpp:31-95 | the rows taken at the end are all the rows there are |
| Compaction.Emit | src/compaction.cpp:62-80 | a row is written unless its key was already written or dropped, or it is dead and obsolete rows go |
| Compaction.AdvanceInput | src/compaction.cpp:82-89 | the input's next row takes its place in the heap, or the input leaves it |
| Compaction.OpenCursors | src/compaction.cpp:36-48 | the heap starts with the first row of every input that has one |
| TierWalk.Choose | src/store.cpp:324-344 | the two loops end, with the greedy oldest-first choice |
| TierWalk.ChoiceIsTier | src/store.cpp:324-344 | a chosen run is in bounds, contiguous, at least four long and cannot be extended |
| TierWalk.ChoiceIsFirst | src/store.cpp:324-344 | everything older than the choice was cut into tiers shorter than four or empty files; when nothing is chosen, everything was |
| TierWalk.TierIsUnique | src/store.cpp:326-336 | a tier is determined by its oldest member |
| TierWalk.RunPassedOver | src/store.cpp:326-343 | sizes for which four tables that form a run are not chosen |
| TierWalk.RunMembers | src/store.cpp:326-336 | no member is empty and each is within a factor of two of the smallest member older than itself |
| TierWalk.PairwiseExactly | src/store.cpp:329-336 | the members of a run are within a factor of two of each other exactly when none was less than half the largest when it joined |
| TierWalk.ChosenRunNeedNotBePairwise | src/store.cpp:326-336 | sizes for which the chosen run is not |
| FileNames.SequenceOfTableName | src/store.cpp:23-35 | the number comes back from the name it was printed into |
| FileNames.TableNamesDiffer | src/store.cpp:133-138 | different numbers have different names |
| FileNames.OtherNames | src/store.cpp:23-35 | the log and the temporary files are not taken for tables |
| Memtable.MemTable.Find | src/memtable.cpp:47-50 | the row with that key, if there is one |
| Memtable.MemTable.Set | src/memtable.cpp:52-80 | the rows with that row put in, counters kept exact |
| Memtable.MemTable.Del | src/memtable.cpp:82-116 | the rows with a bare tombstone put in, and whether the key was live |
| Memtable.MemTable.SweepExpired | src/memtable.cpp:123-160 | one slice of the sweep, its cursor and its count |
| Memtable.MemTable.Clear | src/memtable.cpp:162-167 | empty in every field |
| Memtable.SweepInvisible | src/memtable.cpp:123-160 | no read at or after the sweep's time changes |
| Memtable.EverythingIsSwept | src/memtable.cpp:123-160 | with n rows and budget b, 2*ceil(n/b) sweeps turn every row expired at the first of them into a tombstone |
| Memtable.ReachedAhead | src/memtable.cpp:129-154 | a row ahead of the cursor is reached before the cursor wraps |
| Memtable.ReachedAfterWrap | src/memtable.cpp:129-158 | a row behind it is reached after the wrap |
| Memtable.CountsReplace | src/memtable.cpp:34-43 | replacing a row changes cost and live count by the difference |
| Memtable.CountsInsert | src/memtable.cpp:34-43 | inserting a row changes them by the row's |
| SstableWriter.Writer.Add | src/sstable.cpp:101-136 | the row is appended, and the index gets an entry when an interval is full |
| SstableWriter.Writer.Finish | src/sstable.cpp:138-174 | the file is data, index, filter and footer of exactly the rows added, and is synced |
| SstableFormat.ParseEncoded | src/sstable.cpp:101-136 | an encoded row parses back, a tombstone without value and stamp |
| SstableFormat.DataSlice | src/sstable.cpp:101-136 | the bytes between two row offsets are those rows |
| SstableFormat.IndexShape | src/sstable.cpp:101-136 | index entries carry the key and offset of the row they point at, starting with row 0, in order |
| SstableFormat.BlocksAreShort | src/sstable.cpp:119-133 | every block without its last row is under 4096 bytes |
| SstableFormat.IndexIsSparse | src/sstable.cpp:119-133 | there is at most one index entry per 4096 bytes and one |
| SstableReader.Open | src/sstable.cpp:176-246 | the loops over index and footer compute the parse of the file, error cases included |
| SstableReader.ReadIndex | src/sstable.cpp:219-240 | the index loop computes the parse of the index block |
| SstableReader.OpenWritten | src/sstable.cpp:176-246 | a written file opens, and as the table it was written from |
| SstableReader.OpenedIsLaidOut | src/sstable.cpp:176-246 | a file that opens is data, the encoding of the index found, a filter and a footer with their places and a known mark |
| SstableReader.Get | src/sstable.cpp:309-373 | filter, index and one block answer what a linear search of the written rows answers |
| SstableReader.ScanBlock | src/sstable.cpp:338-372 | scanning an encoded block finds the row or stops at the first larger key |
| SstableReader.UpperBound | src/sstable.cpp:317-324 | the first index entry above the key |
| SstableReader.OnlyInBlock | src/sstable.cpp:317-329 | a key can only be in the block before the first larger index key |
| SstableReader.BlockBytes | src/sstable.cpp:326-336 | the bytes between two index entries are the rows of that block |
| SstableCursor.Enumerate | src/sstable.cpp:255-307 | the cursor delivers exactly the written rows in order and does not fail |
| SstableCursor.Cursor.Ensure | src/sstable.cpp:259-277 | the buffer is a window of the data block that covers what was asked for, and never reaches past the block |
| SstableCursor.Cursor.Load | src/sstable.cpp:279-305 | the row at the cursor's position, or the end |
| SstableCursor.Cursor.Next | src/sstable.cpp:307 | the cursor moves to the next row |
| Bloom.Build | src/bloom.cpp:87-107 | the nested loops set exactly the probe bits of every key |
| Bloom.Query | src/bloom.cpp:109-130 | the probing loop is the conjunction of the probe bits |
| Bloom.BlockDescribesItself | src/bloom.cpp:80-130 | the reader recovers bit count and probe count from the block |
| Bloom.BlockExact | src/bloom.cpp:87-107 | a bit is set exactly when it is a probe of a key of the list |
| Bloom.PassesExactly | src/bloom.cpp:87-130 | a key passes exactly when each of its probes is a probe of some key of the list |
| Bloom.PositionIsStrides | src/bloom.cpp:54-101 | the i-th probe is i strides past the first, modulo 2^32 |
| Bloom.NoFalseNegatives | src/bloom.cpp:54-130 | every member of every key list passes, for any bits per key |
| Bloom.EmptyDeniesAll | src/bloom.cpp:80-130 | the block of an empty list rejects every key |
| Crc32.MakeTable | src/wal.cpp:13-23 | entry i is eight bitwise steps of the polynomial 0xEDB88320 |
| Crc32.Checksum | src/wal.cpp:106-114 | the table-driven loop is the bit-by-bit CRC-32 |
| Crc32Polynomial.CrcExactly | src/wal.cpp:13-114 | a number is the checksum of a message if and only if, complemented and bit-reversed, it is the remainder of the bit-reversed, ones-initialised message by x^32+x^26+x^23+x^22+x^16+x^12+x^11+x^10+x^8+x^7+x^5+x^4+x^2+x+1 |
| Crc32Polynomial.RemainderUnique | src/wal.cpp:106-114 | a polynomial has one remainder |
| Crc32Polynomial.AbsorbDivides | src/wal.cpp:106-114 | absorbing a message divides it |
| Crc32Polynomial.StepMultiplies | src/wal.cpp:13-23 | a bit step multiplies by x modulo the generator |
| Crc32Words.CrcInWords | src/wal.cpp:13-114 | the checksum of any message is what shifts and exclusive ors of 32-bit words with 0xEDB88320 and 0xFFFFFFFF make of it |
| Crc32Words.StepAgrees | src/wal.cpp:13-23 | the program's word step is the register's bit step |
| Crc32Words.PolynomialNumber | src/wal.cpp:18 | the register's polynomial is 0xEDB88320 |
| Crc32Words.NineCheck | tests/test_wal.cpp:77-86 | the checksum of "123456789" is 0xCBF43926 |
| Crc32Words.LetterCheck | tests/test_wal.cpp:77-86 | the checksum of "a" is 0xE8B7BE43 |
| Crc32Words.EmptyCheck | tests/test_wal.cpp:77-86 | the checksum of nothing is 0 |
| Crc32.TableStep | src/wal.cpp:106-114 | one table step is the byte's eight bit steps |
| Crc32.BitStepInjective | src/wal.cpp:13-23 | a bit step loses nothing |
| Crc32.OneByteChangesCrc | src/wal.cpp:106-114 | changing one byte changes the checksum |
| WalCodec.EncodeInto | src/wal.cpp:116-145 | appending and patching the checksum in place gives the encoding |
| WalCodec.DecodeEncode | src/wal.cpp:116-201 | a record decodes to what it means, whatever follows it |
| WalCodec.DecodedIsEncoded | src/wal.cpp:116-201 | bytes that decode are the encoding of what they decode to, save a zero expiry spelled out |
| WalCodec.TornIncomplete | src/wal.cpp:147-201 | a proper prefix of a record is Incomplete |
| WalCodec.DecodeLocal | src/wal.cpp:147-201 | bytes past a record's end play no part |
| WalCodec.OneByteDamageIsCorrupt | src/wal.cpp:147-201 | one changed byte of checksum, timestamp, expiry, key or value is Corrupt |
| WalCodec.Replay | src/wal.cpp:298-348 | the replay loop applies the records of the decodable prefix in order and reports its length |
| WalCodec.ScanEncoded | src/wal.cpp:298-348 | a log of records replays to those records, followed by whatever follows |
| WalCodec.ScanTorn | src/wal.cpp:298-348 | a log with a torn last record replays to the others and cuts exactly the tail |
| WalCodec.ScanAfterCut | src/wal.cpp:298-348 | a batch cut anywhere replays to the whole records before the cut |
| WalCodec.ScanIdempotent | src/wal.cpp:298-348 | for arbitrary bytes, replaying the cut file gives the same records and cuts nothing |
| WalFile.Wal.Append | src/wal.cpp:219-232 | the file grows by the encoding, through its prefixes, and the unsynced count follows |
| WalFile.Wal.AppendBatch | src/wal.cpp:234-252 | the same for a batch, in one write, synced under the strict policy without group commit |
| WalFile.Wal.Sync | src/wal.cpp:254-269 | nothing in the log is unsynced |
| WalFile.Wal.Truncate | src/wal.cpp:271-281 | the log is empty and synced |
| WalFile.Wal.NeedsSync | src/wal.h:220 | true exactly when bytes were appended since the last sync; when false, nothing this process wrote is unsynced |
| WalFile.Wal.MaybeSync | src/wal.cpp:283-296 | under the once-a-second policy, when due, bytes not yet synced are; nothing ever becomes less synced |
| FileSystem.Directory.Append | src/wal.cpp:75-88 | the file passes through every prefix of the write |
| FileSystem.Directory.TryAppend | src/sstable.cpp:45-58 | a write that may stop short says so |
| FileSystem.Directory.Rename | src/store.cpp:471-476 | one step, old name gone and new name there, both unsynced |
| FileSystem.Directory.FsyncDir | src/store.cpp:52-67 | every name is synced |
| Server.Serve | src/server.cpp:110-195 | every run of the loop, from bytes to bytes: the commands in each client's reads and the housekeeping are executed in order; each reply is the rendering of a result that is right by the steps and results before it; every turn executes all its reads, then writes to each client in event order as much of what it is owed as the socket takes, then sweeps and merges; what was sent and what is pending are the replies; at every write to a socket the directory's own trace ends in a disk that recovers to the map after all that was done by then, with nothing the process wrote unsynced, and a power cut there recovers to that map unless it takes what was unsynced before and is untouched |
| Server.Loop.Turn | src/server.cpp:122-195 | all reads of the turn are executed before any reply leaves; each event then adds the smaller of what the socket accepts and what is pending to what its client was sent, and nobody else gets anything; when the sockets take it all everybody served is caught up; a sweep of a hundred rows and a merge follow |
| Server.Loop.Service | src/server.cpp:253-275 | the commands in the bytes read and those held over are executed in order, the rest is held, replies queue behind what is pending, and an overrun or an error queues its reason and ends the reading; nothing is sent |
| Server.Loop.Execute | src/command.cpp:457-484 | the step the command stands for is taken and the reply to what the map says is queued |
| Server.Loop.Release | src/server.cpp:277-295 | the client is sent the smaller of what its socket accepts and what it is owed and not sent, nobody else anything; it is written at the present end of the directory's trace and acknowledged with the store as it is, and only once nothing the process logged is unsynced |
| Server.Loop.SyncLog | src/server.cpp:151-167 | the log is synced and nothing else changes |
| Server.Loop.Housekeeping | src/server.cpp:171-194 | a window of a hundred rows is swept and the run the tier walk chooses is merged, or a table write has failed; the map, the connections and the acknowledgements stay |
| Delivery.AllDelivered | src/server.cpp:169 | when the sockets of a turn take all that is owed, everybody it served has been sent everything |
| Delivery.ReleasedDelivers | src/server.cpp:277-295 | a release adds what the socket takes of what is owed |
| Delivery.RoundCaughtUp | src/server.cpp:122-195 | the same in every turn of a run |
| Traffic.TruthfulCarries | src/command.cpp:457-484 | the replies of a log answered from the map carry results that are right by the steps and results before them |
| Server.SyncedIsDurable | src/server.cpp:143-169 | with the log synced, or still the bytes it was opened with, the end of the trace is durable: whatever is unsynced was so before and is untouched, and no name is once the directory has been synced |
| Server.LedgerSend | src/server.cpp:277-295 | one more write of owed bytes at a durable point keeps every earlier acknowledgement and adds one for the map after all that was done |
| Server.PowerLossHarmless | src/store.cpp:40-67 | a power cut that takes nothing a restart looks at is no worse than a crash |
| AtRisk.StartLeaves | src/wal.cpp:203-217 | a start on a settled directory leaves the log unsynced if it was torn or missing, its name if it was missing, and nothing else |
| AtRisk.SafeFromThenOn | src/server.cpp:143-169 | once the loop has logged anything, and synced the directory if the log was new, every acknowledgement survives losing power |
| AtRisk.FreshLogEntry | src/wal.cpp:203-217 | until the first directory sync, an acknowledged write in a log that had to be created survives a power cut if and only if the log's directory entry is synced, and the disk on which it does not |
| AtRisk.FirstWriteAtRisk | src/wal.cpp:203-217 | a loop on a new directory executes one set, syncs the log and sends the reply; at that write the log's name is unsynced and a power cut can leave a disk that does not recover to the acknowledged map |
| Streams.EachStreamHeard | src/connection.cpp:5-47 | through any turns of the loop a client's commands, parser, leftover bytes and fate are those of its own reads one after the other |
| Streams.StreamIsDrained | src/connection.cpp:5-47 | when no read overruns the buffer and no line is too long, the commands executed for a client are those in its bytes, wherever they were cut |
| RespLimits.DrainBounded | src/resp.cpp:84-205 | no argument the parser hands out is too long for the store's 32-bit length fields |
| Traffic.TidyReleased | src/server.cpp:277-295 | a write moves bytes from pending to sent, so that the two still make up the replies |
| Traffic.MapAfterIsAfterAll | src/server.cpp:122-195 | the map the loop's log amounts to is the plain map after its steps |
| Resp.StepProgress | src/resp.cpp:70-216 | every turn absorbs a byte or moves on, and no command is empty |
| Resp.DrainByParse | src/connection.cpp:17-41 | reading a buffer turn by turn is calling parse until it has no further command |
| RespParser.RespParser.Parse | src/resp.cpp:70-216 | the loop over the switch ends and computes the turns of the machine |
| RespParser.RespParser.TakeTurn | src/resp.cpp:80-214 | one case of the switch is one turn |
| RespParser.RespParser.Reset | src/resp.cpp:62-68 | a failed parser stays failed, any other is fresh |
| RespParser.SplitInline | src/resp.cpp:196-203 | the two inner loops deliver the words of the line |
| RespChunking.ChunkingExact | src/resp.cpp:70-216 | all ways of cutting a stream give the same commands, error, state and byte count as the whole, if and only if every line fits; and then one byte at a time does |
| RespChunking.Cut | src/resp.cpp:70-216 | one cut changes nothing if every line fits |
| RespChunking.FedIsDrained | src/resp.cpp:70-216 | nor do any number of cuts, from any state |
| RespChunking.LongLineShows | src/resp.cpp:100-104 | a line that does not fit is refused in pieces and read whole |
| RespChunking.LongLineHappens | src/resp.cpp:181-189 | a stream that is one command read whole and refused a byte at a time |
| RespRoundTrip.RequestRoundTrip | src/resp.cpp:239-253 | header and bulk strings, followed by anything, parse to exactly those arguments and exactly those bytes |
| RespRoundTrip.RequestsSelfDelimiting | src/resp.cpp:239-253 | two requests followed by anything that give the same bytes are the same request followed by the same |
| RespRoundTrip.BulksSelfDelimiting | src/resp.cpp:239-245 | a bulk string carries any bytes without being mistaken for another |
| RespRoundTrip.InlineRoundTrip | src/resp.cpp:181-213 | words typed on a line come back as arguments, with LF or CR LF |
| RespRoundTrip.NonPositiveCountSkipped | src/resp.cpp:105-116 | a count that is not positive is skipped |
| RespRoundTrip.BlankLineSkipped | src/resp.cpp:181-213 | a line of spaces and tabs, with or without a carriage return, is skipped |
| RespRoundTrip.InlineDrained | src/resp.cpp:181-213 | any whole line that does not begin with the star is one command of its words, or nothing |
| RespRoundTrip.WholeLineNotRefused | src/resp.cpp:181-213 | an inline line whose newline has arrived is never refused |
| RespRoundTrip.UnterminatedRefused | src/resp.cpp:95-190 | a line whose end is missing is waited for up to 65536 bytes and then refused |
| RespRoundTrip.WordsLaid | src/resp.cpp:196-203 | words set apart by any spaces and tabs are the words |
| RespRoundTrip.EveryLineIsLaid | src/resp.cpp:196-203 | every line is laid out like that, and its words are those |
| RespRoundTrip.CountRefused | src/resp.cpp:96-122 | a count line is refused exactly when it is not a 64-bit number or exceeds the limit |
| RespRoundTrip.LengthRefused | src/resp.cpp:124-146 | a length line is refused exactly when the dollar is missing or the number is negative, too large or none |
| RespRoundTrip.PayloadRefused | src/resp.cpp:162-179 | a payload is refused exactly when CR LF does not follow it |
| RespRoundTrip.ReplyPrefixIsInline | src/resp.cpp:84-94 | any line that begins with a reply prefix is an inline command, all of its words come back, and the prefix begins the first |
| Connection.Connection.OnBytes | src/connection.cpp:5-47 | the commands in the buffer are executed in order, replies queued in order, the rest kept; the three ways a connection ends |
| Connection.Connection.ExecuteBuffered | src/connection.cpp:17-41 | the parse-and-execute loop executes exactly the commands of the buffer |
| Connection.Receive | src/connection.cpp:5-47 | a whole stream, read by read, executes what the stream amounts to however it was cut, if every line fits |
| Connection.Connection.ConsumeOutput | src/connection.cpp:53-62 | what was sent and what is pending is always everything that was queued, and the connection may be closed exactly when its error has all been sent |
| Int64Text.ParseInt64 | src/command.cpp:76-99 | the digit loop accepts exactly the canonical spellings and returns their number |
| Int64Text.CanonicalExact | src/command.cpp:76-99 | a text is read as n exactly when n is within 2^63-1 of zero and the text is n's spelling |
| Commands.Incr | src/command.cpp:269-302 | a reply n means the key now reads as n under the stamp it had, and read as n - 1 before, or nothing and n is 1; overflow is reported exactly at the largest number, and a value that spells no number in range exactly as such; refusals change nothing, and no other key moves |
| Commands.IncrementTellsTruth | src/command.cpp:269-302 | the same on the plain map |
| Commands.IncrementsAdd | src/command.cpp:269-302 | m INCRs add exactly m, stop at the largest number, keep the stamp and touch no other key |
| Commands.IncrTimes | src/command.cpp:269-302 | the same for m INCRs executed on a store: the replies count up by one each and then report overflow |
| Formats.LittleEndian | src/wal.cpp:37-48 | numbers go least significant byte first, negative ones in two's complement |
| Formats.SetRecord | src/wal.cpp:116-147 | the bytes of a set in the log |
| Formats.ExpiringRecord | src/wal.cpp:116-147 | the bytes of a set with an expiry |
| Formats.DeleteRecord | src/wal.cpp:116-147 | the bytes of a delete |
| Formats.OneRowFile | src/sstable.cpp:95-175 | the bytes of a table of one row |
| Formats.FilterSizes | src/bloom.cpp:73-85 | probes and bits of a filter |
| Formats.Names | src/store.cpp:133-138 | the names of tables |
| Commands.DeadlineFrom | src/command.cpp:106-118 | the exact deadline or a refusal, no wrap-around, never the stamp for no expiry even when the sum is zero, and the key expires from exactly the deadline on |
| Commands.ExpireIn | src/command.cpp:227-252 | the key is visible with its value until exactly the deadline, or gone at once; error cases change nothing |

## Left out

- Sockets, epoll, accepting connections, signals and shutdown.
- The command table, PING, INFO, CONFIG, COMMAND, TTL, EXISTS, GET and SET argument parsing, and command error texts: easy members.
- Failed system calls, except writes of a table under construction. A failed log append can leave partial bytes in the middle of the log.
- FLUSHALL after a flush that failed past its rename, whose file is not in the list of open tables.
- Damaged tables: the format has no checksum.
- Damage to the op byte or the two length bytes of a log record: detecting it is only probable.
- False-positive rates and hash quality of the bloom filter; its probe count is computed over reals instead of floating point.
- Running out of 64-bit sequence numbers, which is a precondition or, in `StoreRun.Live`, the one way to stop early.
- Two directory entries that parse to the same sequence number, such as a name padded by hand: the model assumes names the program printed.
- Running without a log or without a directory, and how often each sync policy syncs.
- Memory: string reserve sizes, borrowed against owned values, real allocation.
- Connection.Receive: assumes no read overruns the 512 MB buffer; the overrun itself is covered by `Connection.OnBytes`.
- Connection.Dispatcher.Execute: any reply at all, because the command table is not modelled.
- Server.Loop.Execute: the command table is a parameter that makes one step and one reply of a command; an EXISTS of several keys would be several look-ups, and the table's own rows are not modelled.
- Server.Loop.Service: reads the commands off the buffer at once, not one by one; `Connection.ExecuteBuffered` shows that the two agree.
- Server.Serve: a power cut may leave an unsynced file or name as anything at all, which is more than a file system would do, and a connection that has ended keeps its number.
- Commands.DeadlineFrom: assumes a clock not before 1970 and a product that fits 64 bits, because the program's own subtraction and multiplication would overflow.
- WalFile.Wal.MaybeSync: the interval is a parameter, not a clock.
- Bloom.BlockExact: the hash itself is pinned by nothing but its definition; any hash would do for the promises made.
