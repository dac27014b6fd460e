# Verification of the gallery server's write path

Dafny models of the parts of the sfpg-go server whose contracts tests cannot settle,
with proofs of what they promise. `dafny verify dfyconfig.toml` checks the whole project.

| part | modules | form |
|---|---|---|
| durable segmented queue | `Bytes`, `SegmentLog`, `QueueDisk`, `SegmentFile`, `DurableQueue`, `QueueRuns` | classes over a directory of byte strings |
| write batcher | `WriteBatcher`, `BatchOrder`, `BatchProgress` | step machine |
| folder-index rebuild on the batcher | `FolderIndex`, `FolderIndexRuns`, `FolderIndexDrain`, `FolderIndexProtocol` | step machine, and a class for the code of one goroutine |
| ring-buffer deque | `RingBuffer` | class over an array |
| path-chain importer and tiles | `GalleryTables`, `FolderTiles`, `Importer`, `GalleryRuns` | class over database tables |
| table rotation | `SqlText`, `IndexNames`, `TableSwap`, `RotationRuns` | class over a schema, functions over text |
| connection pool | `ConnectionPool`, `PoolRuns` | step machine |
| suffix lists of the directory walk | `SuffixMatch` | functions over syntax trees, methods for the matchers |
| HTTP cache keys | `CacheKey` | functions over byte strings |
| HTTP cache size and eviction | `CacheSize`, `CacheCounter` | class, and a step machine |

## What is modelled

**Durable queue.** The file system is a map from segment number to bytes. Each method of
`SegmentFile.Directory` is one file-system step and records the directory it leaves, so a
stop between any two steps is an element of its trace. The object encoding is abstract: it
decodes to what was encoded and is not empty, and `SegmentLog.UnaryCodec` is one for an
infinite item type. Adding accepts an encoding of any size and writes its length modulo
2^32; loading rejects one above 64 MB, the `limit` of a codec. What a directory holds is what
its records say, whether or not loading can read them. `ItemsPerSegment` is the same at every
open, there is one opener, and file-system calls do not fail.

**Write batcher.** Every Submit, the worker and Close are interleaved at their atomic
operations and lock regions; between finding the channel full and storing an item on disk
the worker may drain the channel and the context may be cancelled. The byte limit of a
batch, the disk quota, errors of the disk queue and the outcome of a flush are free choices
of the environment. The disk queue is the sequence that `DurableQueue` refines. `BatchOrder`
records beside a run what came in, what the worker took and which batches it flushed, each in
its order.

**Folder-index rebuild.** The batcher's steps are refined by the loads and stores of the
active flag, the generation and the in-flight counter. One rebuild runs at a time, and
generations are unique. `FolderIndexProtocol.Protocol` has the same operations as the code
runs them on one goroutine, loops included. Several submitters may announce rows at once,
which is more than the code does.

**Deque.** The bit mask is computed bit by bit on naturals and proved to be the remainder.

**Importer.** SQLite is a set of tables with their unique indexes, and identifiers are one
more than the largest. The path given to an import is already cleaned. Times, sizes and
hashes are one opaque column.

**Table rotation.** A schema keeps, for each table and index, the tokens of its CREATE
statement around its names. A call may have any one of its statements refused by the
database, which rolls the transaction back.

**Pool.** Any number of threads run Get, Put, the monitor and Close until Close closes the
channel. Whether a ping succeeds, whether a connection can be opened, when one is recycled and
when a context ends are free choices. `PoolRuns` is about calls during which no other thread
moves, and says exactly which pools they can leave.

**Suffix lists.** A pattern is its parsed tree. Case folding is that of ASCII letters, so
names and patterns are ASCII.

**Cache.** Keys are byte strings. Rows of the cache table are kept by identifier with the
length of their body and their time of creation. Rotations of the table may overlap.

## Where the code and its promises differ

* Opening a queue takes the smallest segment number starting from 2147483647
  (internal/dque/queue.go:604). A queue whose smallest number is larger does not open:
  `QueueDisk.OpenHolding`, `QueueRuns.CrashRecovery`.
* `add` writes an object of any size (internal/dque/segment.go:210-242), and `load` rejects
  one above 64 MB (129-135). `SegmentLog.LoadsExactly` and `SegmentLog.PrefixesExactly` hold
  exactly when no added item exceeds it. The queue goes on in memory, but a segment that was
  given such an item can never be read again (`QueueDisk.ReadableAppend`): the queue reopens
  if and only if the segments that opening reads have none (`QueueDisk.OpenHolding`), and a
  pop that has to read one returns its item, after which the queue says that it is empty
  although it is not (`DurableQueue.DQue.Dequeue`).
* The rebuild sets the active flag before it bumps the generation
  (internal/server/files/folder_index.go:73-74). A flush between the two inserts rows of the
  generation before. `FolderIndexRuns.StaleRowGoesLive` is a run in which such a row of an
  aborted rebuild reaches the live table. `FolderIndexRuns.CleanSwap` shows that none does
  when nothing old was held, announced or about to be inserted at the clone, and
  `FolderIndexDrain.OldRowsGoLive` that this is needed: while the worker runs, a rebuild can
  swap in a table with every old row, wherever in the batcher it was.
* The in-flight counter is never reset. Once an announced row was given up by a failed
  re-enqueue, or its generation was over while it was still in the batcher, the counter stays
  above zero and no later rebuild in the process passes its wait: `FolderIndexRuns.StuckForever`,
  `FolderIndexRuns.LateRow`. `FolderIndexDrain.CompletesExactly` shows that while the worker
  runs a rebuild can complete if and only if there is no such row.
* Resetting the cache counters after a rotation (internal/server/infrastructure_cache.go:96-101)
  is a second step. `CacheCounter.ResetExact` says exactly when it keeps the counter right,
  `CacheCounter.CoveredExactly` that a run keeps it right exactly when each reset does, and
  `CacheCounter.RotationLosesBytes` and `CacheCounter.RotationOvertakesEviction` are the two
  ways in which it does not.
* An index is said to alternate between its base and the base with number 1
  (internal/tableswap/db.go:18-24). In one rotation it does so in every order of copying if
  and only if the other name is free once the destination is dropped and no other index of
  the table strips to the base or to that name: `TableSwap.GoesExactly`. An index `idx_1_3`
  that is copied first takes `idx_1` from `idx`: `TableSwap.LongerNameFirst`. In every
  sequence of rotations it alternates if and only if that name is free and every other index
  of the table with the same root is blocked: `RotationRuns.AlternatesForever`.
* A pattern with an alternative that matches the empty string is compiled to a list that
  misses names ending in a dot: `SuffixMatch.CompiledAgrees` holds exactly without one. A
  group inside the alternation is left out of the list (`SuffixMatch.NestedGroups`), which is
  then right if and only if the other alternatives denote what the group does
  (`SuffixMatch.GroupsExact`); a group inside a concatenation is right if and only if it
  denotes the empty string only (`SuffixMatch.ConcatGroupsExact`). The probes that compare the
  list with the pattern (internal/parallelwalkdir/parallelwalkdir.go:1146-1151) find names that
  are accepted wrongly, and exactly those (`SuffixMatch.ProbesExact`), but none that is missed
  (`SuffixMatch.NothingMissed`).
* The pattern with which images are found, `(?i)(?:jpe?g|gif|png)$`
  (internal/server/files/walker.go:57), asks for no dot, and the compiled list always does:
  `SuffixMatch.UndottedMisses` holds for every pattern of that form, and `SuffixMatch.ImagePattern`
  names a file that this one matches and the byte matcher does not accept.
* Submit is documented to return ErrClosed once the context was cancelled
  (internal/writebatcher/submit.go:12-13). It may still put the item into the channel
  (`BatchProgress.SubmitExactly`), and once the worker has looked there for the last time the item
  stays (`BatchProgress.LateItemStays`): the worker can deliver all it has been given if and only
  if none came so late (`BatchProgress.CanDeliver`), and only a cancelled context lets one
  (`BatchProgress.LateOnlyWhenCancelled`).
* SubmitFolderIndex is documented to give up when pending was unchanged for the stall time
  (internal/server/batcher_wiring.go:103-106). The code measures that time from the first failure,
  and then gives up at the first turn at which pending does not fall, as
  `FolderIndexProtocol.Protocol.SubmitFolderIndex` says.
* The comment on NewBoundedQueue says that a maximum below the initial capacity means
  unbounded (internal/queue/queue.go:72-73); the code keeps the bound, and so does the model.
* The comment on shrinkIfNeeded says "less than a quarter"; the code shrinks at a quarter.

## Model

| member | source | states |
|---|---|---|
| Bytes.U32RoundTrip | internal/dque/segment.go:213-216 | the length prefix read back is the length written |
| SegmentLog.ReplayAt | internal/dque/segment.go:88-159 | how the record at a position is read: marker, object, and each kind of corruption with its order of checks |
| SegmentLog.ReplayOfLog | internal/dque/segment.go:88-159 | for every history of adds and removes of items up to 64 MB, loading the bytes written gives exactly the live objects in order and the same remove count |
| SegmentLog.LoadsExactly | internal/dque/segment.go:129-135 | for every history of items of any size, the log loads as the live objects after each operation if and only if no added item exceeds 64 MB |
| SegmentLog.ReplayExactly | internal/dque/segment.go:88-159 | with encodings below 4 GB the whole log loads as the live objects if every added item fits, and otherwise is reported as too long, wherever the item stands |
| SegmentLog.OversizeRecord | internal/dque/segment.go:210-242 | the record written for an item above 64 MB never loads as that item, and below 4 GB is reported as too long |
| SegmentLog.CapAgrees | internal/dque/segment.go:128-135 | loading gives what the records of a file say, or stops at one that is too long |
| SegmentLog.ReplayOfPrefix | internal/dque/segment.go:88-159 | with items up to 64 MB, loading any byte prefix of a log gives the state after the records it holds if it ends between two records, and reports corruption if and only if it does not; never a wrong object |
| SegmentLog.PrefixesExactly | internal/dque/segment.go:88-159 | every byte prefix of a log is read so if and only if no added item exceeds 64 MB |
| SegmentLog.ReplayCutRecord | internal/dque/segment.go:96-133 | a record of an item of any size below 4 GB, cut in its length or in its body, is reported as such, or as too long |
| SegmentFile.Segment.Load | internal/dque/segment.go:88-159 | the read loop computes the replay of the file |
| SegmentFile.Segment.Remove | internal/dque/segment.go:179-207 | appends one marker and takes the head; nothing is written for an empty segment |
| SegmentFile.Segment.Add | internal/dque/segment.go:210-242 | appends length and body in two steps, with the torn file in between, for an item of any size |
| SegmentFile.Segment.Delete | internal/dque/segment.go:261-279 | removes exactly the segment's file |
| SegmentFile.Perform | internal/dque/segment.go:179-242 | after any history of adds and removes the file is its log, and loading it gives the state in memory when every item fits in 64 MB |
| SegmentFile.NewSegment | internal/dque/segment.go:363-388 | creates an empty file, and refuses an existing one |
| SegmentFile.OpenSegment | internal/dque/segment.go:391-419 | gives the replayed segment, or why it cannot be read |
| SegmentFile.Directory.SumOfSizes | internal/dque/queue.go:455-472 | the directory listing adds up all files |
| QueueDisk.ItemsLength | internal/dque/queue.go:434-440 | with full middle segments the closed form of the size is the number of items |
| QueueDisk.OpenHolding | internal/dque/queue.go:595-671 | a directory that holds a queue opens as that queue if and only if its smallest segment number fits in 31 bits and the segments that opening reads have no item above 64 MB; otherwise it fails for that number or such an item |
| QueueDisk.OpenChain | internal/dque/queue.go:595-671 | what opening makes of any chain of segments, and the directories it passes, exactly |
| QueueDisk.NothingFits | internal/dque/queue.go:598-620 | beyond that limit opening fails for a segment that was never there |
| QueueDisk.NumberTooLarge | internal/dque/queue.go:598-620 | a concrete directory that holds an empty queue and does not open |
| QueueDisk.OpenTorn | internal/dque/queue.go:595-671 | a stop between a length and its body is reported as corruption of the last segment, or as an item above 64 MB if there is one |
| QueueDisk.ReadableAppend | internal/dque/segment.go:129-135 | after an append a segment can be read if and only if it could be before and the item is at most 64 MB |
| QueueDisk.TooLongThere | internal/dque/segment.go:129-135 | opening reports an item above 64 MB only if a segment has one |
| QueueDisk.OpeningKeeps | internal/dque/queue.go:617-655 | a stop while opening leaves a directory that still holds the same queue |
| DurableQueue.DQue.Enqueue | internal/dque/queue.go:216-268 | appends one item, of any size below 4 GB; every directory on the way holds the queue before, the queue after, or is torn; refused exactly when closed; with an item above 64 MB the last segment can no longer be read |
| DurableQueue.DQue.StartSegment | internal/dque/queue.go:225-246 | rolling over to a new segment keeps the queue at every step |
| DurableQueue.DQue.AddLast | internal/dque/queue.go:248-262 | the same without the roll over, and the cached disk total follows |
| DurableQueue.DQue.Dequeue | internal/dque/queue.go:282-353 | returns the true head, empty exactly on the empty queue; every directory on the way holds the queue after; an error beside the head exactly when the next segment must be read from disk and cannot be, and after that always empty |
| DurableQueue.DQue.TakeHead | internal/dque/queue.go:287-353 | takes the head, and moves on from a drained first segment |
| DurableQueue.DQue.RemoveFirst | internal/dque/queue.go:287-306 | one marker takes the head off, and the cached total follows |
| DurableQueue.DQue.DropFirstSegment | internal/dque/queue.go:308-351 | deleting a drained first segment keeps the queue and moves to the next segment, in memory or read back, and fails exactly when that cannot be read |
| DurableQueue.DQue.Peek | internal/dque/queue.go:366-381 | the true head, empty exactly on the empty queue |
| DurableQueue.DQue.Size | internal/dque/queue.go:421-440 | the exact number of items |
| DurableQueue.DQue.DiskBytes | internal/dque/queue.go:445-472 | the cached total is what listing the directory would give |
| DurableQueue.DQue.Close | internal/dque/queue.go:177-211 | once; the directory keeps the queue |
| DurableQueue.DQue.FirstUsable | internal/dque/queue.go:617-641 | the scan deletes drained segments and stops at the first usable one or the first failure |
| DurableQueue.DQue.Load | internal/dque/queue.go:595-671 | populates the two ends as the specification of opening says, with the same directories on the way |
| DurableQueue.Open | internal/dque/queue.go:697-723 | opening a directory that holds a queue gives a valid queue with these contents |
| QueueRuns.FirstInFirstOut | internal/dque/queue.go:216-353 | over every run of operations and reopenings what went in is what came out followed by what is left |
| QueueRuns.Again | internal/dque/queue.go:697-723 | closing and opening again gives the same queue if and only if its smallest segment number fits and the segments that opening reads can be read; the directory holds it all along |
| QueueRuns.Perform | internal/dque/queue.go:216-353 | one operation: its result, the queue it leaves, and the directories it passes |
| QueueRuns.Run | internal/dque/queue.go:216-353 | every run, over any number of sessions, behaves as the plain sequence until a segment cannot be opened or read, and every directory it passes belongs to one of its operations; with items up to 64 MB only the segment number can end it early |
| QueueRuns.CrashRecovery | internal/dque/queue.go:595-671 | stop any run between any two steps and reopen: the interrupted operation is wholly done or wholly undone, or a torn record or one that is too long is reported, the latter only if there is one; if and only if the first segment number fits |
| WriteBatcher.Kept | internal/writebatcher/worker.go:9-84 | every action of every goroutine keeps conservation, exact counters and the shape of the worker's batch |
| WriteBatcher.InitialHolds | internal/writebatcher/batcher.go:265-336 | a new batcher over a recovered backlog starts with exact counters |
| WriteBatcher.Conservation | internal/writebatcher/flush.go:12-120 | in every run accepted items and the backlog are, as a multiset, exactly channel, batch, items in hand, disk queue, committed, dropped and refused |
| WriteBatcher.CommittedOnce | internal/writebatcher/flush.go:75-90 | an item that came in once is committed at most once, and then is nowhere else |
| WriteBatcher.QuietCounts | internal/writebatcher/submit.go:19-83 | with no Submit and no flush in progress pending is channel, batch and disk queue, and overflow is the disk queue less the recovered backlog |
| WriteBatcher.FlushSize | internal/writebatcher/worker.go:98-118 | every flush gets between one item and the maximum batch size, and a batch of the maximum size is always in its flush |
| WriteBatcher.ExitLeavesQueue | internal/writebatcher/worker.go:122-180 | once closed and exiting the worker leaves the disk queue untouched |
| WriteBatcher.CleanClose | internal/writebatcher/close.go:10-31 | a close without cancellation or refusal empties channel and batch, and the rest is in the disk queue |
| WriteBatcher.AcrossSessions | internal/writebatcher/batcher.go:309-327 | after any number of clean sessions the next starts with pending equal to accepted less committed and dropped |
| BatchOrder.EveryRunInOrder | internal/writebatcher/worker.go:98-118 | in every run channel and disk queue are left in the order in which they were entered; the batches flushed, then the batch, are what the worker took from the two, in that order; a failed batch is submitted again in its order; accepted, committed, dropped and refused are what that history says; no batch flushed is empty or too large, and the worker knows whether its drain dequeued anything |
| BatchOrder.FlushedAsSubmitted | internal/writebatcher/worker.go:98-118 | without overflow and failed flushes the sequence accepted is the sequence flushed, then the batch, then the channel |
| BatchProgress.SubmitExactly | internal/writebatcher/submit.go:19-83 | what a Submit during which nothing else moves can do, and its error, exactly: into the channel if that has room, else into the disk queue, else refused with nothing changed |
| BatchProgress.FlushTriggers | internal/writebatcher/worker.go:98-118 | a flush starts exactly when an item fills the batch in number or bytes, when the timer fires, at the end of a drain that dequeued something, and on exit; never of an empty batch |
| BatchProgress.CanDeliver | internal/writebatcher/worker.go:9-180 | with no Submit and no retry in progress the worker alone can commit channel, batch and the disk queue it drains, and then rests or has stopped, if and only if nothing entered the channel after its last look there |
| BatchProgress.LateOnlyWhenCancelled | internal/writebatcher/worker.go:122-180 | that happens only under a cancelled context |
| BatchProgress.LateItemStays | internal/writebatcher/submit.go:28-34 | what enters the channel of a stopped worker stays there in every run |
| BatchProgress.LifeTold | internal/writebatcher/close.go:10-31 | draining, cancelled, closed and finished are set by their events only, and for good |
| BatchProgress.DeferredDrain | internal/writebatcher/dque.go:30-43 | with a deferred drain the backlog stays in the disk queue until the drain is started |
| BatchProgress.CloseReturns | internal/writebatcher/close.go:10-31 | while nobody else moves Close can return, with channel and batch flushed |
| FolderIndex.Kept | internal/server/folder_index_protocol.go:88-210 | every step of submitters, worker and rebuild keeps the token equation of the in-flight counter and the account of every current row |
| FolderIndex.BatchWeight | internal/writebatcher/flush.go:106-120 | outside flushes the rows that the batcher holds change only by what a failed re-enqueue gives up |
| FolderIndex.InsertedFrom | internal/server/folder_index_protocol.go:182-197 | a row that a flush inserts was in the batcher under a generation that this process issued |
| FolderIndex.FlushSkips | internal/server/folder_index_protocol.go:113-122 | while the rebuild is active a flush that will skip its rows has none of the current generation |
| FolderIndex.BumpComplete | internal/server/folder_index_protocol.go:68-79 | under a fresh generation nothing is accepted, held, lost or inserted yet |
| FolderIndex.ZeroMeansNothingOld | internal/server/folder_index_protocol.go:88-104 | a counter at zero leaves no such row |
| FolderIndexRuns.InflightCovers | internal/server/folder_index_protocol.go:88-104 | in every run in-flight is at least the current rows announced, held or given up, and the saturating decrements never saturate |
| FolderIndexRuns.SwapSafe | internal/server/files/folder_index.go:164-186 | when the wait has seen zero every row accepted under the generation is in the destination, as often as it was accepted, and after the swap in the live table; none was lost |
| FolderIndexRuns.NoLateInsert | internal/server/folder_index_protocol.go:182-197 | no later flush can insert a row of a generation that is over |
| FolderIndexRuns.CleanSwap | internal/server/files/folder_index.go:62-75 | the table swapped in is exactly what was accepted if and only if no row of another generation is in it; none is when, at the clone, no row of the generation in force was held, announced or about to be inserted |
| FolderIndexRuns.FlushAloneRuns | internal/server/folder_index_protocol.go:143-200 | a flush that nothing overtakes inserts the rows of the current generation if the rebuild is active and its destination exists, and none otherwise |
| FolderIndexRuns.FlushGoesOn | internal/server/folder_index_protocol.go:143-200 | a flush can always take its next step, except that it must fail when it is to insert rows and the destination is gone |
| FolderIndexRuns.ClassifiedInactive | internal/server/folder_index_protocol.go:113-122 | the classifier leaves a flush nothing to insert exactly when the batch has no rows, or rows only and the rebuild is inactive |
| FolderIndexRuns.InactiveInsertsNothing | internal/server/folder_index_protocol.go:113-122 | a batch of rows only that was classified while the rebuild is inactive inserts nothing, whatever happens before it commits |
| FolderIndexRuns.EveryRunPhased | internal/server/files/folder_index.go:62-75 | in every run the active flag is set exactly from its activation to the end of the rebuild, and the destination exists until it is swapped in |
| FolderIndexRuns.StaleRows | internal/server/files/folder_index.go:71-75 | one flush between the active flag and the new generation leaves exactly its rows of the old one in the destination |
| FolderIndexRuns.StaleSwap | internal/server/files/folder_index.go:62-75 | from any state in which all that is counted is one batch in the hand of the worker, a rebuild can end with exactly that batch as its table: what was accepted if and only if nothing old was left at the clone |
| FolderIndexRuns.WaitExactly | internal/server/files/folder_index.go:239-262 | the wait passes exactly when nothing is announced, being undone, in the batcher, in a flush, given up or credited to no generation |
| FolderIndexRuns.LateRow | internal/server/folder_index_protocol.go:68-79 | rows of this process that are in the batcher when the generation is bumped are doomed |
| FolderIndexRuns.StuckForever | internal/server/files/folder_index.go:235-262 | once anything is doomed - a row given up, credited to no generation, or in the batcher after its generation was over - the counter stays above zero in every run and no rebuild passes its wait |
| FolderIndexRuns.StaleRowGoesLive | internal/server/files/folder_index.go:71-75 | a run in which a row of an aborted rebuild reaches the live table |
| FolderIndexDrain.Drain | internal/writebatcher/worker.go:9-84 | while the worker runs a schedule empties the batcher and the flush, keeps what is doomed, and takes every row of the current generation to the destination |
| FolderIndexDrain.CompletesExactly | internal/server/files/folder_index.go:182-201 | while the worker runs a populating rebuild can be swapped in if and only if nothing is doomed |
| FolderIndexDrain.OldRowsGoLive | internal/server/files/folder_index.go:62-75 | while the worker runs and nothing is doomed, a rebuild can swap in exactly the rows of the generation before, wherever they were: the table is what was accepted if and only if nothing old was left at the clone |
| FolderIndexProtocol.Protocol.BumpGeneration | internal/server/folder_index_protocol.go:68-79 | the clock, or one more than the last; never the last |
| FolderIndexProtocol.Protocol.SaturatingDecrement | internal/server/folder_index_protocol.go:96-104 | one less, never below zero |
| FolderIndexProtocol.Protocol.IndexOnlyAndRebuildInactive | internal/server/folder_index_protocol.go:113-123 | true exactly for a batch of index rows only while the rebuild is inactive |
| FolderIndexProtocol.Protocol.PrepareFlush | internal/server/folder_index_protocol.go:143-200 | the loops keep exactly the rows of the current generation, in order, or none |
| FolderIndexProtocol.Protocol.OnBatchSuccess | internal/server/folder_index_protocol.go:202-210 | one decrement for each row of the current generation, stopping at zero |
| FolderIndexProtocol.Protocol.SubmitOnce | internal/server/batcher_wiring.go:93-100 | the counter moves exactly with acceptance |
| FolderIndexProtocol.Protocol.SubmitFolderIndex | internal/server/batcher_wiring.go:107-148 | nil means exactly one acceptance and an error none, and the counter moved by as much; after a retryable failure the call is accepted exactly if at some turn pending fell and the Submit succeeded, fails with a non-retryable error exactly if that Submit returned it, with the first error exactly if at some turn pending did not fall and the stall time had passed, where all turns before failed retryably or waited |
| FolderIndexProtocol.RetryEnding | internal/server/batcher_wiring.go:120-145 | every course of the turns has only one ending |
| FolderIndexProtocol.RowsAmongWrites | internal/server/folder_index_protocol.go:148-197 | filtering by kind first leaves the rows of a generation as they are |
| RingBuffer.MaskIsModulo | internal/queue/queue.go:208 | masking with a power of two less one is the remainder |
| RingBuffer.MaskedSlot | internal/queue/queue.go:382-395 | the masked index of the i-th element is its slot modulo the length |
| RingBuffer.PushBack | internal/queue/queue.go:207-209 | writing the slot after the window appends, and the slots outside stay zero |
| RingBuffer.PushFront | internal/queue/queue.go:230-232 | writing the slot before the window prepends, and the slots outside stay zero |
| RingBuffer.PopFront | internal/queue/queue.go:307-313 | zeroing the first slot takes the head off |
| RingBuffer.PopBack | internal/queue/queue.go:337-340 | zeroing the last slot takes the last element off |
| RingBuffer.AddPaid | internal/queue/queue.go:203-205 | growing at full is paid for by two credits an operation and the saved potential |
| RingBuffer.RemovePaid | internal/queue/queue.go:404-413 | shrinking at a quarter is paid for likewise, and keeps a power of two of at least 16 that holds the elements |
| RingBuffer.StaysFit | internal/queue/queue.go:404-413 | a queue that is a quarter full stays so over adds and removes |
| RingBuffer.MaxCapHolds | internal/queue/queue.go:200-202 | over any run a positive maximum is never exceeded |
| RingBuffer.LastInFirstOut | internal/queue/queue.go:194-343 | adding and removing at one end gives the element back and leaves the rest |
| RingBuffer.Queue.constructor | internal/queue/queue.go:78-100 | the least power of two from 16 up that holds what was asked for, clipped by a positive maximum |
| RingBuffer.FirstCapacityOne | internal/queue/queue.go:78-100 | the first capacity is determined by what was asked for |
| RingBuffer.Queue.Resize | internal/queue/queue.go:391-401 | the contents stay, at the beginning of a new buffer, with one copy an element |
| RingBuffer.Queue.ShrinkIfNeeded | internal/queue/queue.go:404-413 | halves exactly at a quarter, never below 16, and keeps the contents |
| RingBuffer.Queue.AddBack | internal/queue/queue.go:194-213 | appends, or refuses when closed, then when full; amortised cost two |
| RingBuffer.Queue.AddFront | internal/queue/queue.go:217-236 | prepends, or refuses when closed, then when full; amortised cost two |
| RingBuffer.Queue.RemoveFront | internal/queue/queue.go:293-318 | the first element, or refuses when empty, then when closed; amortised cost two |
| RingBuffer.Queue.RemoveBack | internal/queue/queue.go:327-344 | the last element, or refuses when empty, then when closed; amortised cost two |
| RingBuffer.Queue.PeekFront | internal/queue/queue.go:348-359 | what RemoveFront would give, with nothing changed |
| RingBuffer.Queue.PeekBack | internal/queue/queue.go:363-375 | what RemoveBack would give, with nothing changed |
| RingBuffer.Queue.Slice | internal/queue/queue.go:378-387 | a fresh copy of the contents in order |
| RingBuffer.Queue.Clear | internal/queue/queue.go:150-159 | empty with the minimum capacity |
| RingBuffer.Queue.Run | internal/queue/queue.go:194-413 | any run answers as the plain double-ended sequence |
| RingBuffer.RunFromNew | internal/queue/queue.go:391-413 | over any run of n operations on a new queue the resizes copy at most 2n + c/2 elements, c being the first capacity |
| GalleryTables.AncestorsPresent | internal/gallerylib/importer.go:177-252 | every folder has its ancestors up to the root, each the folder of the parent path |
| GalleryTables.JoinParent | internal/gallerylib/importer.go:197-203 | the path accumulated for a segment has the path before as its parent |
| Importer.FolderInserted | internal/gallerylib/importer.go:216-246 | a folder that is missing is inserted and never overwrites another, so the conflict branch of the upsert is not reached |
| Importer.ChainEnsured | internal/gallerylib/importer.go:177-252 | after the segment loop every ancestor has its folder, only missing ones were created, and the last is the file's folder |
| Importer.ImportKeeps | internal/gallerylib/importer.go:135-266 | an import leaves exactly one folder for every ancestor, below its parent path and the root last, changes nothing that existed, creates the missing ones once each, named by their last segment and the root Gallery, and every file says the folder of its directory |
| Importer.ImportAgain | internal/gallerylib/importer.go:135-266 | importing again creates nothing and changes only the details of the file |
| Importer.ImportTwice | internal/gallerylib/importer.go:135-266 | repeating an import changes nothing |
| Importer.FileWritten | internal/gallerylib/importer.go:246-266 | an import writes the row of its file, with its folder, name and details, and no other file row |
| Importer.FileNameBelow | internal/gallerylib/importer.go:246 | the name of a file is the last segment of its path |
| Importer.ImportAllKeeps | internal/gallerylib/importer.go:244-246 | over any list of imports OnFolderCreated is called once for each new folder other than the root |
| Importer.FolderOfFile | internal/gallerylib/importer.go:179-204 | for a cleaned path the folder is that of its directory, and the root for a top-level file |
| Importer.BatchImporter.CreateRootFolderEntry | internal/gallerylib/importer.go:93-131 | finds the root or creates it |
| Importer.BatchImporter.RootFolder | internal/gallerylib/importer.go:153-174 | the root from the cache, the tables or new, and the cache stays true |
| Importer.BatchImporter.FolderBelow | internal/gallerylib/importer.go:205-251 | one segment from the cache, the tables or new has the same effect as without the cache |
| Importer.BatchImporter.UpsertPathChain | internal/gallerylib/importer.go:135-266 | with the shared cache an import does to the tables, and reports, exactly what it does without |
| Importer.BatchImporter.ImportBatch | internal/gallerylib/importer.go:135-266 | the same for any list of imports |
| Importer.BatchImporter.UpdateFolderTileChain | internal/gallerylib/importer.go:273-311 | terminates, and gives the tile to exactly the untiled run from the folder upward |
| FolderTiles.RunShape | internal/gallerylib/importer.go:273-311 | the run goes from parent to parent over untiled folders and ends at the root or below a tile |
| FolderTiles.TilesKept | internal/gallerylib/importer.go:288-291 | no tile is overwritten, and a tiled folder keeps only tiled ancestors |
| FolderTiles.WholeLineageTiled | internal/gallerylib/importer.go:273-311 | afterwards the folder and every folder above it have a tile: exactly those without one got this one, and no other row has changed |
| GalleryRuns.ImportTiledUp | internal/gallerylib/importer.go:228-239 | an import tiles nothing and puts no tiled folder below an untiled one |
| GalleryRuns.RunKeeps | internal/gallerylib/importer.go:135-311 | over every run of imports and tiles the tree stays well formed, tiled folders have tiled ancestors and no tile changes |
| GalleryRuns.NewRun | internal/gallerylib/importer.go:93-311 | every run over a new database leaves exactly the folders of the imported files, the root and their ancestors, and above a tile only tiles |
| GalleryRuns.NewNames | internal/gallerylib/importer.go:93-266 | in that tree the root is named Gallery and every other folder by the last segment of its path; there are rows for exactly the files imported, each with the folder of its directory, its last segment for a name and the details of its last import |
| SqlText.RewriteIsSubstitution | internal/tableswap/db.go:111-114 | for names that are words the pattern rewriting replaces exactly the words that are the name |
| SqlText.TokensOne | internal/tableswap/db.go:111-114 | a text has exactly one reading as words and the characters between them |
| SqlText.RewriteAnyText | internal/tableswap/db.go:111-114 | in any text the pattern rewriting replaces exactly the words that are the name |
| SqlText.WordCharExactly | internal/tableswap/db.go:111-114 | the characters of a word are letters, digits and the underscore |
| SqlText.LongerNameKept | internal/tableswap/db.go:8-12 | a name inside a longer name of letters, digits and underscores is left alone |
| SqlText.SubstitutedSame | internal/tableswap/db.go:8-12 | it changes nothing if and only if the word does not occur |
| SqlText.RenameBack | internal/tableswap/db.go:111-114 | renaming to a new word and back restores the text |
| IndexNames.StripNumbered | internal/tableswap/index_name.go:10-15 | stripping undoes the numbering of a name |
| IndexNames.ItoaDecimal | internal/tableswap/index_name.go:45-50 | the number in a name is written in decimal, without leading zeros |
| IndexNames.Pigeonhole | internal/tableswap/index_name.go:45-50 | there are no more taken numbers than taken names, so the search ends |
| IndexNames.AllocateIndexName | internal/tableswap/index_name.go:33-51 | a free name: the base, or the base with the least free number |
| IndexNames.AllocationExists | internal/tableswap/index_name.go:45-50 | there is always a name to allocate |
| IndexNames.AllocatesOne | internal/tableswap/index_name.go:33-51 | the name is determined by the names taken |
| IndexNames.Alternates | internal/tableswap/index_name.go:33-51 | an index named by its base or by number 1 goes to the other of the two names if and only if that name is not taken |
| IndexNames.TakesOther | internal/tableswap/index_name.go:33-51 | while that name is free, an index takes it if and only if its name strips to the base or to that name |
| IndexNames.TakenByLongerName | internal/tableswap/index_name.go:33-51 | with `idx` and `idx_1_3` taken the second allocates `idx_1`, and then the first `idx_2` |
| TableSwap.CloneText | internal/tableswap/db.go:152-157 | the text that CloneEmpty executes is the statement of the rewritten definition |
| TableSwap.IndexRewriteText | internal/tableswap/db.go:285-291 | the text after the two rewrites is the statement of the rewritten index |
| TableSwap.CloneSame | internal/tableswap/db.go:124-161 | the clone is empty and has the same definition if and only if the name occurs nowhere else in the statement |
| TableSwap.CopiesAll | internal/tableswap/db.go:269-295 | every explicit index is copied to the clone under a new name of its own, and nothing else changes |
| TableSwap.RotationResult | internal/tableswap/db.go:124-389 | a rotation leaves the active table with the same definition, no rows and the same explicit indexes under names distinct from each other and from all others, and changes no other table |
| TableSwap.RotationSucceeds | internal/tableswap/db.go:124-389 | when no statement is refused and no name clashes a rotation goes through to its end, in whatever order the indexes are copied |
| TableSwap.RotateTable | internal/cachelite/cache.go:216-232 | clone, copies and cutover over one connection, put back once on every path: a complete rotation when no statement is refused and no name clashes; what a failure leaves |
| TableSwap.GoesExactly | internal/tableswap/db.go:269-295 | in every order of copying one rotation takes an index to its other name if and only if that name is free once the destination is dropped and no other index of the table strips to the base or to that name |
| TableSwap.LongerNameFirst | internal/tableswap/db.go:269-295 | a complete rotation of a table with `idx` and `idx_1_3` in which `idx` becomes `idx_2` |
| TableSwap.Connection.CloneEmpty | internal/tableswap/db.go:124-161 | all or nothing, and fails only for a refused statement, a missing table or a taken name |
| TableSwap.Connection.CreateIndexes | internal/tableswap/db.go:185-298 | all or nothing, index by index with allocated names; fails only for a refused statement, a missing destination, or names under which no copying is possible |
| TableSwap.Connection.DropStale | internal/tableswap/db.go:402-432 | puts the connection back exactly once whether or not the drop succeeds |
| TableSwap.Connection.Swap | internal/tableswap/db.go:318-389 | puts the connection back exactly once on every path; a failed cutover changes nothing |
| RotationRuns.RotateName | internal/tableswap/db.go:269-295 | one rotation takes an index that is alone with its base to its other name, and leaves it alone and the table ready for the next rotation |
| RotationRuns.RotationsAlternate | internal/tableswap/db.go:18-24 | over any number of rotations the definition stays and such an index alternates between its two names |
| RotationRuns.StripsDown | internal/tableswap/index_name.go:33-51 | an index with the same root that is not blocked can be rotated, in one or two rotations a number, until it stands in the way |
| RotationRuns.AlternatesForever | internal/tableswap/db.go:18-24 | in every sequence of rotations, in whatever orders, an index alternates between its base and number 1 if and only if the other name is free and stripping every other index of the table with the same root meets an index of a table that is not rotated |
| ConnectionPool.Kept | internal/dbconnpool/dbconnpool.go:342-352 | every move of every thread, the load and the swap of a reservation apart, keeps the account of slots |
| ConnectionPool.CountExact | internal/dbconnpool/dbconnpool.go:474-836 | the count is idle, held, in hand and under construction, and never above the maximum |
| ConnectionPool.NeverFull | internal/dbconnpool/dbconnpool.go:631-646 | neither Put nor the monitor ever finds the channel full |
| ConnectionPool.CloseFindsNone | internal/dbconnpool/dbconnpool.go:685-692 | when Close finds the count at zero no connection is left anywhere |
| ConnectionPool.SwapExact | internal/dbconnpool/dbconnpool.go:342-352 | a compare-and-swap takes one slot below the maximum exactly when nobody moved the count |
| ConnectionPool.DoneIsClosed | internal/dbconnpool/dbconnpool.go:652-658 | in every interleaving Close marks the pool closed before it signals |
| PoolRuns.GetExactly | internal/dbconnpool/dbconnpool.go:474-548 | what a Get during which no other thread moves can leave, exactly: an idle connection whose ping succeeds, after closing those whose ping fails; with none left a new one if the count is below the maximum; none only if none is idle any more; nothing changed over a closed pool |
| PoolRuns.WaitExactly | internal/dbconnpool/dbconnpool.go:521-548 | a waiting Get takes a connection as soon as one is idle, likewise |
| PoolRuns.WaitsOnlyWhenFull | internal/dbconnpool/dbconnpool.go:504-521 | in any interleaving a Get comes to wait only by finding the count at the maximum |
| PoolRuns.StuckExactly | internal/dbconnpool/dbconnpool.go:474-836 | in any interleaving, apart from contexts that end and the deadline of Close, a thread cannot move exactly while it waits for a connection in an open pool with none idle, or in Close for connections still counted |
| PoolRuns.PutExactly | internal/dbconnpool/dbconnpool.go:603-647 | a Put on its own makes the connection idle, or closes it: always so over a closed pool |
| PoolRuns.TickExactly | internal/dbconnpool/dbconnpool.go:756-836 | a tick of the monitor on its own opens what the pool is below its minimum of idle connections, as far as the maximum allows and until opening one fails, or closes exactly what is above it |
| PoolRuns.CloseExactly | internal/dbconnpool/dbconnpool.go:652-720 | a Close on its own closes every idle connection and the channel; a second one changes nothing |
| SuffixMatch.ExpandExact | internal/parallelwalkdir/parallelwalkdir.go:961-1005 | for every tree of literals, alternations, concatenations, options and empty matches the list holds exactly the strings that the tree denotes |
| SuffixMatch.FoldDenotes | internal/parallelwalkdir/parallelwalkdir.go:971-978 | under case folding a string is denoted exactly when its lower-case spelling is |
| SuffixMatch.HasASCIISuffixFold | internal/parallelwalkdir/parallelwalkdir.go:1109-1126 | true exactly for a non-empty suffix of the name in lower case |
| SuffixMatch.MatchBasenameWithSuffixes | internal/parallelwalkdir/parallelwalkdir.go:1128-1135 | true exactly when some suffix fits |
| SuffixMatch.BasenameSuffixes | internal/parallelwalkdir/parallelwalkdir.go:841-870 | the dotted lower-case strings of the list, each once; an error exactly without an anchored alternation or with an empty list |
| SuffixMatch.DottedFound | internal/parallelwalkdir/parallelwalkdir.go:797-807 | what stands before the end anchor of a dotted pattern |
| SuffixMatch.AnchoredExactly | internal/parallelwalkdir/parallelwalkdir.go:797-807 | the part found is the last before the end anchor of a concatenation, whatever comes before it and however it is grouped |
| SuffixMatch.CompiledAgrees | internal/parallelwalkdir/parallelwalkdir.go:841-870 | the byte matcher accepts exactly the names that the regular expression matches, if and only if no alternative matches the empty string |
| SuffixMatch.GroupsExact | internal/parallelwalkdir/parallelwalkdir.go:961-1005 | with groups inside the alternation the list is what the alternation denotes if and only if each string of a group is one of an alternative that is no group |
| SuffixMatch.ConcatGroupsExact | internal/parallelwalkdir/parallelwalkdir.go:891-903 | with groups inside a concatenation the list is what the concatenation denotes if and only if each group denotes the empty string only |
| SuffixMatch.NestedGroups | internal/parallelwalkdir/parallelwalkdir.go:891-898 | two patterns with a group of which the list leaves a part out |
| SuffixMatch.ProbesExact | internal/parallelwalkdir/parallelwalkdir.go:1146-1151 | for any pattern the byte matcher accepts nothing that the regular expression does not match if and only if every listed suffix passes its probe |
| SuffixMatch.NothingMissed | internal/parallelwalkdir/parallelwalkdir.go:1109-1135 | it misses nothing if and only if it accepts each string that the pattern denotes, after a dot |
| SuffixMatch.UndottedMisses | internal/parallelwalkdir/parallelwalkdir.go:841-870 | for a pattern without a dot the byte matcher accepts exactly the names with a dot before a match that is not empty: nothing that the pattern does not match, but always too little |
| SuffixMatch.ImagePattern | internal/server/files/walker.go:57 | the list of the pattern for images, and a name that the pattern matches and the byte matcher does not accept |
| CacheKey.EscapeRoundTrip | internal/cachelite/key.go:73-81 | unescaping undoes escaping, for all bytes |
| CacheKey.UnescapeFails | internal/cachelite/key.go:73-76 | unescaping fails exactly for a percent sign without two hexadecimal digits after it |
| CacheKey.UnescapePlain | internal/cachelite/key.go:73-76 | text without escapes stands for itself |
| CacheKey.ParseJoined | internal/cachelite/key.go:73-76 | a query says what its parts between ampersands say, in their order |
| CacheKey.ParseEncoded | internal/cachelite/key.go:73-81 | parsing undoes the encoding of any list of pairs |
| CacheKey.GetFirst | internal/cachelite/key.go:77 | the value of a key is that of its first pair |
| CacheKey.MalformedDropped | internal/cachelite/key.go:73-76 | a query with a malformed part anywhere is normalized to none |
| CacheKey.FirstVersionKept | internal/cachelite/key.go:66-82 | of a query of any pairs normalizing keeps the first value of v, encoded, and nothing else |
| CacheKey.NormalizeIdempotent | internal/cachelite/key.go:66-82 | normalizing a query again changes nothing |
| CacheKey.NormalizeByVersion | internal/cachelite/key.go:66-82 | two queries are normalized alike exactly when they stand for the same version |
| CacheKey.KeyInjective | internal/cachelite/key.go:125-144 | a key determines method, path, normalized query and variant, whatever bytes the path holds |
| CacheKey.SharedKey | internal/cachelite/key.go:150-165 | requests on the three routes share a key exactly when they ask for the same view |
| CacheKey.PreloadKey | internal/cachelite/key.go:169-176 | the preloaded key is the key of the request exactly but for gallery requests that do not target gallery-content |
| CacheSize.TotalStored | internal/cachelite/cache.go:161-187 | storing a batch adds its bytes less those it overwrites |
| CacheSize.StoredExactly | internal/cachelite/cache.go:161-187 | after a batch there are exactly the rows of before and of its entries; the last entry for a row gives its body, the first its time of creation unless it had one; other rows are untouched |
| CacheSize.Cache.StoreBatch | internal/server/infrastructure_batcher.go:121-160 | storing the gallery pages of a batch before its other entries leaves the same rows as storing it in its order |
| CacheSize.GalleryFirstSame | internal/server/infrastructure_batcher.go:126-160 | the same of the rows that the two orders leave |
| CacheSize.Cache.EvictLRU | internal/cachelite/cache.go:237-274 | deletes the shortest oldest-first prefix that frees the target, or everything listed, and reports what it freed |
| CacheSize.Cache.MaybeEvict | internal/server/infrastructure_cache.go:123-157 | an eviction deletes the oldest rows, exactly as many as reported, and subtracts their bytes; without the last of them the counter would have stayed above the maximum less a tenth; without error the counter ends at most there or everything listed is deleted, and the stored total ends at most there or exactly 1000 rows were deleted |
| CacheSize.AllListed | internal/cachelite/cache.go:251-254 | a list shorter than the limit has every row |
| CacheCounter.Kept | internal/server/infrastructure_batcher.go:67-80 | every step but the reset of a rotation keeps the counter from falling below the stored total |
| CacheCounter.ResetExact | internal/server/infrastructure_cache.go:92-102 | the reset keeps it right if and only if nothing counted is still stored and no eviction has yet to subtract |
| CacheCounter.CoveredExactly | internal/server/infrastructure_cache.go:92-102 | a run keeps the counter from falling below the stored total throughout if and only if each reset happens in such a state |
| CacheCounter.NeverBelow | internal/server/infrastructure_cache.go:123-157 | in particular, over every run in which rotations keep apart from counting and evicting the counter is never below the stored total |
| CacheCounter.DriftExact | internal/server/infrastructure_batcher.go:67-80 | how each step moves the counter away from the stored total: by the bytes that a batch overwrites and the rows that others remove, never by counting, evicting or reading the size |
| CacheCounter.EvictsNoMore | internal/server/infrastructure_cache.go:144-152 | whatever others do during an eviction, it goes on while the counter at its start less the bytes of what it deleted is above the maximum less a tenth and there are more candidates, and it subtracts just those bytes |
| CacheCounter.RotationLosesBytes | internal/server/infrastructure_cache.go:92-102 | a batch counted between cutover and reset is stored but no longer counted |
| CacheCounter.RotationOvertakesEviction | internal/server/infrastructure_cache.go:145-152 | an eviction that a rotation overtakes makes the counter negative |

## Left out

- HTTP handlers, templates, the dashboard, configuration, logging, image decoding and generated SQL code: input and output, user interface or wrappers.
- File-system errors, fsync, turbo modes, file locks and several openers of one queue: completed writes are durable and calls succeed. The object encoding gob itself is not part of this model.
- QueueRuns.Run: asks that the encoding of every pushed item is below 4 GB; the length of a longer one does not fit in its prefix, and `SegmentLog.OversizeRecord` says that it is then never read back.
- QueueRuns.Perform: follows a queue whose next segment could not be read through its pops only.
- A change of ItemsPerSegment between two opens: the code documents that it breaks the size.
- The cross-session claim of the batcher after cancellation or a refused re-enqueue: items may then stay in the channel or be lost; conservation is proved there too.
- Statistics counters of the batcher other than flushed and committed, its maintenance callbacks, and error counts.
- Overlapping rebuilds of the folder index, and clocks that repeat a generation of another process: one rebuild runs at a time and generations are unique.
- The primary key of the rebuilt index table: the model lets every insert of a flush succeed or fail as a whole.
- How writeFolder computes the navigation columns of a row, and the polling of the wait: rows are opaque and the wait ends when it reads zero.
- The wake-up of blocked consumers of the deque and its statistics counters: DequeueWait removes as RemoveFront does once it is woken.
- Machine integers: counters, sizes and capacities do not overflow.
- Cleaning of paths, file details and times of folders in the importer, deletion of files and folders, and the choice of when a file offers its tile; errors of single statements roll a batch back with its cache.
- Views, triggers, automatic indexes and self-referencing tables in a rotation, the temp_store setting, and the hold mode of the stale drop that tests use.
- The pool after Close has closed its channel, how long Close waits, and fairness between waiting threads: whether a blocked Get is the one that gets the next idle connection.
- BatchProgress.CanDeliver: does not say when the worker moves, nor that flushes succeed; a retry in progress first has to end, which it does by refusing the rest of its batch if need be.
- The directory walk itself, and sorting of the suffix list by length, which no match depends on.
- Case folding beyond ASCII, and parsing and simplification of patterns.
- Keys of routes other than gallery, lightbox and info, whose raw query may hold a question mark.
- The start-up baseline of the cache counter and the count of entries; rows with no body count as length zero.
