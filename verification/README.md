# SeptemberOS core, modelled and proved

This project models eight components of a small real-time operating system written in C and proves what they keep.
Where the code changes records, lists or buffers in place, the model is a class whose methods make the same stores in the
same branches; beside it stands a specification on values, and lemmas over calls, pairs of calls and whole histories.

Sizes are modelled as the code has them: sequence numbers, latches and counters wrap at 32 bits, printed numbers at 64.
Where the code departs from its own comments, the code is what is modelled; a concrete history shows the departure, and a
lemma says for all inputs exactly when the code does what was meant. Several of these also carry the intended step, named
`...Design` or chosen by a parameter, with the full property.

| files | component |
|---|---|
| `memman_blocks`, `memman_discipline`, `memman_laws`, `memman_memory`, `memman_kept`, `memman_arena`, `memman_runs` | the boundary-tag heap: block lists, what they keep, which blocks a call leaves in use, memory that shows them, what memory shows of the other blocks, the calls as stores, histories |
| `task_order`, `task_queue`, `scheduler_model`, `scheduler_order`, `task_manager` | task queues as cyclic lists, the scheduler as a step system, the order in which it serves, the task manager as code |
| `ext2_mapping`, `ext2_file`, `ext2_transfer`, `ext2_stray`, `ext2_inode_io`, `ext2_tables` | block mapping, cursor, what a transfer has done before each block, writes whose stray cursor can be followed, file transfers as a flat array of bytes, and as told by the tables of block numbers on the disk |
| `ext2_bitmap`, `ext2_block_allocator` | block bitmaps without and with the one-entry write-back buffer |
| `ext2_dirents`, `ext2_directory` | directory records: specification and code |
| `tcp_stream`, `tcp_sender`, `socket_sendto` | the sending side of TCP: streams, code, segmentation |
| `lists`, `timer_list`, `timers` | linked lists, the timer interrupt: specification and code |
| `fat_chains`, `fat_volume`, `fat_file_read` | FAT16 chains, allocation over all copies, reading |
| `udp_buffer`, `internet_checksum`, `ip_headers` | datagram buffer, checksum, header |
| `numerals`, `inet_text` | integers and addresses as text |
| `common`, `division` | shared numbers and types; division by a variable number |

Where the code and its description part:

- A malloc that splits a block with a successor leaves the successor's `prev_size` and the remainder's flags stale
  (virgoos/src/base/memman.c:142-148); a free that merges backward tells the successor the unmerged size (217-221);
  realloc's growth in place loses a surplus of up to a header (325-332); the second allocation strategy picks the last
  fitting block.
- A more urgent task that joins a mixed-priority queue of one is linked to itself and the waiting task is lost
  (virgoos/src/base/taskman.c:175-184); a wake on that queue then makes its task ready and leaves it as the head of the
  wait queue (244-262), while another nap on it repairs the queue. Time sharing asks the running task only, not the whole
  level (25-29). With nobody running, reschedule does not return and only interrupts go on (593-599).
- The cursor of ext2 transfers tests absolute block numbers (virgoos/src/fs/ext2.c:1272 and 1287), so that long transfers
  serve blocks of other places of the file. Directory names are compared over the length of the record's name only (1744
  and 1809), so that `.` answers to `..`. Sync writes the bitmap buffer to block 0 while the
  buffer is empty (2315). A block is freed without a look at its bit (660).
- A failing send adds 1 to the rest of a message and takes 1 off its position (virgoos/src/network/socket.c:541-548).
- A periodic timer that goes off is put before others of its timeout, which are then counted twice
  (virgoos/src/base/timers.c:165-170).
- FAT allocation leaves `prev_cluster` open, does not look whether a commit was refused, and its availability check
  counts entries that it never hands out (virgoos/src/fs/fat.c:274-340 and 401-455). Reading does not clip in a cluster
  that starts behind the end of the file (1021).
- The odd last byte of a checksum is taken as a signed char (virgoos/src/network/ip.c:433, virgoos/src/network/udp.c:97).
- `inet_aton` takes empty parts and ignores what follows the digits of a part (virgoos/src/network/socket.c:1183-1208).

## Model

| member | source | states |
|---|---|---|
| HeapBlocks.AlignedWordsHolds | virgoos/src/base/memman.c:91-93 | the rounded request is the least multiple of the alignment that holds it; it is 0 exactly for an empty request or one that wraps in 32 bits |
| HeapDiscipline.MallocDesignKeeps | virgoos/src/base/memman.c:36-43 | a split as the header comment intends it keeps every prev_size and the last mark right |
| HeapDiscipline.MallocDesignCoalesced | virgoos/src/base/memman.c:36-43 | the intended split creates no two free neighbours |
| HeapDiscipline.MallocWrittenExact | virgoos/src/base/memman.c:119-152 | the written split keeps the discipline if and only if the block picked is not split or has no successor, and then equals the intended one |
| HeapDiscipline.FreeDesignKeeps | virgoos/src/base/memman.c:36-43 | the intended free keeps the discipline |
| HeapDiscipline.FreeDesignCoalesces | virgoos/src/base/memman.c:36-43 | the intended free leaves no two free neighbours, if and only if the predecessor is not a free block without payload |
| HeapDiscipline.FreeWrittenExact | virgoos/src/base/memman.c:176-224 | the written free keeps the discipline if and only if it does not both merge backward and leave a successor, and then equals the intended one |
| HeapDiscipline.ShrinkKeeps | virgoos/src/base/memman.c:261-288 | shrinking in place keeps the discipline and leaves the wanted size in use |
| HeapDiscipline.GrowAbsorbsFree | virgoos/src/base/memman.c:294-296 | growing in place absorbs free blocks only |
| HeapDiscipline.GrowDesignKeeps | virgoos/src/base/memman.c:310-334 | the intended growth in place keeps the discipline |
| HeapDiscipline.MallocLeavesFreeable | virgoos/src/base/memman.c:299-308 | after the malloc of a moving realloc the old block can still be freed and stands where it stood |
| HeapDiscipline.FreeDoesNotRepair | virgoos/src/base/memman.c:299-308 | a discipline broken by that malloc is not repaired by the free that follows |
| HeapDiscipline.MoveExact | virgoos/src/base/memman.c:299-308 | a moving realloc keeps the discipline if and only if its malloc and its free do |
| HeapLaws.MallocLive | virgoos/src/base/memman.c:119-152 | after the written malloc the block picked is in use where it stood, with exactly the size asked for if a header and an aligned payload are left over and with its own size otherwise, and every block in use still is, at its place and with its size |
| HeapLaws.MallocDesignLive | virgoos/src/base/memman.c:36-43 | the intended malloc brings just that block into use, and no other changes |
| HeapLaws.FreeWrittenLive | virgoos/src/base/memman.c:176-224 | the written free takes the block at that place out of use, and the other blocks in use stay what they are and no others come into use |
| HeapLaws.FreeDesignLive | virgoos/src/base/memman.c:36-43 | so does the intended free |
| HeapLaws.ShrinkLive | virgoos/src/base/memman.c:261-288 | shrinking leaves a block in use where it is and in use, with the wanted size if the surplus is more than a header and the old size otherwise; the blocks in use at other places are the same as before |
| HeapLaws.GrowLive | virgoos/src/base/memman.c:310-334 | growth in place leaves a block in use where it is and in use, with at least the wanted size, and exactly that if more than a header is to spare; the blocks in use at other places are the same as before |
| HeapLaws.CanGrowExactly | virgoos/src/base/memman.c:294-300 | growth in place is tried if and only if some run of free blocks behind the block gives enough, and it takes the shortest such run |
| HeapMemory.RepresentsUnique | virgoos/src/base/memman.c:95-108 | a memory shows at most one list of blocks to the header walk |
| HeapMemory.SpliceRepresents | virgoos/src/base/memman.c:119-152 | rewriting only the words of some blocks replaces exactly those blocks in the walk |
| HeapMemory.CarvedRepresents | virgoos/src/base/memman.c:119-152 | the stores of a split show as the written split on the list of blocks |
| HeapMemory.ForwardRepresents | virgoos/src/base/memman.c:195-206 | the stores of the forward merge show as that merge on the list |
| HeapMemory.BackwardRepresents | virgoos/src/base/memman.c:207-216 | the stores of the backward merge show as that merge on the list |
| HeapMemory.PayloadOutsideHeaders | virgoos/src/base/memman.c:72-336 | no word of a payload lies in a header |
| HeapArena.Heap.constructor | virgoos/src/base/memman.c:59-69 | the heap starts as one free block over the whole arena that carries the last mark |
| HeapArena.Heap.Malloc | virgoos/src/base/memman.c:72-160 | malloc answers NULL only if nothing fits and then changes nothing; otherwise the walk shows the written split, nothing outside the block changes, and the discipline holds afterwards exactly under the guard; the header in front of the answer shows a block in use with at least the room asked for, and every block that was in use keeps its header size, its use and its payload |
| HeapArena.Heap.Free | virgoos/src/base/memman.c:176-224 | free ignores NULL and unsigned addresses; otherwise the walk shows the written free, and no payload word changes; every other block that was in use still is, with its size |
| HeapArena.Heap.FindBlock | virgoos/src/base/memman.c:249-251 | realloc finds the block whose payload starts at the pointer, or knows that there is none |
| HeapArena.Heap.ShrinkInPlace | virgoos/src/base/memman.c:261-288 | the stores of shrinking show as shrinking on the list, and the payload that stays is untouched, the block serves the new size and the other blocks in use are kept |
| HeapArena.Heap.Gather | virgoos/src/base/memman.c:294-296 | the look-ahead sums up exactly the free blocks that growth would absorb |
| HeapArena.Heap.GrowInPlace | virgoos/src/base/memman.c:310-334 | growth in place leaves a walkable heap if and only if it gathers just enough or more than a header too much; the old payload is untouched; the block then has at least the wanted size and the other blocks in use are kept |
| HeapArena.Heap.Move | virgoos/src/base/memman.c:299-308 | whenever the old block can be freed after the malloc, a moving realloc keeps the whole old payload and is a malloc followed by a free on the list; it answers NULL only if nothing fits |
| HeapArena.Heap.Realloc | virgoos/src/base/memman.c:227-336 | realloc of NULL, of size 0, of an unknown and of a known block, on any heap where the block's last mark is right if its size changes and where it can be freed if it moves; the first min(old, new) words survive; the heap stays walkable exactly under the guard of growth in place; for every answer but NULL the header in front of it shows a block in use with at least the room asked for, and the other blocks in use are kept |
| HeapArena.Heap.WellFormedResizable | virgoos/src/base/memman.c:227-336 | a heap that obeys the discipline meets what realloc asks, for every block in use and every size |
| HeapArena.Heap.ResizableWhenBroken | virgoos/src/base/memman.c:227-336 | so does the live last block of a heap that malloc has left without the discipline |
| HeapRuns.DesignKeeps | virgoos/src/base/memman.c:36-43 | every intended call keeps discipline and arena |
| HeapRuns.WrittenExact | virgoos/src/base/memman.c:72-336 | a written call keeps the discipline if and only if its guard holds, which can be read off the headers before the call |
| HeapRuns.DesignRunKeeps | virgoos/src/base/memman.c:59-336 | in every state of every intended history the headers tile the arena and obey the discipline |
| HeapRuns.WrittenRunExact | virgoos/src/base/memman.c:59-336 | the code keeps the discipline throughout a history if and only if every call of it is harmless, and then its heap is the intended one |
| HeapRuns.StayingIsIntended | virgoos/src/base/memman.c:59-336 | a history of the code that keeps the discipline throughout is an intended one, call for call |
| HeapRuns.NeverFragmented | virgoos/src/base/memman.c:59-224 | in every state that intended mallocs and frees of non-empty requests reach no two adjacent blocks are free |
| HeapRuns.AllFreeIsFresh | virgoos/src/base/memman.c:59-69 | an unfragmented heap without live blocks is the initial one |
| HeapRuns.FreeingEverythingRestores | virgoos/src/base/memman.c:59-224 | an intended history of mallocs and frees that leaves nothing allocated returns the heap to its initial state |
| HeapRuns.CodeNeverFragmented | virgoos/src/base/memman.c:59-224 | the code's own mallocs and frees leave no two adjacent free blocks, as long as they keep the discipline |
| HeapRuns.CodeFreeingEverythingRestores | virgoos/src/base/memman.c:59-224 | as long as it keeps the discipline, the code that has freed everything is back at the initial heap |
| HeapRuns.FreeingEverythingDoesNotRestore | virgoos/src/base/memman.c:142-148 | otherwise it need not be: six calls of the code after which everything is free and the heap is in two blocks |
| HeapRuns.PayloadsDisjoint | virgoos/src/base/memman.c:72-336 | payloads of different blocks do not overlap and lie inside the arena |
| HeapRuns.OthersStayLive | virgoos/src/base/memman.c:72-336 | a call of the code that leaves the heap walkable leaves every block in use that it is not about in use, at its place and with its size |
| HeapRuns.RoomIsGranted | virgoos/src/base/memman.c:72-336 | a call of the code that grants room and leaves the heap walkable leaves a block in use at the place it answers, with at least that room |
| HeapRuns.MallocFailure | virgoos/src/base/memman.c:142-148 | four calls after which the written malloc has broken the discipline |
| HeapRuns.FreeFailure | virgoos/src/base/memman.c:207-221 | five calls after which the written free has broken the discipline |
| HeapRuns.GrowthFailure | virgoos/src/base/memman.c:325-332 | five calls after which growth in place has left words that belong to no block |
| HeapRuns.EmptyRequestFragments | virgoos/src/base/memman.c:207-216 | malloc(0), one more malloc and two frees leave two free neighbours, by design and in the code |
| TaskOrder.EnqueuedSorted | virgoos/src/base/taskman.c:160-204 | a mixed-priority enqueue keeps the queue sorted by urgency |
| TaskOrder.EnqueuedStable | virgoos/src/base/taskman.c:144-222 | an enqueue puts a task behind all others of its priority and keeps their order |
| TaskOrder.FirstInFirstOut | virgoos/src/base/taskman.c:144-265 | by the intended insertion, over any sequence of enqueues and dequeues tasks of equal priority are served in the order of their arrival |
| TaskOrder.ServesMostUrgent | virgoos/src/base/taskman.c:144-265 | by the intended insertion a mixed-priority queue always serves a most urgent task next |
| TaskOrder.ServedInOrderExactly | virgoos/src/base/taskman.c:144-265 | over any sequence of enqueues of tasks with numbers of their own, and dequeues, the queue as the code links it serves the tasks of each priority in the order of their arrival and forgets none if and only if no enqueue puts a more urgent task into a proper mixed-priority queue of one |
| TaskOrder.CodeServesMostUrgent | virgoos/src/base/taskman.c:144-265 | without such an enqueue the queue as the code links it always serves a most urgent task next |
| TaskOrder.LosingQueue | virgoos/src/base/taskman.c:175-204 | enqueue, a more urgent enqueue and three dequeues, by which the code serves the second task twice and the first one never |
| TaskQueues.Queue.Enqueue | virgoos/src/base/taskman.c:144-222 | the pointers do the written enqueue of TaskOrder on the image of the queue, and refine the ordered insertion, on a proper cycle and on a task linked to itself, if and only if a more urgent task does not join a proper mixed-priority queue of one; in that case only the new task can be reached and is linked to itself |
| TaskQueues.Queue.Dequeue | virgoos/src/base/taskman.c:231-265 | the pointers do the written dequeue of TaskOrder on the image of the queue: it takes the head off, clears its links and flags and keeps the cycle; from a task linked to itself it hands out the task and keeps it as the head |
| TaskQueues.Queue.Rotate | virgoos/src/base/taskman.c:96-97 | moving the head pointer on makes the head the last of the cycle |
| TaskQueues.WakeInto | virgoos/src/base/taskman.c:666-680 | a woken task moves from the wait queue to the end of the ready queue; from a wait queue that a losing enqueue has left, it becomes ready and still heads the wait queue |
| SchedulerModel.ElectIsMostUrgent | virgoos/src/base/taskman.c:571-590 | the scan elects the head of the most urgent ready queue |
| SchedulerModel.RunningIsMostUrgent | virgoos/src/base/taskman.c:571-590 | outside interrupts the running task heads its ready queue and every more urgent queue is empty |
| SchedulerModel.NextConsistent | virgoos/src/base/taskman.c:324-689 | every event leaves a consistent state |
| SchedulerModel.NextConserves | virgoos/src/base/taskman.c:324-689 | only terminate and a losing nap drop a task, and only a wake on the queue that a losing nap has left doubles one |
| SchedulerModel.RunConserves | virgoos/src/base/taskman.c:324-689 | in every state of a run each task sits in the queues as often as it was started and doubled and was not terminated or lost; without a losing nap none is lost and none doubled |
| SchedulerModel.LeftExactlyByALosingNap | virgoos/src/base/taskman.c:175-204 | a wait queue is linked to itself if and only if the last nap or wake on it was a losing nap |
| SchedulerModel.DoublesExactly | virgoos/src/base/taskman.c:244-262 | a wake leaves its task in the ready queue and in the wait queue if and only if the last nap or wake on that queue was a losing nap |
| SchedulerModel.LosingRunDropsATask | virgoos/src/base/taskman.c:175-184 | a run with a losing nap leaves some task fewer times in the queues than starts, ends and doublings account for |
| SchedulerModel.LosingRunForgetsATask | virgoos/src/base/taskman.c:175-184 | when no task number is used twice, a run with a losing nap makes some task that has not ended disappear from all queues |
| SchedulerModel.LosingHistoryLoses | virgoos/src/base/taskman.c:175-262 | from the start six events, each called by a running task, of an idle task and two others, after which one task is gone and another is ready and waiting at once |
| SchedulerModel.SliceIsThreeEvents | virgoos/src/base/taskman.c:88-100 | a time slice is interrupt entry, tick and interrupt exit |
| SchedulerModel.RoundRobin | virgoos/src/base/taskman.c:88-100 | with k sharing tasks ready at the running level the next k slices run each of them once, in order, and restore the queue |
| SchedulerModel.SharingAsDocumented | virgoos/src/base/taskman.c:25-29 | the documented masking of time sharing is violated exactly when a sharing task runs beside one that does not share |
| SchedulerModel.MixedCompany | virgoos/src/base/taskman.c:94-98 | two tasks of one level, one of which does not share, between which a slice switches |
| SchedulerOrder.StepIsQueue | virgoos/src/base/taskman.c:144-222 | every event treats every ready queue as a queue: what stood there and then what enters is what leaves and then what stands there |
| SchedulerOrder.OrderKept | virgoos/src/base/taskman.c:324-689 | the tasks of a level that stay keep their order, and a task that becomes ready, or is moved to the level, stands behind all that were ready there |
| SchedulerOrder.FirstComeFirstServed | virgoos/src/base/taskman.c:324-689 | over any run the tasks leave a level in the order in which they stood there at the start and then entered |
| SchedulerOrder.PreemptsExactly | virgoos/src/base/taskman.c:552-599 | outside interrupts a start or a wake takes the processor from the running task if and only if the new task is strictly more urgent, and then the new task has it |
| SchedulerOrder.DeferredInside | virgoos/src/base/sosbasic.c:130-160 | interrupts nest, and the running task stays until the exit of the outermost one |
| SchedulerOrder.MovedRunning | virgoos/src/base/taskman.c:477-498 | after a change of its own priority the running task stands behind all others of the new level and has left the old one; raised, it still runs |
| SchedulerOrder.WaitQueueIsWritten | virgoos/src/base/taskman.c:640-689 | a nap does the written enqueue of a mixed-priority queue to its wait queue, a wake the written dequeue, and no other event touches one |
| TaskManagers.TaskManager.Reschedule | virgoos/src/base/taskman.c:552-599 | inside interrupts the call is noted with the smaller bound; outside, the scan from the bound elects the most urgent task overall |
| TaskManagers.TaskManager.StartTask | virgoos/src/base/taskman.c:336-367 | the conditional, bounded scan after a start elects the most urgent task of all: the method is the start event |
| TaskManagers.TaskManager.TerminateTask | virgoos/src/base/taskman.c:431-448 | the scan from the old level elects the most urgent task of all: the method is the terminate event |
| TaskManagers.TaskManager.NapOn | virgoos/src/base/taskman.c:640-658 | napping is the nap event on each wait queue, losing and the repair of a queue linked to itself included |
| TaskManagers.TaskManager.WakeFrom | virgoos/src/base/taskman.c:666-689 | waking is the wake event on each wait queue, doubling included, and says whether there was a task to wake |
| TaskManagers.TaskManager.SetPriority | virgoos/src/base/taskman.c:477-498 | raising the running task needs no scan, and lowering it is right with the scan from its old level |
| TaskManagers.TaskManager.TimerHandler | virgoos/src/base/taskman.c:88-100 | the handler turns the level of a sharing task and leaves the choice to the exit of the interrupt |
| TaskManagers.TaskManager.ExitIrq | virgoos/src/base/sosbasic.c:130-160 | the outermost exit does the pending reschedule from its bound, which elects the most urgent task overall |
| Ext2Mapping.PathOfInverts | virgoos/src/fs/ext2.c:1115-1174 | the closed form of the pointer indices loses nothing and stays inside the pointer blocks |
| Ext2Mapping.OutermostInBlock | virgoos/src/fs/ext2.c:1145-1174 | below the reach of the format the outermost index stays inside its block too |
| Ext2Mapping.DistinctBlocksDistinctPaths | virgoos/src/fs/ext2.c:1115-1174 | distinct file blocks have distinct pointer slots |
| Ext2Mapping.NextPath | virgoos/src/fs/ext2.c:1217-1301 | what moving on by one block means for the indices |
| Ext2Mapping.AdvanceExact | virgoos/src/fs/ext2.c:1217-1301 | one step of the written cursor is right if and only if the block number does not trip it |
| Ext2Mapping.CursorExact | virgoos/src/fs/ext2.c:1214-1301 | the cursor equals the closed form at every block of a transfer if and only if no block of it trips it |
| Ext2Mapping.AheadStaysAhead | virgoos/src/fs/ext2.c:1217-1301 | once it has gone wrong the cursor stands 12 blocks, or those and one pointer block, too far until it leaves the pointer blocks of its level or runs behind one of them |
| Ext2Mapping.CursorDesignRight | virgoos/src/fs/ext2.c:1115-1301 | with tests relative to the first block of the level the cursor equals the closed form at every block of every transfer |
| Ext2Mapping.CursorFailure | virgoos/src/fs/ext2.c:1272-1301 | with 1 KB blocks a transfer from the start of a file goes astray at block 512 |
| Ext2File.OverwriteBytes | virgoos/src/fs/ext2.c:1176-1205 | in bytes: the stretch holds the data, every other byte of the file is as before |
| Ext2Transfer.FileBlockWithin | virgoos/src/fs/ext2.c:1090-1096 | blocks of a file below 2^32 bytes lie within the three levels |
| Ext2Transfer.ReadAfterWrite | virgoos/src/fs/ext2.c:1086-1357 | after a write every stretch of the file reads as the old one with the data laid over it |
| Ext2Transfer.TripServesWrong | virgoos/src/fs/ext2.c:1272-1301 | at a block that trips it the cursor serves the data block of another file block, or takes what lies behind a pointer block for a pointer |
| Ext2Transfer.OtherFileUntouched | virgoos/src/fs/ext2.c:1086-1357 | a write leaves every byte of every file that shares no block with it |
| Ext2Transfer.GrownFileTakesAll | virgoos/src/fs/ext2.c:2019-2022 | because the size grows first, a file write moves all of its data |
| Ext2InodeIo.Ext2Fs.Start | virgoos/src/fs/ext2.c:1115-1174 | the closed form leads to the data block of the first file block and fills the pointer buffers |
| Ext2InodeIo.Ext2Fs.Next | virgoos/src/fs/ext2.c:1217-1301 | the head of the loop advances cursor and buffers by the tests of the code, or by the intended ones, and takes the data block that the indices lead to, also behind a buffer |
| Ext2InodeIo.Ext2Fs.InodeIo | virgoos/src/fs/ext2.c:1086-1357 | a transfer over mapped blocks does what it should (a read returns the clipped slice; a write lays its data over the file, touches only data blocks of its stretch and moves the size) if no block trips the cursor, and only if none does wherever the first trip shows: for a read where the block read instead holds other bytes, for a write where the data differ from what stands there and the cursor does not come back to that block, or to a pointer block that it reads later, before the write stops; with the intended tests it always does |
| Ext2Stray.MappedAheadNeverBack | virgoos/src/fs/ext2.c:1214-1301 | with enough mapped blocks behind a write and no block number behind the pointer buffers the cursor does not come back |
| Ext2Stray.GrowingWriteTells | virgoos/src/fs/ext2.c:1214-1301 | a write of 2n+1 blocks, n pointers to a block, from the start of a file that ends inside them and has no blocks behind them is one whose first trip shows, at block 2n, so that the write does not do what it should |
| Ext2InodeIo.Ext2Fs.FileRead | virgoos/src/fs/ext2.c:1977-1989 | a file read returns min(count, size - offset) bytes of the file if, and where a trip shows only if, no block of it trips the cursor |
| Ext2InodeIo.Ext2Fs.FileWrite | virgoos/src/fs/ext2.c:1991-2028 | a file write whose blocks are mapped writes everything, changes nothing else and grows the size if, and where a trip shows only if, no block of it trips the cursor |
| Ext2InodeIo.Ext2Fs.WriteThenRead | virgoos/src/fs/ext2.c:1977-2028 | what is read after a write, from any offset, is the old content up to the end of the grown file with the data laid over it |
| Ext2Tables.PointerRead | virgoos/src/fs/ext2.c:1134 | a block number laid out as four bytes, the lowest first, is the one that is taken out of the pointer block |
| Ext2Tables.SlotIsNamed | virgoos/src/fs/ext2.c:1115-1174 | the disk block of a file block is the one that the tables of numbers at i_block[12], i_block[13] and i_block[14] name for it |
| Ext2Tables.BytesAreNamed | virgoos/src/fs/ext2.c:1176-1205 | the bytes of a stretch of the file are those of the blocks that the tables name |
| Ext2Tables.ReadByTable | virgoos/src/fs/ext2.c:1977-1989 | a file read that meets no trip returns the bytes of the blocks that the tables name |
| Ext2Tables.WriteByTable | virgoos/src/fs/ext2.c:1991-2028 | a file write that meets no trip puts its data into the blocks that the tables name, changes no other byte of the disk and leaves the tables as they lie |
| Ext2Bitmap.FirstFreeIsLowest | virgoos/src/fs/ext2.c:602-632 | the block taken is the lowest free one; none is taken only if all groups up to an unreadable one are full |
| Ext2Bitmap.FoundExactly | virgoos/src/fs/ext2.c:602-632 | a place is found if and only if it is the lowest clear bit |
| Ext2Bitmap.FreeUndoesAlloc | virgoos/src/fs/ext2.c:600-671 | freeing the number that an allocation returned undoes it if and only if the bit lies inside its group, which padded bitmaps guarantee |
| Ext2Bitmap.AllocConsistent | virgoos/src/fs/ext2.c:622-625 | an allocation keeps the free count exact |
| Ext2Bitmap.FreeConsistentExact | virgoos/src/fs/ext2.c:660-667 | a release keeps the free count exact if and only if the block was in use |
| Ext2Bitmap.RunConserves | virgoos/src/fs/ext2.c:600-671 | over any run the free count and the clear bits drift apart, modulo 2^32, by exactly the releases of free blocks |
| Ext2Bitmap.NeverHandedOutTwice | virgoos/src/fs/ext2.c:600-671 | a block that somebody holds is never handed out again, over any run |
| Ext2BlockAllocator.RefillUnseen | virgoos/src/fs/ext2.c:564-590 | flushing and refilling the buffer is not seen through it |
| Ext2BlockAllocator.BlockIsBit | virgoos/src/fs/ext2.c:616-632 | block k of a group is bit k % 8 of byte k / 8 of its bitmap, the lowest bit first |
| Ext2BlockAllocator.Allocator.Refill | virgoos/src/fs/ext2.c:564-590 | the wanted bitmap is buffered, no bitmap changes, only bitmap blocks are written |
| Ext2BlockAllocator.Allocator.Scan | virgoos/src/fs/ext2.c:616-632 | the byte and bit loops find the first clear bit |
| Ext2BlockAllocator.Allocator.AllocBlock | virgoos/src/fs/ext2.c:596-636 | allocation through the buffer is allocation without a buffer, and returns group * blocks per group + bit of the lowest clear bit, or 0 if there is none before an unreadable group |
| Ext2BlockAllocator.Allocator.FreeBlock | virgoos/src/fs/ext2.c:641-671 | release through the buffer is release without a buffer |
| Ext2BlockAllocator.Allocator.Sync | virgoos/src/fs/ext2.c:2310-2316 | sync brings the disk up to date with every bitmap, and writes nothing but bitmaps if and only if the buffer is not empty (or block 0 holds the same bytes) |
| Ext2Dirents.LookupIsFirst | virgoos/src/fs/ext2.c:1785-1821 | the comparison finds the first record whose name begins the wanted one |
| Ext2Dirents.LookupExact | virgoos/src/fs/ext2.c:1744-1809 | a name is found at its record if and only if no earlier record has a name that begins it |
| Ext2Dirents.AbsentExact | virgoos/src/fs/ext2.c:1785-1821 | an absent name is reported absent if and only if no record's name begins it |
| Ext2Dirents.BlankAnswersAll | virgoos/src/fs/ext2.c:1746-1752 | the blank record that a deletion leaves answers to every name behind it |
| Ext2Dirents.RoomExact | virgoos/src/fs/ext2.c:1674-1700 | a block is used if and only if a record with room is among those the scan examines |
| Ext2Dirents.PlaceExact | virgoos/src/fs/ext2.c:1674-1700 | a place is found if and only if the scan of some block examines a record with room; it is behind the first such record of the first such block |
| Ext2Dirents.ScanStaysInside | virgoos/src/fs/ext2.c:1699-1700 | the loop condition keeps the scan inside a tiled block |
| Ext2Dirents.MissedRoom | virgoos/src/fs/ext2.c:1699-1700 | a tiled block whose room the scan misses |
| Ext2Dirents.SplitTiled | virgoos/src/fs/ext2.c:1683-1696 | splitting slack keeps the block tiled by aligned records that hold their names |
| Ext2Dirents.RemovedTiled | virgoos/src/fs/ext2.c:1746-1765 | each way of deleting a record keeps the block tiled |
| Ext2Dirents.CreatedKeeps | virgoos/src/fs/ext2.c:1647-1696 | creating keeps all blocks tiled and adds exactly one link |
| Ext2Dirents.DeletedKeeps | virgoos/src/fs/ext2.c:1714-1778 | deleting keeps all blocks tiled and takes away exactly the link of the record found |
| Ext2Dirents.CreatedRecords | virgoos/src/fs/ext2.c:1663-1696 | the new record has the inode, the file type and the name asked for; every other record keeps what it says, and its length but for the one that was split, which keeps just the room that its name needs |
| Ext2Dirents.DeletedRecords | virgoos/src/fs/ext2.c:1714-1778 | every record but the one found keeps inode, type and name, and its length but for the neighbour that takes the room over; a record that fills its block is left blank |
| Ext2Dirents.DeleteUndoesCreate | virgoos/src/fs/ext2.c:1647-1778 | creating and deleting a fresh name restores every record if and only if no record before the new one has a name that begins it |
| Ext2Dirents.DotAnswersDotNames | virgoos/src/fs/ext2.c:1744-1809 | in a new directory the entry . answers to every name that begins with a dot, .. among them |
| Ext2Dirents.DotNameNotUndone | virgoos/src/fs/ext2.c:1647-1778 | creating .a in a new directory and deleting it again takes away the entry . and leaves .a |
| Ext2Directory.Directory.Create | virgoos/src/fs/ext2.c:1647-1696 | creates the record of the specification in the first block whose scan finds room, or changes nothing if a new block would be needed |
| Ext2Directory.Directory.Read | virgoos/src/fs/ext2.c:1785-1821 | hands out the first match, or ENOENT |
| Ext2Directory.Directory.Delete | virgoos/src/fs/ext2.c:1714-1778 | refuses the dot entries, otherwise deletes the first match, or ENOENT |
| TcpStream.TestIsOrder | virgoos/src/network/tcp.c:572-573 | the wrapping test for an acknowledged segment decides the order of the stream positions |
| TcpStream.SendSound | virgoos/src/network/tcp.c:1007-1047 | a send keeps the bytes in flight inside the window and the segments a tiling of the stream |
| TcpStream.SendRefines | virgoos/src/network/tcp.c:1007-1137 | a send does to the 32-bit numbers and the list what it does to the streams |
| TcpStream.SendTakesWhatFits | virgoos/src/network/tcp.c:1007-1137 | a send moves a prefix of the data, all of it unless it fills the window, appends it to its own connection and no other, and queues it for three retransmissions if there was memory |
| TcpStream.AckExact | virgoos/src/network/tcp.c:541-588 | every 32-bit acknowledgement number is out of the window and ignored, or stands for a position and acknowledges it; the state stays sound if and only if that position was sent |
| TcpStream.WindowAfterAck | virgoos/src/network/tcp.c:548-588 | an acknowledgement of unsent bytes, and no other, makes the sender open the window wider than the peer's |
| TcpStream.QueueAfterAck | virgoos/src/network/tcp.c:560-587 | an acknowledgement removes exactly the socket's segments that end by it |
| TcpStream.AckTakesEffect | virgoos/src/network/tcp.c:541-588 | an acknowledgement of bytes that were sent moves the mark of its socket there, leaves what is waiting behind that mark and touches no other socket |
| TcpStream.AckOfAllClears | virgoos/src/network/tcp.c:541-588 | an acknowledgement of all that was sent leaves no segment of its socket waiting |
| TcpStream.AcceptRefines | virgoos/src/network/socket.c:717-722 | an accepted connection starts with nothing in flight |
| TcpStream.RunRefines | virgoos/src/network/tcp.c:536-1137 | in every run against an honest peer the code's numbers and list are the image of sound unbounded streams |
| TcpStream.FlightFitsWindow | virgoos/src/network/tcp.c:1007-1047 | in every such run, wrap-around or not, the bytes in flight fit the peer's window |
| TcpStream.QueueCoversUnacknowledged | virgoos/src/network/tcp.c:1091-1137 | while nothing was given up, the payloads of a socket's list are one stretch of its stream that ends at its end and holds every unacknowledged byte |
| TcpStream.RetriesExactly | virgoos/src/network/tcp.c:57-121 | a queued segment stays in its place for all but the last of the retransmissions it has left, and leaves with the last; nothing else of the list changes |
| TcpStream.UnsentRetries | virgoos/src/network/tcp.c:76-86 | a timeout without a transmit buffer changes nothing, and one without an interface gives the segment up |
| TcpSenders.TcpSender.SendPacket | virgoos/src/network/tcp.c:981-1141 | the method does the send of the model and puts the old sequence number and the bytes taken into the packet, or fails without a change |
| TcpSenders.TcpSender.TakeAck | virgoos/src/network/tcp.c:536-588 | the list walk removes what the model removes |
| TcpSenders.TcpSender.Retransmit | virgoos/src/network/tcp.c:57-121 | the timer callback does the retransmission of the model and resends the stored payload |
| SocketSendto.PassesInvariant | virgoos/src/network/socket.c:533-549 | what the counters of the loop mean, failures included |
| SocketSendto.SegmentFits | virgoos/src/network/socket.c:533-549 | no pass puts out more than 1460 bytes, and a pass puts out exactly the rest of the message, cut to 1460 bytes and to what the send takes |
| SocketSendto.FullSegments | virgoos/src/network/socket.c:533-549 | if every send takes all it is given the message goes out in segments of 1460 bytes and one shorter last one |
| SocketSendto.DeliversExact | virgoos/src/network/socket.c:533-549 | the payloads concatenate to the message if and only if no send failed |
| SocketSendto.FailureRepeatsAByte | virgoos/src/network/socket.c:538-548 | one failing send makes the byte before it go out twice |
| Lists.SortedInsertKeeps | virgoos/src/include/queues.h:45-74 | a sorted insert keeps a list sorted if its comparison orders |
| Lists.List.Insert | virgoos/src/include/queues.h:31-42 | insertion appends |
| Lists.List.SortedInsert | virgoos/src/include/queues.h:45-74 | the entry goes before the first one that does not compare below it |
| Lists.List.Delete | virgoos/src/include/queues.h:77-93 | exactly this entry leaves, and it still points to its successor |
| Lists.List.Find | virgoos/src/include/queues.h:96-105 | finds the first entry with the datum, or none if there is none |
| TimerList.InsertedSorted | virgoos/src/base/timers.c:60-63 | installing keeps the list sorted and adds just this timer |
| TimerList.ClearPass | virgoos/src/base/timers.c:153-179 | without a collision the interrupt counts every timer once, in order, and leaves the intended list |
| TimerList.EachOnceExact | virgoos/src/base/timers.c:153-179 | the interrupt counts every timer exactly once if and only if no periodic timer goes off behind a staying one of equal timeout |
| TimerList.CollisionTurn | virgoos/src/base/timers.c:165-170 | after the first collision the loop goes to a timer that it has counted already |
| TimerList.NeverEnds | virgoos/src/base/timers.c:153-179 | two due periodic timers of one tick keep the interrupt busy for ever |
| TimerList.FiresEveryPeriod | virgoos/src/base/timers.c:162-170 | a periodic timer goes off when its latch has run down and then every reload ticks, an unsigned latch of 0 counting 2^32 |
| TimerList.PeriodicTimer | virgoos/src/base/timers.c:120-182 | with pairwise distinct timeouts every tick of a run counts every timer once and sets a periodic timer off exactly at its due ticks |
| TimerList.LatchLoaded | virgoos/src/base/timers.c:63 | for a resolution above 0 the latch that an install loads is the d with d * resolution <= timeout * 1000 modulo 2^32 < (d + 1) * resolution, and nothing else of the timer changes |
| TimerList.InstalledGoesOff | virgoos/src/base/timers.c:51-182 | a periodic timer installed into a list of other timeouts goes off at tick n if and only if n is a multiple of that latch |
| TimerList.GoesOffEveryTimeout | virgoos/src/base/timers.c:51-182 | with resolution 1 and no wrap that is every 1000 * timeout ticks |
| TimerList.InstalledGoesOffOnce | virgoos/src/base/timers.c:51-182 | a timer that is not periodic, installed into a list of other timeouts, goes off at the tick that its latch says and never again |
| Timers.TimerQueue.InstallTimer | virgoos/src/base/timers.c:51-72 | the timer goes to its place in the list with the latch d for which d * resolution <= timeout * 1000 modulo 2^32 < (d + 1) * resolution |
| Timers.TimerQueue.RemoveTimer | virgoos/src/base/timers.c:75-102 | the timer leaves the list if it was there |
| Timers.TimerQueue.TimerIsr | virgoos/src/base/timers.c:120-182 | the loop runs the turns of the model and calls back exactly the unmasked timers that went off |
| Timers.CalledExactly | virgoos/src/base/timers.c:171-178 | the callback of a timer is made if and only if it went off and its priority is not masked by that of the running task |
| Timers.CalledInOrder | virgoos/src/base/timers.c:171-178 | callbacks are made in the order in which the timers went off |
| FatChains.ChainsAreAcyclic | virgoos/src/fs/fat.c:235-259 | a chain never returns to itself |
| FatChains.ChainIsWalked | virgoos/src/fs/fat.c:235-259 | following the table visits the clusters of a chain in order and stops at its end |
| FatChains.AllocateExact | virgoos/src/fs/fat.c:401-455 | allocation picks the lowest free entries from entry 3 on, all others lying above them, changes no other entry, and makes a chain of them if and only if the last pick is below the limit of commits |
| FatChains.OtherChainsSurvive | virgoos/src/fs/fat.c:401-455 | chains of clusters in use survive an allocation |
| FatChains.FailedAllocation | virgoos/src/fs/fat.c:274-340 | a failing allocation leaves the table as it was if and only if the availability check already failed or there was nothing to link |
| FatChains.StrayPrevious | virgoos/src/fs/fat.c:408-443 | an uninitialised prev_cluster that names an entry in use overwrites it unless the commit is refused |
| FatVolumes.FatVolume.CheckAvail | virgoos/src/fs/fat.c:274-340 | the check counts the free entries of the whole table |
| FatVolumes.FatVolume.CommitEntry | virgoos/src/fs/fat.c:347-373 | the entry is written to every copy, and identical copies stay identical |
| FatVolumes.FatVolume.AllocClusters | virgoos/src/fs/fat.c:401-455 | the sector loops compute the allocation of the specification on all copies |
| FatFileRead.FileRead | virgoos/src/fs/fat.c:995-1033 | reading through the chain gives the slice of its concatenated clusters clipped at the file size if and only if the request ends inside the file or no cluster starts behind it; the chain ends, or goes on in any way after the clusters that hold all that is asked for |
| FatFileRead.LongChain | virgoos/src/fs/fat.c:1019-1023 | a file with a chain longer than it needs, of which a read hands out more than the file holds |
| FatFileRead.ExactChainClips | virgoos/src/fs/fat.c:1019-1023 | a chain of just the clusters that the file needs is always clipped right |
| FatFileRead.ChainWalk | virgoos/src/fs/fat.c:1011-1013 | the loop over an allocated chain visits its clusters |
| UdpBuffer.FrontRecord | virgoos/src/network/socket.c:422-431 | the front of the buffer parses as the oldest record |
| UdpBuffer.SerialInjective | virgoos/src/network/udp.c:25-32 | the bytes of the buffer determine the datagrams |
| UdpBuffer.UdpSocket.CopyDataToSock | virgoos/src/network/udp.c:33-49 | a datagram is appended to the queue, or dropped when it does not fit |
| UdpBuffer.UdpSocket.RecvFrom | virgoos/src/network/socket.c:420-438 | the oldest datagram is handed out, cut to the caller's length, and leaves with its boundaries intact |
| InternetChecksum.FoldIsOnesComplement | virgoos/src/network/ip.c:424-429 | the folding loop computes the one's complement sum |
| InternetChecksum.AnyOrder | virgoos/src/network/ip.c:424-429 | the order of the words does not matter |
| InternetChecksum.RfcWordsAre | virgoos/src/network/ip.c:415-439 | the words of the standard are the bytes in pairs, the high one first, an odd last one padded with zero |
| InternetChecksum.ChecksumExact | virgoos/src/network/ip.c:415-439 | the code computes the Internet checksum of RFC 1071 if and only if the length is even or the last byte is below 0x80 (char being signed) |
| InternetChecksum.CheckedIsZero | virgoos/src/network/ip.c:125-129 | words that carry their own checksum check out as zero |
| InternetChecksum.OneWrongWord | virgoos/src/network/ip.c:415-439 | one changed word is noticed, except for the two forms of zero |
| IpHeaders.CalcIpChecksum | virgoos/src/network/ip.c:415-439 | returns the checksum of the specification |
| IpHeaders.CalcUdpChecksum | virgoos/src/network/udp.c:60-103 | returns the checksum of pseudo header and packet laid end to end |
| IpHeaders.IpLayer.PrepIpHdr | virgoos/src/network/ip.c:107-129 | fills the header, leaves addresses given as NULL, advances the id and makes the header check out |
| IpHeaders.FieldsSay | virgoos/src/network/ip.c:107-129 | length and id lie in the header with the high byte first |
| Numerals.ValueOfText | virgoos/src/libc/libc.c:157-191 | the digits printed say the number |
| Numerals.TextIsNumeral | virgoos/src/libc/libc.c:157-191 | in every radix the character i places from the end is the digit for n / radix^i % radix, out of 0-9A-Z in upper case and 0-9a-z in lower |
| Numerals.TextLength | virgoos/src/libc/libc.c:157-191 | the text has no leading zero and as many digits as the number takes |
| Numerals.UnsignedRoundTrip | virgoos/src/libc/libc.c:1377-1396 | scanning what was printed gives back every unsigned 64-bit number, in decimal and in hexadecimal of either case |
| Numerals.SignedRoundTrip | virgoos/src/libc/libc.c:1325-1345 | scanning what was printed gives back every signed 64-bit number; what is printed of a negative one is a minus sign and the text of its absolute value |
| Numerals.Itoa | virgoos/src/libc/libc.c:157-191 | the digit loops print the text and return its length |
| Numerals.ScanDigits | virgoos/src/libc/libc.c:1337-1396 | the digit loops read the number at the front, in 64 bits, and stop behind it |
| Numerals.ScanSigned | virgoos/src/libc/libc.c:1325-1345 | a leading minus negates in 64 bits |
| InetText.AddressRoundTrip | virgoos/src/network/socket.c:1140-1232 | parsing what was printed gives back every 32-bit address |
| InetText.NtoaIs | virgoos/src/network/socket.c:1223-1232 | the text of an address starts with the number at its lowest address in memory |
| InetText.JunkIsTaken | virgoos/src/network/socket.c:1183-1208 | text that is no address and is taken nonetheless |
| InetText.InetAton | virgoos/src/network/socket.c:1140-1211 | the parser takes a text if and only if it has at most 15 characters and four parts of at most three characters whose leading digits say at most 255, and computes their address |

## Left out

- HeapArena.Heap.Free: demands of the caller that a signed address is a block of the heap; what free does with a forged or stale header is not modelled.
- HeapArena.Heap.Realloc: a block whose last mark is stale; words that the copy of a moving realloc reads beyond the arena are arbitrary, because the source block may end there.
- SchedulerModel.NextConserves: naps and wakes on a wait queue that has handed out its task and kept it are not followed, because its head pointer leads into another queue and they would work on the links of that one; everything else goes on.
- TaskManagers: the ready and wait queues are sequences with the way they are linked; TaskQueues proves that the pointer operations do to the image of a queue exactly the enqueue and dequeue that the manager applies.
- HeapArena.Heap.Move: a block that could not be freed after the malloc, because its `prev_size` would lead to something that is no header of a used block.
- TaskManagers.TaskManager.Reschedule: the switch of stacks and registers is an assignment to the running task; switch_task is not part of this model.
- TaskManagers.TaskManager.StartTask: the allocation of stack and task structure, and the preemption state, which has no effect in the code, are not modelled.
- Tasks: delete_task, end_task, set_task_priority of another task, options set at run time, sleep, semaphores, events and spin locks.
- Ext2InodeIo.Ext2Fs.InodeIo: writes in which the cursor, once astray, comes back to the block that it missed or to a pointer block that it reads later, where what the file holds in the end depends on the data; access and modification times; the inode is a value that the method returns, not a record updated in place; devices fail exactly for blocks they do not have.
- Ext2InodeIo.Ext2Fs.FileWrite: the blocks that a growing file needs are taken as mapped; ext2_inode_alloc_blocks_count is not part of this model.
- Ext2BlockAllocator.Allocator.FreeBlock: block numbers beyond the last group, for which the code reads past the group descriptors.
- Ext2BlockAllocator.Allocator.Sync: the superblock and the group descriptors, whose counts the code changes in a local copy only.
- Ext2Directory.Directory.Create: the allocation of a new directory block, which does not grow the size; records are values with a name, so stale bytes behind a name are not shown.
- ext2: the block cache, unlinking, inode allocation and superblock backups.
- TcpSenders.TcpSender.SendPacket: header contents but the sequence number, interfaces and long packets; all sockets are in the connected state and every packet carries the ACK flag, as all callers have it.
- TcpStream.RunRefines: the receiving side, handshake, SYN retransmission and connection teardown.
- SocketSendto.Sendto: errors that are found before the loop, and the acknowledgements that arrive while it sleeps, which belong to the runs of TcpStream.
- Timers.TimerQueue.TimerIsr: callbacks that change the timer list while the loop is in it; the loop is followed for a number of turns, because it may not end.
- TimerList.PeriodicTimer: signed overflow of a timeout in ticks, and a resolution of 0, by which the code would divide; the model loads a latch of 0 for it.
- Timers and TCP entries keep their lists as sequences; Lists proves the pointer operations, among them that a deleted entry still points to its successor, which the loops read after freeing it.
- FatVolumes.FatVolume.AllocClusters: an open `prev_cluster` that names a free entry below the limit, where the outcome depends on the sector the entry lies in.
- FatFileRead.FileRead: chains that never end when the request reaches past the file or past the clusters looked at, where the code may loop for ever, and directories, whose size comes from a second walk.
- FAT12 and FAT32 branches, writing, directories, dates and long names.
- UdpBuffer.UdpSocket.RecvFrom: waiting for data, the stream branch, and the status bits of the descriptor.
- IpHeaders.IpLayer.PrepIpHdr: a NULL header, for which the code does nothing; fragmentation and reassembly.
- Numerals.ScanDigits: field widths, narrower result types, octal and floating conversions.
- Pipes, descriptors, select, DHCP, ARP, telnet, HTTP, terminals, drivers and architecture code.
