# Driver exercises: a verified model

Four of the repository's Linux drivers keep state worth reasoning about. This project models them
in Dafny and proves what they guarantee, and where a guarantee stops.

- **Shared-memory character device** (`SharedMemory`, `Threads`, `Locked`, `Unlocked`, `Traces`,
  `Accesses`, `CellOrder`, `Cycles`, `Races`, `TwoWriters`). Two builds of one driver, with the mutex and with it
  commented out. `SharedMemory` holds the meaning of one whole call and the driver's code as a class.
  `Threads` runs the same code one shared access at a time, for any number of threads with any lists of
  calls, under any scheduler; a flag says whether the lock is compiled in. With the lock the device is
  exactly an atomic one. Without it, `Accesses` says exactly what a run can end in, memory and read data
  together, `CellOrder` which memories those are, cell by cell, and when the cells end independently of
  each other, and `Races` when the schedule matters at all.
- **RAM block device** (`BlockDevice`, `BlockOrder`). The request loop over segmented requests refines
  plain slice reads and writes on a flat disk; fetch order matters only for conflicting requests, and
  segmentation not at all.
- **Wait-queue mailbox** (`Mailbox`, `MailboxLedger`, `MailboxDelivery`, `MailboxPhases`, `MailboxRuns`,
  `MailboxOverlap`, `MailboxPrograms`, `MailboxRest`, `MailboxReturns`). No wake-up is lost, with any
  interleaving, and the device always comes to rest, with its hungry readers asleep. Each message meets one
  fate if the copy phases do not overlap, or if only one thread reads; a reader whose buffer faults loses
  the message it took. Otherwise a message can be delivered twice just when two threads can stand at a
  read while it is there to be had, which `MailboxPrograms` tells from the calls. `MailboxReturns` says what
  each call returns.
- **Append-then-drain buffer** (`AppendDrain`). Three cursors over an array. They make a byte queue until
  a read takes more than is unread; which calls keep the order is exact, and what comes back after any
  write, and which new bytes a read that went too far loses, is described byte by byte.

`Bytes` holds the one memory operation all of them share. `dafny verify dfyconfig.toml` checks the
whole project.

Assumptions about code that is not shown:

- `mutex_lock` admits one thread; a switch may happen after every shared byte. `writecount` is
  incremented outside the lock, so each write finds an arbitrary value in it.
- Each thread has its own open file. The unsigned 32-bit `count` truncates the requested size, and
  the seek adds in wrapping signed 64-bit arithmetic.
- `copy_to_user` copies up to the first byte it cannot write and then fails; the model gives each read
  of each device the number of writable bytes in its buffer. `copy_from_user` of one byte copies it, or
  fails and leaves a zero in its place, as in kernels of the 4.4 series.
- `blk_fetch_request` dequeues. `__blk_end_request_cur` ends the current segment, moves the position on
  by its sectors and returns whether bytes are left. Requests have at least one segment, segments are
  whole sectors of 512 bytes, and a request's end address fits 64 bits.
- `wait_event_interruptible` tests and goes to sleep in one step; `wake_up` makes every sleeper test
  again; a signal lets a sleeper return to the outer loop.
- The VFS layer passes at most 0x7ffff000 bytes to one read or write of the append-then-drain device,
  so its cursors fit the driver's `int`.

## Model

| member | source | states |
|---|---|---|
| SharedMemory.SeekArithmeticExact | 03-fileOperate/mutex/useMutex/mutex_drv.c:132-157 | for every 64-bit offset and every `whence`, the wrapping seek accepts, rejects and lands exactly as unbounded integers would; a rejected seek leaves the position alone |
| SharedMemory.ShareDevice.Llseek | 03-fileOperate/mutex/useMutex/mutex_drv.c:132-157 | the code computes the atomic seek, and the position stays in 0..size |
| SharedMemory.ShareDevice.Read | 03-fileOperate/mutex/useMutex/mutex_drv.c:53-76 | clamp, copy loop and error path compute the atomic read: 32-bit truncated count, `-EFAULT` without moving when the caller's buffer is short, 0 at the end |
| SharedMemory.ShareDevice.Write | 03-fileOperate/mutex/useMutex/mutex_drv.c:78-129 | both byte loops, whichever parity picks, leave memory, position and return value of one atomic clamped store |
| SharedMemory.ReadReports | 03-fileOperate/mutex/useMutex/mutex_drv.c:53-76 | a read returns a negative number, and then -14, exactly when its buffer cannot take what it would copy, and does not move then; it returns 0 exactly when nothing is asked for or left; else the bytes moved over |
| SharedMemory.WriteReports | 03-fileOperate/mutex/useMutex/mutex_drv.c:78-129 | a write returns how far the position moves, puts so many of its bytes there and changes no others |
| SharedMemory.CountWraps | 03-fileOperate/mutex/useMutex/mutex_drv.c:56-61 | counts 2^32 apart are the same to the driver, and one of 2^32 reads nothing |
| SharedMemory.ChunkedWrites | 03-fileOperate/mutex/useMutex/mutex_drv.c:78-129 | writing any chunks one after the other leaves one clamped store of their concatenation, and the writes return its length together |
| SharedMemory.ChunkingIsOneWrite | 03-fileOperate/mutex/useMutex/mutex_drv.c:78-129 | so chunked writing leaves and returns, in all, what a single write of the same bytes does |
| SharedMemory.ReadUntilZero | 03-fileOperate/mutex/useMutex/mutex_drv.c:53-76 | among positive reads into buffers of any room, one returns 0 if and only if the successful ones before it have returned exactly the memory from the start to the end, which they have after one for each byte; and one fails if and only if more is left than its buffer takes of what it asks for |
| Threads.MutualExclusion | 03-fileOperate/mutex/useMutex/mutex_drv.c:63-72 | in every reachable state at most one thread is between lock and unlock, and it is the one holding the lock |
| Threads.PositionSafety | 03-fileOperate/mutex/useMutex/mutex_drv.c:55-123 | in every reachable state of either driver each position lies in 0..size and the next byte touched is inside the memory |
| Threads.Progress | 03-fileOperate/mutex/useMutex/mutex_drv.c:88-121 | some thread can step unless all calls have returned: no deadlock |
| Threads.StepDecreases | 03-fileOperate/mutex/useMutex/mutex_drv.c:85-121 | every step of any thread lowers the global measure of calls and bytes left |
| Threads.RunsAreBounded | 03-fileOperate/mutex/useMutex/mutex_drv.c:53-129 | every run is at most as long as the measure of its start |
| Threads.CanFinish | 03-fileOperate/mutex/useMutex/mutex_drv.c:53-129 | every state can be run to the end of all calls |
| Threads.StuckMeansDone | 03-fileOperate/mutex/useMutex/mutex_drv.c:63-121 | a run that cannot go on has returned from every call and left the lock free, and conversely |
| Locked.StepRefines | 03-fileOperate/mutex/useMutex/mutex_drv.c:53-129 | each step of the locked device is one whole atomic call or nothing |
| Locked.Linearizable | 03-fileOperate/mutex/useMutex/mutex_drv.c:53-129 | every run has results, read data and positions of the serial run of whole calls in lock-acquisition order, whatever `writecount` is, and its memory too; if the run is cut off inside a call, once that call's bytes and result are completed as its holder would |
| Locked.SerialRealizable | 03-fileOperate/mutex/useMutex/mutex_drv.c:53-129 | every serial run of whole calls is a run of the locked device |
| Locked.LockedIsAtomic | 03-fileOperate/mutex/useMutex/mutex_drv.c:53-129 | the outcomes of complete locked runs are exactly the outcomes of the atomic device |
| Unlocked.LocalPops | 03-fileOperate/mutex/unuseMutex/mutex_drv.c:93-121 | a step performs the first byte store of the thread's remaining plan, or changes neither plan nor memory: what a thread will store does not depend on the others |
| Unlocked.EndsAsPlanned | 03-fileOperate/mutex/unuseMutex/mutex_drv.c:78-129 | for any threads and calls, a cell nobody writes keeps its byte and any other ends as some thread's last byte for it |
| Unlocked.Reached | 03-fileOperate/mutex/unuseMutex/mutex_drv.c:78-129 | a choice of a winning thread for every cell, whose last stores follow one order of the cells, can be scheduled, with the memory it stands for |
| Traces.CellHoldsLastStore | 03-fileOperate/mutex/unuseMutex/mutex_drv.c:98-118 | at every moment a cell holds the byte of the last store step executed on it, or its first byte |
| Traces.TraceFollowsPlans | 03-fileOperate/mutex/unuseMutex/mutex_drv.c:98-118 | what a thread has stored followed by what it has still to store is always its whole plan |
| Traces.UnlockedTraces | 03-fileOperate/mutex/unuseMutex/mutex_drv.c:78-129 | for any threads and any calls, the store sequences of complete unlocked runs are exactly the interleavings of the threads' plans |
| Traces.UnlockedMemories | 03-fileOperate/mutex/unuseMutex/mutex_drv.c:78-157 | for any threads and any calls, seeks included, the final memories are exactly those that the interleavings of the plans leave |
| Traces.ReadsWereThere | 03-fileOperate/mutex/unuseMutex/mutex_drv.c:53-76 | with or without the lock, each byte a read returns was in its cell at some moment while that call was copying |
| Accesses.AccessPops | 03-fileOperate/mutex/unuseMutex/mutex_drv.c:53-121 | a step performs the first load or store of the thread's remaining access plan, or leaves the plan alone: which cells a thread will touch does not depend on the others |
| Accesses.SavesArePlan | 03-fileOperate/mutex/unuseMutex/mutex_drv.c:93-121 | the stores of the access plan are the thread's plan of stores |
| Accesses.LocalOutlook | 03-fileOperate/mutex/unuseMutex/mutex_drv.c:53-129 | given the bytes a thread is going to load, a step does not change its return values, read data and final position, except that a load uses up the first of those bytes |
| Accesses.UnlockedJointly | 03-fileOperate/mutex/unuseMutex/mutex_drv.c:53-157 | for any threads and any calls, final memory, read data, return values and positions of complete unlocked runs are, all together, exactly those of replaying the interleavings of the access plans |
| CellOrder.OutcomeExactly | 03-fileOperate/mutex/unuseMutex/mutex_drv.c:53-157 | for any threads and any calls: a run can end in a memory if and only if its bytes are last bytes of a choice of winning threads, one for each written cell, whose last stores in program order decide no cell before itself |
| CellOrder.UnlockedOutcomes | 03-fileOperate/mutex/unuseMutex/mutex_drv.c:78-129 | if last stores in program order lead from no cell back to itself, the outcomes are exactly the memories in which each cell independently ends as any thread's last byte for it |
| CellOrder.IndependentExactly | 03-fileOperate/mutex/unuseMutex/mutex_drv.c:78-157 | when the threads' last bytes differ on every shared cell, every such memory is reached if and only if there is no such cycle |
| CellOrder.NoSeekIsAcyclic | 03-fileOperate/mutex/unuseMutex/mutex_drv.c:123-124 | threads that never seek make no cycle |
| CellOrder.BackwardSeekExcludes | 03-fileOperate/mutex/unuseMutex/mutex_drv.c:132-157 | a concrete program with a backward seek and a cycle, and the memory it cannot reach |
| Races.DisjointIsConfluent | 03-fileOperate/mutex/unuseMutex/mutex_drv.c:78-129 | if the threads write disjoint cells, or agree on shared ones, all complete runs of both drivers end in the same memory |
| Races.LastWins | 03-fileOperate/mutex/unuseMutex/mutex_drv.c:53-129 | with or without the lock, a thread outside its critical section can have the last word on any cell it has still to write |
| Races.ScheduleMattersExactly | 03-fileOperate/mutex/unuseMutex/mutex_drv.c:53-157 | for any threads and calls, seeks included, and for both drivers: the final memory is schedule-independent if and only if no cell has two threads with different last bytes |
| TwoWriters.TwoWritersUnlocked | 03-fileOperate/mutex/unuseMutex/mutex_drv.c:93-121 | two unlocked writes of one range end in every pointwise mix of their data and in nothing else |
| TwoWriters.MixesDiffer | 03-fileOperate/mutex/unuseMutex/mutex_drv.c:93-121 | when the data differ in every byte, different masks give different memories: 2^n outcomes |
| TwoWriters.TwoWritersLocked | 03-fileOperate/mutex/useMutex/mutex_drv.c:93-121 | two locked writes of one range end in the one's data or the other's, and either can happen |
| BlockDevice.GuardAgrees | 12-block_device/block_device.c:33-35 | the shifted 64-bit guard differs from the unbounded comparison exactly for positions of 2^55 sectors or more that come round to an end on the disk, and for requests that run over the 2^64 end back onto it |
| BlockDevice.GuardWraps | 12-block_device/block_device.c:33-35 | a concrete such position; it is beyond the capacity the driver sets, so the block layer would not deliver it |
| BlockDevice.CapacityAccepted | 12-block_device/block_device.c:162 | the guard accepts a request whose end fits 64 bits if and only if it lies within the capacity set |
| BlockDevice.BlkDev.WriteSegments | 12-block_device/block_device.c:67-87 | for every segmentation the write loop is one store of the concatenated segments at the original position, every copy in bounds |
| BlockDevice.BlkDev.ReadSegments | 12-block_device/block_device.c:51-61 | for every segmentation the read loop fills the buffers with one slice of the disk, which it leaves unchanged |
| BlockDevice.BlkDev.DoRequest | 12-block_device/block_device.c:25-105 | the nested loops terminate with the queue empty, the disk of the request-by-request specification, and every request left as specified, the rejected ones included |
| BlockDevice.CutUnique | 12-block_device/block_device.c:51-61 | buffers of given lengths holding given bytes are determined, so the read loop's result is |
| BlockOrder.DiskIsLatest | 12-block_device/block_device.c:21-103 | after any number of requests each byte of the disk is that of the most recent write covering it, or the initial one |
| BlockOrder.ReadsGetLatest | 12-block_device/block_device.c:51-61 | each byte an in-range read returns is that of the most recent earlier write covering it, or the initial one |
| BlockOrder.LatestUnique | 12-block_device/block_device.c:21-103 | there is only one such byte |
| BlockOrder.Completion | 12-block_device/block_device.c:33-91 | in-range requests are ended with all their segments; a rejected one with its first segment only, its position moved on by that and its data untouched |
| BlockOrder.CompletionUnderCapacity | 12-block_device/block_device.c:162 | within the capacity every request is ended with exactly its bytes |
| BlockOrder.ReorderingKeepsDisk | 12-block_device/block_device.c:31-103 | two fetch orders that agree on every conflicting pair leave the same byte everywhere |
| BlockOrder.ReorderingKeepsRequests | 12-block_device/block_device.c:31-103 | and leave every request, with the data it read, the same |
| BlockOrder.SwappedWritesDiffer | 12-block_device/block_device.c:67-87 | swapping two writes that put different bytes at one place conflicts and changes the disk there |
| BlockOrder.OrderMattersExactly | 12-block_device/block_device.c:31-103 | any two requests leave the same disk and the same requests, with the data read, in both orders if and only if they put the same bytes wherever both write and neither reads a byte that the other changes |
| BlockOrder.SegmentationIrrelevant | 12-block_device/block_device.c:51-87 | re-segmenting a request changes neither the disk nor the bytes read |
| BlockOrder.SplitWrite | 12-block_device/block_device.c:67-87 | splitting a write into adjacent writes, or merging them, gives the same disk |
| BlockOrder.SplitRead | 12-block_device/block_device.c:51-61 | splitting a read into adjacent reads gives the same bytes |
| Mailbox.WakeupsAreNotLost | 04-queue_wait/queue_wait_dev.c:34-48 | in every reachable state, however the calls interleave, a sleeping reader means no data or a writer between setting the flag and `wake_up` |
| MailboxDelivery.RestMeansEmpty | 04-queue_wait/queue_wait_dev.c:34-78 | the device rests exactly when only sleeping readers are left, and then nothing is unread |
| MailboxRest.RunsEnd | 04-queue_wait/queue_wait_dev.c:30-81 | however the calls interleave, no schedule is longer than a measure of its start, made of the calls and bytes left, and four steps for each signal: no reader spins |
| MailboxRest.ComesToRest | 04-queue_wait/queue_wait_dev.c:30-81 | from every state the device can be run to rest without a signal |
| MailboxRest.HungrySleeps | 04-queue_wait/queue_wait_dev.c:34-48 | a thread with more blocking reads than the whole program has writes is asleep in one of them when the device rests |
| MailboxRest.NobodyWrites | 04-queue_wait/queue_wait_dev.c:34-47 | where nobody writes, each non-blocking read is refused with -11 and the flag stays down; at rest each thread has finished or sleeps at its first blocking read |
| MailboxDelivery.DeliversLatest | 04-queue_wait/queue_wait_dev.c:48-61 | a successful read delivers the latest message, which it alone has in hand, and returns what is recorded; no other step delivers |
| MailboxDelivery.Delivered | 04-queue_wait/queue_wait_dev.c:30-81 | in every reachable state each message is delivered once, overwritten before a read, lost to a reader whose buffer faults, or the last and pending or in hand; deliveries are in order and carry the message and its length |
| MailboxDelivery.Conservation | 04-queue_wait/queue_wait_dev.c:30-81 | messages published = delivered + overwritten + lost + at most one pending or in hand |
| MailboxDelivery.LostExactly | 04-queue_wait/queue_wait_dev.c:48-53 | a run has lost messages if and only if one of its reads has returned `-EFAULT` |
| MailboxLedger.TakenSettles | 04-queue_wait/queue_wait_dev.c:48-61 | a message in hand is lost if and only if the buffer of the read that took it is too short, which is when that read fails; else it is the next delivery |
| MailboxLedger.FatesAreFinal | 04-queue_wait/queue_wait_dev.c:30-81 | a delivered, overwritten or lost message stays so, and one in hand stays in hand until its reader returns |
| MailboxLedger.NeverLost | 04-queue_wait/queue_wait_dev.c:48-53 | if no read asks for more than its buffer can take, nothing is ever lost, with any schedule |
| MailboxRuns.MessageLost | 04-queue_wait/queue_wait_dev.c:48-53 | where a write comes first in one thread and a read with too short a buffer in another, a schedule without overlapping phases loses the message: the flag is down, the length stays, and nobody has been given anything |
| MailboxOverlap.DeliveriesRecorded | 04-queue_wait/queue_wait_dev.c:30-61 | with any schedule, the deliveries on record to a thread are, in order, what its successful reads have returned to it |
| MailboxOverlap.AtMostOnce | 04-queue_wait/queue_wait_dev.c:34-61 | if at most one thread reads, every schedule delivers messages in publication order and none twice, accounts for every message, and loses them only where a read fails |
| MailboxReturns.ReadReturns | 04-queue_wait/queue_wait_dev.c:34-61 | with any schedule, each result of a read is -11 for a non-blocking read that finds the flag down, -14 for one whose buffer is too short, or else what is on record as its delivery |
| MailboxReturns.ShortIsFront | 04-queue_wait/queue_wait_dev.c:50-53 | with the phases apart, a read that fails has put the front of the message it loses into its buffer |
| MailboxReturns.WriteReturnsAll | 04-queue_wait/queue_wait_dev.c:67-80 | with any schedule, a write returns the length of its message if no other thread zeroes or rewrites `buff_len` from its start to its return |
| MailboxReturns.WriteReturns | 04-queue_wait/queue_wait_dev.c:60-80 | with the phases apart and no later write begun, a write returns the length of its message if that has not been delivered by then, and 0 if it has |
| MailboxReturns.WriteReturnsAt | 04-queue_wait/queue_wait_dev.c:70-80 | in general, with the phases apart, it returns how far a write in its copy loop has got, or else the length of the latest message, or 0 if that has been delivered |
| MailboxOverlap.RepeatsIfMeeting | 04-queue_wait/queue_wait_dev.c:34-61 | for any threads and any calls: some schedule delivers one message twice if and only if two threads can stand at reads that will succeed while a message is there to be had |
| MailboxPrograms.OverlapReached | 04-queue_wait/queue_wait_dev.c:34-61 | if two threads start with reads that will succeed and a third with a write, whatever comes later, some schedule delivers that message to both, whole as far as each asked for |
| MailboxPrograms.RepeatNeeds | 04-queue_wait/queue_wait_dev.c:34-61 | whatever the calls, a message is delivered twice only if two threads each have a read that will succeed and the program has more writes than blocking reads before either |
| MailboxPrograms.RepeatExactly | 04-queue_wait/queue_wait_dev.c:30-81 | for threads that only read or only write, whatever the buffers: a message can be delivered twice if and only if that is so |
| MailboxPrograms.RepeatPlain | 04-queue_wait/queue_wait_dev.c:30-81 | and if no buffer is too short, if and only if a thread writes and at least two read |
| MailboxPhases.PutTake | 04-queue_wait/queue_wait_dev.c:50-61 | a read after a write succeeds if and only if its buffer can take what it asks for, and returns the whole message if and only if it also asks for enough |
| MailboxPhases.WriterPhase | 04-queue_wait/queue_wait_dev.c:67-77 | the machine's writer, alone in its phase, computes the same slot as the driver's loop |
| MailboxPhases.WriterCall | 04-queue_wait/queue_wait_dev.c:67-81 | left alone to the end of its call, it returns the length of its message |
| MailboxPhases.ReaderPhase | 04-queue_wait/queue_wait_dev.c:48-61 | the machine's reader, alone in its phase, computes the same slot and result as the driver's code, the `-EFAULT` branch included |
| MailboxPhases.Device.CopyInAndPublish | 04-queue_wait/queue_wait_dev.c:67-77 | the copy loop driven by `buff_len` and the flag leave exactly the message in the slot |
| MailboxPhases.Device.Write | 04-queue_wait/queue_wait_dev.c:67-81 | and the whole call, with nobody else about, returns the length of the message |
| MailboxPhases.Device.TestAndCopyOut | 04-queue_wait/queue_wait_dev.c:34-61 | with data: flag cleared, bytes out, length zeroed, or -14 with the length left; without, non-blocking: -11 and nothing changed |
| AppendDrain.ReadTakes | 03-fileOperate/fileOperate/RWTest/fileOperate_drv.c:28-58 | in phase or not, a read takes the counted bytes off the front, and a positive read of the empty device zeroes all cursors |
| AppendDrain.WriteAppends | 03-fileOperate/fileOperate/RWTest/fileOperate_drv.c:62-72 | a write in phase appends to the queue |
| AppendDrain.ReadReports | 03-fileOperate/fileOperate/RWTest/fileOperate_drv.c:32-57 | a read returns -14, and has changed nothing, exactly when its buffer is short; 0 exactly when nothing is counted or asked for; else the bytes it takes off the count |
| AppendDrain.WriteReports | 03-fileOperate/fileOperate/RWTest/fileOperate_drv.c:62-72 | a write returns what it was asked for, which is more than `buff_pos` moves if and only if the copy stops early; only the byte it stops at is zeroed besides |
| AppendDrain.CursorsMove | 03-fileOperate/fileOperate/RWTest/fileOperate_drv.c:28-72 | over every run without a reset, `postion` moves by the sizes successful reads ask for, whatever they get, and `buff_pos` by the bytes written; the count goes down by what reads return |
| AppendDrain.ResetZeroes | 03-fileOperate/fileOperate/RWTest/fileOperate_drv.c:32-41 | a positive read with nothing counted puts the three cursors at 0, touches no byte and returns 0 |
| AppendDrain.PhaseBoundary | 03-fileOperate/fileOperate/RWTest/fileOperate_drv.c:32-70 | any write leaves the cursor relation if and only if it comes at `postion` 0; otherwise it counts too many bytes: as many as the lesser of `postion` and `buff_pos` |
| AppendDrain.WhatIsCounted | 03-fileOperate/fileOperate/RWTest/fileOperate_drv.c:32-70 | what is counted after any write: the unread bytes and the new ones, less as many as reads have gone beyond the last byte written, then bytes of the array no write since the reset put there |
| AppendDrain.CountedExactly | 03-fileOperate/fileOperate/RWTest/fileOperate_drv.c:32-70 | the counted bytes are the unread ones followed by the new ones if and only if the write comes at `postion` 0 |
| AppendDrain.DrainFitsExactly | 03-fileOperate/fileOperate/RWTest/fileOperate_drv.c:32-57 | positive reads until one returns 0 stay inside the array if and only if all counted bytes lie in it |
| AppendDrain.WriteThenDrain | 03-fileOperate/fileOperate/RWTest/fileOperate_drv.c:28-72 | draining after any write leaves the array exactly when `postion`, `buff_pos` and the new bytes exceed 100 together; else it returns the bytes so described and zeroes the cursors |
| AppendDrain.LostWrite | 03-fileOperate/fileOperate/RWTest/fileOperate_drv.c:28-72 | a concrete case: write 3, read 10, write 2: both new bytes are lost and 5 others are returned |
| AppendDrain.OvershootLoses | 03-fileOperate/fileOperate/RWTest/fileOperate_drv.c:32-72 | in general: after a read that asks for all that is counted or more, a write loses exactly as many of its first bytes as the read has gone beyond the last byte written; the next read starts with the rest |
| AppendDrain.QueueExactly | 03-fileOperate/fileOperate/RWTest/fileOperate_drv.c:28-72 | one call keeps the byte queue between `postion` and `buff_pos` in order, losing and making up nothing, if and only if it is a read that returns no more than is unread or fails, or a write of nothing or with `postion` not beyond `buff_pos` |
| AppendDrain.QueueConservation | 03-fileOperate/fileOperate/RWTest/fileOperate_drv.c:28-72 | over every run of such calls, with writes at any time and failed reads: unread + written = read + still unread, in order |
| AppendDrain.NumbersBalance | 03-fileOperate/fileOperate/RWTest/fileOperate_drv.c:28-72 | over such a run the bytes unread and what the writes return are what the reads return, the bytes still unread and those that could not be copied in |
| AppendDrain.ReadInOrder | 03-fileOperate/fileOperate/RWTest/fileOperate_drv.c:32-57 | a read that stops at the last byte written is such a call, and so is the one that returns 0 |
| AppendDrain.TurnsReturn | 03-fileOperate/fileOperate/RWTest/fileOperate_drv.c:28-72 | writing and reading the same number of bytes by turns, as the two test programs do: each write returns its length and each read what the write before it wrote, until the array is full |
| AppendDrain.DrainReturnsAll | 03-fileOperate/fileOperate/RWTest/fileOperate_drv.c:32-57 | in phase or not, positive reads until one returns 0 return everything counted, zero the cursors, and end within one read per byte and one more |
| AppendDrain.CycleRoundTrip | 03-fileOperate/fileOperate/RWTest/fileOperate_drv.c:28-72 | writes of at most 100 bytes in all, then draining: each write returns its length, the reads return exactly the concatenation, and the cursors are 0 again |
| AppendDrain.CyclesRoundTrip | 03-fileOperate/fileOperate/RWTest/fileOperate_drv.c:28-72 | and so for each of any number of cycles in a row |
| AppendDrain.BufferDevice.Read | 03-fileOperate/fileOperate/RWTest/fileOperate_drv.c:28-58 | whenever the bytes it copies lie in the array, the code computes the specified read, with its reset and its `-EFAULT` path |
| AppendDrain.BufferDevice.Write | 03-fileOperate/fileOperate/RWTest/fileOperate_drv.c:62-72 | the loop computes the specified write, with `size` returned even when the copy stops early |

## Left out

- SharedMemory.ShareDevice.Write: a byte that cannot be copied in is the zero that `copy_from_user` leaves for it; the loop goes on and the driver overwrites the error code at line 124, so the call stores and returns what it would with zeros there. Kernels that leave such a byte alone are not modelled.
- SharedMemory.ChunkingIsOneWrite: needs fewer than 2^32 bytes in all, because a single write truncates its count to 32 bits; ChunkedWrites itself has no such bound on the total.
- CellOrder.IndependentExactly: for threads that disagree on the last byte of every cell they share; OutcomeExactly is the statement for all programs.
- BlockDevice.BlkDev.DoRequest: requests whose end address does not fit 64 bits are outside its precondition; GuardAgrees says what the guard does with them.
- MailboxDelivery.Delivered: assumes that copy-in with publishing and check, clear and copy-out do not overlap, since the driver takes no lock; all other steps may interleave with them. MailboxOverlap says what holds without that assumption; that what is delivered is then one message's bytes does not. The wake-up properties need none.
- MailboxPrograms.RepeatExactly: for threads that both read and write, the condition is necessary (RepeatNeeds) and the exact one is about states (MailboxOverlap.RepeatsIfMeeting); it is not told from the calls.
- Mailbox.WakeupsAreNotLost: messages and read sizes are at most 100 bytes, the size of the device's array, which the driver does not check; a copy loop that runs past the caller's message stops as on a fault. Of a message cut short by a fault, the zeroed byte behind it is left out.
- MailboxPhases.Device.TestAndCopyOut: the blocking branch is part of the machine, not of this method.
- MailboxPhases.Device.Write: the call with nobody else about. A reader may zero `buff_len` before line 80 reads it, so a write need not return its size; MailboxReturns says when it does.
- AppendDrain.BufferDevice.Write: the bytes copied must lie in the 100-byte array, since the driver has no bound check.
- AppendDrain.BufferDevice.Read: the bytes copied must lie in the array; WriteThenDrain says exactly when they do not.
- The append-then-drain device is modelled call by call; overlapping calls are not.
- Position semantics of POSIX `lseek`: the driver's own formula for SEEK_END (MEM_SIZE - 1) is modelled.
- Module init and exit, device registration, logging and delay loops: no state of interest.
- The semaphore, notifier, bus, platform, kobject, mmap, signal, FIFO and TCP examples: thin use of kernel or system interfaces that would add only easy members.
