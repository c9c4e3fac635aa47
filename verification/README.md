# Runtime library: models and proofs

The runtime library in `src/runtime` schedules green threads, passes values between them over channels, and gives
programs a generational heap, slices, hash maps and formatted printing. This project models its stateful core and proves
properties over every run or every input. Arrays, linked nodes, counters and loops of the source are classes, arrays and
loops here; each method is tied to a specification function, and the lemmas are about those functions.

| file | what it models |
|---|---|
| `Deque.dfy` | the lock-free local run queue, as a transition system with one step per atomic access |
| `DequeProgress.dfy` | what its operations achieve: wait-freedom, why a steal fails, operations without interference |
| `LocalQueue.dfy` | the same queue called by one thread at a time, as an object whose 32-bit counters may wrap |
| `RobinTable.dfy`, `RobinMap.dfy` | the Robin Hood hash map: table invariant, then the map object against a finite map |
| `GQueue.dfy` | the intrusive thread queue on linked nodes |
| `ChanSpec.dfy`, `Channel.dfy` | channels as values, their histories and what each receive was answered; the channel object with ring buffer and two wait queues |
| `ChanAnswers.dfy` | what every channel operation answers, told by the channel's past alone |
| `SchedulerSpec.dfy` | the scheduler with one P as a state machine over channels as values; what whole programs do to each channel and to each woken receiver |
| `SchedulerLaws.dfy` | laws of whole programs: when they abort, and in which order threads are resumed |
| `RuntimeParts.dfy`, `Scheduler.dfy` | the same scheduler on its real structures: the local ring, the linked global queue and channel objects, all over one set of thread nodes |
| `Lifetimes.dfy`, `HeapModel.dfy`, `Heap.dfy` | allocation histories; block placement and lists; the allocator object and checked references |
| `Slice.dfy` | slices on that heap |
| `GrowableStack.dfy` | commit and release of growable stacks |
| `StealSweep.dfy` | the order in which victims of work stealing are tried |
| `FormatSpec.dfy`, `FormatGrammar.dfy`, `Formatter.dfy` | format strings and their output; their grammar and the agreement of the verbs; the scanner, buffer and driver |
| `Bits.dfy`, `Ranges.dfy`, `Options.dfy` | powers of two and bit masks; index ranges and removal from a sequence; the option type |

Where things can go wrong, and exactly when:

- The local queue's `pop` treats a tail counter of zero as an empty queue. That is right until the counter wraps; at
  2^32 pushes a queued thread is reported as absent (`LocalQueue.StuckAtWrap`). `LocalQueue.RunQueue.Pop` is exact about
  it, and the concurrent model is proved below 2^32 pushes.
- The scheduling loop inherits this: with one P it reports a deadlock although a thread is runnable exactly when the
  global queue is empty and the local queue is not but its tail counter reads zero (`SchedulerSpec.LoopVerdict`). A
  program whose only thread yields gets there after 2^32 - 1 yields (`SchedulerSpec.SpuriousDeadlock`); below 2^32 local
  pushes the verdict is right (`SchedulerSpec.CleanVerdict`).
- A steal comes back empty although threads are queued only when another operation took the one it was after, or the
  owner was popping the last (`DequeProgress.EmptyStealLost`).
- A close drops the values of the senders blocked on it, and the program aborts as soon as one of them is resumed
  (`SchedulerLaws.ClosedSenderAborts`); `SchedulerLaws.AbortsExactly` lists all the ways in which a program can abort.
- Generations identify lifetimes for exactly the first 2^64 - 2 allocations (`Lifetimes.GenerationsGood`).
- A double free is detected exactly until the address is handed out again; after that it ends the new owner's lifetime
  (`Heap.Allocator.DoubleFreeDetected`).
- `run_stack_check` never reports a false overflow if and only if the stack size is a power of two and at least one page
  (`GrowableStack.NeverOverflowsIffPowerOfTwo`); RUN_STACK_MAX accepts any size from 8192 on. On these sizes it never
  reports a stack pointer below the base either, because it clamps its target to the lowest page before it grows
  (`GrowableStack.PowerSizePasses`); such an overflow is left to the guard page.
- A shrink keeps the commit size well formed unless a one-page commit of at least 32 KiB has watermark zero
  (`GrowableStack.ShrinkKeepsShape`); recording the stack pointer first, as the loop does, rules that out.

Where the code and its documentation differ, the code is followed: a free marks the header with a reserved generation and
the next allocation draws a new one from an epoch counter, instead of incrementing the old one; the owner pops the newest
local thread rather than the oldest; a steal takes one thread rather than half of a queue; and one thread, not a batch, is
taken from the global queue.

`Compatible` in `RobinTable` is what a map asks of its caller: equality is an equivalence and equal keys hash equally.
The calls of `Scheduler.Runtime` take the abstract state they start from as a ghost argument, and `Valid(s)` says that the
object is in state s and that s has the invariant of `SchedulerSpec`.

## Model

| member | source | states |
|---|---|---|
| Deque.RunConserves | src/runtime/run_scheduler.c:207-253 | For every interleaving of one owner and any number of thieves at atomic-step granularity, with fewer than 2^32 successful pushes: the bag of pushed threads equals the bag returned by pops and steals plus what is still queued plus the at most one thread a winning pop holds. |
| Deque.RunLinearizes | src/runtime/run_scheduler.c:207-253 | Every such run is a legal history of a sequential double-ended queue, each operation taking effect at one atomic step between its call and its return, steals on the oldest thread and pops on the newest; the values that pushes, pops and steals report are, kind by kind, the history's in order, except for the one pop that has won and not returned. |
| Deque.StepRefines | src/runtime/run_scheduler.c:207-253 | Every atomic step keeps the concurrent invariant and is invisible or exactly one abstract operation; a successful steal returns the thread last pushed at the index its CAS moved head away from although the slot was read before the CAS; a steal with a current head that has read its slot succeeds, and one that comes back empty has lost its head or met no thread that it could have; an empty-handed pop saw an empty queue; a refused push saw 256 queued threads. |
| Deque.WordComparisonsAgree | src/runtime/run_scheduler.c:210-246 | While head and tail span at most 256 (head may lead by one), the three 32-bit wrap-around tests decide what the unbounded integers would. |
| Deque.PushStepKeepsInv | src/runtime/run_scheduler.c:207-215 | No step of push breaks the invariant: the slot written is one no queued index and no thief whose view of head is current relies on. |
| Deque.PopStepKeepsInv | src/runtime/run_scheduler.c:217-240 | No step of pop breaks the invariant, through the transient tail - 1, the last-element CAS and both ways of restoring tail. |
| Deque.ThiefStepKeepsInv | src/runtime/run_scheduler.c:242-253 | No step of any thief breaks the invariant, however stale its view of head is. |
| Deque.ThiefWins | src/runtime/run_scheduler.c:250-252 | A winning CAS removes exactly the oldest index and leaves every other participant consistent; every other thief about to CAS on that head will fail. |
| Deque.ThievesKept | src/runtime/run_scheduler.c:242-253 | What a thief in mid-steal relies on is only that head never goes back and that, while head is where it read it, that index stays queued with the same value. |
| Deque.PushStepRefines | src/runtime/run_scheduler.c:207-215 | A push that returns true appended its thread; one that returns false met a full queue and changed nothing. |
| Deque.PopWins | src/runtime/run_scheduler.c:225-236 | The two steps at which a pop wins (the load of head with more than one thread left, the CAS on the last one) take exactly the newest thread and hold it. |
| Deque.PopStutters | src/runtime/run_scheduler.c:217-240 | No other step of pop changes the queue, and a pop that returns nothing returns on an empty queue. |
| Deque.ThiefStepRefines | src/runtime/run_scheduler.c:242-253 | A steal that returns a thread took the oldest; one that returns nothing had an outdated head, or had read no slot yet and met an empty queue or a single thread being popped; no other thief step changes the queue. |
| Deque.EmptyHandedSteal | src/runtime/run_scheduler.c:242-246 | A steal whose view of head is current gives up before its CAS only on an empty queue or on a single thread that the owner is popping. |
| Deque.HeadNeverDecreases | src/runtime/run_scheduler.c:207-253 | No step of any participant moves head back, and none moves it by more than one. |
| Deque.StepConserves | src/runtime/run_scheduler.c:207-253 | One abstract step neither creates nor loses a thread. |
| Deque.StepLinearizes | src/runtime/run_scheduler.c:207-253 | One atomic step performs at most one operation of the sequential deque, and that one legally. |
| Deque.StepBalances | src/runtime/run_scheduler.c:207-253 | What takes effect at a step and what a caller is told at it are the same, or differ by the pop in flight. |
| DequeProgress.EmptyStealLost | src/runtime/run_scheduler.c:242-253 | In every run a steal that comes back empty either lost the thread at the head it had loaded to an operation of another participant that took effect since that load, a steal of it as the oldest or a pop of it as the newest; or it found the queue empty or its only thread being popped. |
| DequeProgress.HeadPasses | src/runtime/run_scheduler.c:225-253 | When head has left an index, a step took the thread at that index, for a steal as the oldest or a pop as the newest. |
| DequeProgress.HeadMoverTakes | src/runtime/run_scheduler.c:225-253 | Only a winning steal or the pop of the last thread moves head. |
| DequeProgress.OwnerIsWaitFree | src/runtime/run_scheduler.c:207-240 | Whatever thieves do in between, a push returns after at most three more steps of its owner and a pop after at most five. |
| DequeProgress.StealIsWaitFree | src/runtime/run_scheduler.c:242-253 | Whatever the others do in between, a steal returns after at most three more steps of its thief. |
| DequeProgress.SoloSteal | src/runtime/run_scheduler.c:242-253 | A steal that nobody disturbs, from a queue with threads and no pop under way, returns the oldest thread and removes it. |
| DequeProgress.SoloPush | src/runtime/run_scheduler.c:207-215 | A push that nobody disturbs appends its thread if fewer than 256 are queued, and is refused otherwise. |
| DequeProgress.SoloPop | src/runtime/run_scheduler.c:217-240 | A pop that nobody disturbs returns the newest thread and removes it, or reports nothing on an empty queue. |
| LocalQueue.RunQueue.constructor | src/runtime/run_scheduler.c:201-205 | A new queue is empty. |
| LocalQueue.RunQueue.Push | src/runtime/run_scheduler.c:207-215 | Called alone, with counters that may have wrapped any number of times: succeeds exactly below 256 queued threads and then appends. |
| LocalQueue.RunQueue.Pop | src/runtime/run_scheduler.c:217-240 | Returns and removes the newest thread, moving the head only for the last one, for every counter value except one: a tail word of exactly zero reads as empty and leaves the queue unchanged. |
| LocalQueue.RunQueue.Steal | src/runtime/run_scheduler.c:242-253 | Returns and removes the oldest thread, nothing exactly on an empty queue. |
| LocalQueue.RunQueue.Len | src/runtime/run_scheduler.c:255-259 | The 32-bit difference is the number of queued threads, across wrap-around. |
| LocalQueue.StuckAtWrap | src/runtime/run_scheduler.c:217-220 | The exception of pop is reachable by the owner alone: after 2^32 - 1 pushes, each popped again, and one more push, pop reports nothing although one thread is queued. |
| LocalQueue.RingDropNewest | src/runtime/run_scheduler.c:217-240 | Slot (tail - 1) mod 256 holds the newest value, and dropping it keeps the other slots valid. |
| LocalQueue.RingDropOldest | src/runtime/run_scheduler.c:242-253 | Slot head mod 256 holds the oldest value, and advancing head keeps the other slots valid. |
| LocalQueue.Words | src/runtime/run_scheduler.c:201-259 | The 32-bit images of head and tail determine the length and the ring slot, whatever the unwrapped counters are. |
| RobinTable.StopIsSound | src/runtime/run_map.c:278-293 | In every table with the Robin Hood invariant, a probe may stop at an empty bucket or at a bucket less displaced than itself: the key is then nowhere in the table, under any equal spelling. |
| RobinTable.ProbePath | src/runtime/run_map.c:278-293 | Every bucket between an entry and its home is occupied and at least as displaced as the probe that reaches it. |
| RobinTable.WalkBack | src/runtime/run_map.c:214-264 | Walking back q buckets from an entry with psl >= q stays on occupied buckets whose psl has fallen by at most q. |
| RobinTable.ProbeLengthBound | src/runtime/run_map.c:278-312 | An entry is always nearer to its home than to any empty bucket behind it, so no probe goes once round the table. |
| RobinTable.ProbeGoesOn | src/runtime/run_map.c:278-312 | A probe that does not stop has not yet tried every bucket. |
| RobinTable.EmptyBucketExists | src/runtime/run_map.c:184-188 | A table with fewer entries than buckets has an empty bucket. |
| RobinTable.InsertKeeps | src/runtime/run_map.c:215-223 | Filling the empty bucket that ends a probe gives a table with the whole invariant, keys still distinct. |
| RobinTable.SwapKeeps | src/runtime/run_map.c:236-262 | A displacement swap keeps the whole invariant of the table, and the evicted entry is itself placed to be carried on and is now absent from the table. |
| RobinTable.PassKeeps | src/runtime/run_map.c:261-262 | Passing a bucket at least as displaced leaves the carried entry well placed for the next one. |
| RobinTable.ClearMakesHole | src/runtime/run_map.c:316 | Clearing a bucket leaves a table that would be whole if that one bucket were filled. |
| RobinTable.ShiftKeeps | src/runtime/run_map.c:320-329 | One backward shift moves the hole to the next bucket and keeps every entry (hash + psl) mod capacity buckets from zero. |
| RobinTable.ShiftSize | src/runtime/run_map.c:320-329 | A backward shift neither loses nor adds an occupied bucket. |
| RobinTable.HoleCloses | src/runtime/run_map.c:319-321 | When the bucket after the hole is empty or at home, the invariant is whole again: this is exactly when the source stops shifting. |
| RobinTable.UpdateKeeps | src/runtime/run_map.c:227-232 | Overwriting a value in place keeps the invariant. |
| RobinTable.EntriesExchange | src/runtime/run_map.c:236-262 | Overwriting a bucket exchanges exactly its entry for the new one. |
| RobinTable.EntriesReplace | src/runtime/run_map.c:227-316 | With distinct keys, the entry of an overwritten or cleared bucket is gone from the table. |
| RobinTable.PlacementAndBound | src/runtime/run_map.c:214-264 | In every such table an entry is in bucket (hash + psl) mod capacity, and psl is below the number of entries. |
| RobinTable.SameBytesCompatible | src/runtime/run_map.c:47-79 | The built-in hash/equality pairs, which read the same bytes, satisfy what the map asks of its caller, whatever the hash is. |
| RobinMap.RunAll | src/runtime/run_map.c:151-345 | Any sequence of set, get, delete and len, resizes included, returns what a plain finite map returns, for any hash and any compatible equality. |
| RobinMap.LookupAfterPut | src/runtime/run_map.c:184-264 | The specification of set is the plain map update: the new value is seen under every equal key, every other key keeps its value, keys stay distinct. |
| RobinMap.LookupAfterRemove | src/runtime/run_map.c:300-337 | The specification of delete is the plain map deletion, with the same two halves. |
| RobinMap.KeyIsNew | src/runtime/run_map.c:226-259 | At the first swap, or at an empty bucket, the key being set is nowhere in the table, so no duplicate of it can lie further along the probe. |
| RobinMap.InsertSwaps | src/runtime/run_map.c:236-259 | The loop invariant of set survives a displacement swap. |
| RobinMap.InsertPasses | src/runtime/run_map.c:261-262 | The loop invariant of set survives a step to the next bucket. |
| RobinMap.InsertEnds | src/runtime/run_map.c:215-223 | Placing the carried entry yields a table that stores exactly the updated map, with one entry more. |
| RobinMap.UpdateEnds | src/runtime/run_map.c:227-232 | Updating the matching bucket yields a table that stores exactly the updated map, same count. |
| RobinMap.DeleteBegins | src/runtime/run_map.c:314-318 | Clearing the key's bucket leaves the entries of the smaller map and one hole. |
| RobinMap.NotYetMoved | src/runtime/run_map.c:152-177 | While resize is at an old bucket, that bucket's key is not in the new table under any spelling, so each nested set inserts. |
| RobinMap.MoveOne | src/runtime/run_map.c:166-173 | After each old bucket the new table stores exactly the entries of the old prefix. |
| RobinMap.RoomForOne | src/runtime/run_map.c:186 | A table below the load factor stays within three quarters of its capacity after one more entry. |
| RobinMap.NextIndex | src/runtime/run_map.c:261 | Masking is the step to the next bucket of the ring, for a power-of-two capacity. |
| RobinMap.RobinMap.constructor | src/runtime/run_map.c:111-137 | A new table is valid, has 8 buckets and stores nothing. |
| RobinMap.RobinMap.Index | src/runtime/run_map.c:191 | hash & (capacity - 1) is hash mod capacity. |
| RobinMap.RobinMap.Find | src/runtime/run_map.c:270-336 | The probe of get and delete returns the one bucket whose key equals the argument, and nothing exactly when no key does. |
| RobinMap.RobinMap.Get | src/runtime/run_map.c:270-294 | Get is the finite map's lookup. |
| RobinMap.RobinMap.Probe | src/runtime/run_map.c:214-264 | The probe of set terminates and ends at an empty bucket or at the key's own bucket, with everything it displaced still stored. |
| RobinMap.RobinMap.Insert | src/runtime/run_map.c:190-264 | Set after the load-factor test performs the map update and keeps the full table invariant. |
| RobinMap.RobinMap.Set | src/runtime/run_map.c:184-264 | Set performs the map update on every valid table, doubling it first when it is loaded. |
| RobinMap.RobinMap.Resize | src/runtime/run_map.c:152-177 | Resizing keeps the map, doubles the capacity and leaves the table unloaded; the nested calls of set never resize again. |
| RobinMap.RobinMap.Delete | src/runtime/run_map.c:300-337 | Delete removes the key, reports whether it was present, and restores the full invariant. |
| RobinMap.RobinMap.CloseGap | src/runtime/run_map.c:319-329 | The backward-shift loop terminates, loses and adds no entry, and ends with the Robin Hood invariant restored. |
| RobinMap.RobinMap.Len | src/runtime/run_map.c:343-345 | The counter is the size of the finite map. |
| RobinMap.RobinMap.IterNext | src/runtime/run_map.c:356-369 | One iterator step returns the next occupied bucket's entry, or nothing when none is left. |
| RobinMap.IterationVisitsEachOnce | src/runtime/run_map.c:351-369 | A whole iteration yields every entry of the map exactly once and nothing else. |
| GQueues.GQueue.constructor | src/runtime/run_scheduler.c:139-143 | A new queue is the empty chain. |
| GQueues.GQueue.Push | src/runtime/run_scheduler.c:145-154 | On linked nodes: the chain gains g at its end; head, tail, len and acyclicity stay consistent. |
| GQueues.GQueue.Pop | src/runtime/run_scheduler.c:156-167 | The first node is unlinked and the chain is the rest, tail cleared when it was the last. |
| GQueues.GQueue.Remove | src/runtime/run_scheduler.c:169-195 | Reports whether g was queued; the chain is the old one without g, every other node in its place. |
| GQueues.GQueue.UnlinkAfter | src/runtime/run_scheduler.c:182-190 | The splice removes exactly the node after prev, and moves tail when that was the last. |
| GQueues.WithoutAt | src/runtime/run_scheduler.c:169-195 | Deleting the one occurrence of g is cutting the chain at its position. |
| ChanSpec.RunAccounted | src/runtime/run_chan.c:80-241 | Over every run of a channel, in lock order: the values sent are those delivered, then the buffer, then the offers of blocked senders, then what close dropped; the receives begun are those served, then those that got zero, then the waiting ones. |
| ChanSpec.KthReceiveGetsKthSend | src/runtime/run_chan.c:80-198 | The k-th receive to take the lock gets the k-th value sent, whether it came from the buffer, a waiting sender or a later hand-over. |
| ChanSpec.ZerosComeLast | src/runtime/run_chan.c:139-241 | A receive gets zero only on a closed channel and only when every value close did not drop has been delivered. |
| ChanSpec.SendKeepsWellFormed | src/runtime/run_chan.c:80-127 | After a send: waiting receivers imply an empty buffer and no waiting senders, waiting senders imply a full buffer, a closed channel has no waiters. |
| ChanSpec.RecvKeepsWellFormed | src/runtime/run_chan.c:139-198 | The same after a receive; the rotate branch depends on it. |
| ChanSpec.CloseKeepsWellFormed | src/runtime/run_chan.c:204-241 | The same after a close. |
| ChanSpec.SendAccounted | src/runtime/run_chan.c:80-127 | A send keeps both ledgers, of values and of receives. |
| ChanSpec.HandedAccounted | src/runtime/run_chan.c:89-97 | Handing a value to a waiting receiver keeps order, because the buffer is then empty. |
| ChanSpec.RecvAccounted | src/runtime/run_chan.c:139-198 | A receive keeps both ledgers, through the rotate, direct, buffer, zero and blocking branches. |
| ChanSpec.CloseAccounted | src/runtime/run_chan.c:204-241 | Close moves exactly the blocked senders' values to the dropped ones and serves every waiting receiver with zero. |
| ChanSpec.GotAccounted | src/runtime/run_chan.c:139-178 | A receive that gets a value keeps both ledgers. |
| ChanSpec.EmptyHanded | src/runtime/run_chan.c:179-197 | A receive that gets zero or waits keeps both ledgers. |
| ChanSpec.HandedAnswers | src/runtime/run_chan.c:88-97 | The receiver that a send hands its value to has that value as the answer of its last receive. |
| ChanSpec.CloseAnswers | src/runtime/run_chan.c:219-226 | Every receiver that waits at a close has zero as the answer of its last receive. |
| ChanSpec.AnswerStays | src/runtime/run_chan.c:80-241 | What a receive was answered stays so under every later operation until the same thread begins another receive. |
| ChanAnswers.SendAnswers | src/runtime/run_chan.c:80-127 | In every run, told by the past alone: a send panics exactly after a close; else it goes to the receive that has waited longest, if any; else into the buffer while fewer values than the capacity are undelivered; else it blocks, and only the main thread is stuck. |
| ChanAnswers.RecvAnswers | src/runtime/run_chan.c:139-198 | In every run, told by the past alone: a receive gets the next undelivered value that close did not drop; if there is none it gets zero exactly after a close, else waits, and only the main thread is stuck; it wakes a sender exactly when more values than the capacity are undelivered, namely the sender of the first one beyond. |
| ChanAnswers.CloseIs | src/runtime/run_chan.c:204-241 | In every run, told by the past alone: a close panics exactly after a close; else it wakes the waiting receives in order and the senders of the values beyond the capacity in order, and drops exactly those values. |
| ChanAnswers.ClosedReceive | src/runtime/run_chan.c:139-184 | After a close, every receive by anyone adds one answer at once: the next undelivered value, or zero when all are delivered. |
| ChanAnswers.RefusedBy | src/runtime/run_chan.c:204-241 | A close refuses exactly the senders blocked on it; no other operation refuses anyone or takes a refusal back, unless its thread sends again. |
| ChanAnswers.ClosedIs | src/runtime/run_chan.c:204-241 | A channel is closed exactly when a close was performed on it, and its capacity never changes. |
| Channel.WindowPush | src/runtime/run_chan.c:100-104 | Writing at send_idx appends to the ring's contents, wrap included. |
| Channel.WindowPop | src/runtime/run_chan.c:166-170 | Reading at recv_idx takes the ring's oldest element. |
| Channel.WindowRotate | src/runtime/run_chan.c:145-155 | On a full ring the slot read and the slot written are the same, and the result is drop-oldest then append. |
| Channel.Chan.constructor | src/runtime/run_chan.c:33-60 | A new channel is the empty abstract channel. |
| Channel.Chan.PutSlot | src/runtime/run_chan.c:100-104 | The ring gains one element at its end; send_idx = (recv_idx + buffer_len) mod cap is kept. |
| Channel.Chan.TakeSlot | src/runtime/run_chan.c:166-170 | The ring loses its oldest element; the index equation is kept. |
| Channel.Chan.RotateSlot | src/runtime/run_chan.c:145-155 | A full ring returns its oldest element and takes in the blocked sender's. |
| Channel.Chan.WaitToSend | src/runtime/run_chan.c:119-122 | The caller joins the send queue, and only that, as the last offer. |
| Channel.Chan.WaitToRecv | src/runtime/run_chan.c:190-193 | The caller joins the receive queue, and only that, as the last receiver. |
| Channel.Chan.HandOver | src/runtime/run_chan.c:90-96 | The first waiting receiver leaves the queue with the value in its cell. |
| Channel.Chan.TakeFromSender | src/runtime/run_chan.c:143-163 | Receive with a sender waiting does to the abstract channel what the specification says, in both branches. |
| Channel.Chan.Send | src/runtime/run_chan.c:80-127 | The send region on ring and linked queues refines the abstract send; the woken thread is the first receiver and holds the value. |
| Channel.Chan.Recv | src/runtime/run_chan.c:139-198 | On the linked objects a receive is the model's receive, with the model's value or zero, in every branch; `ChanAnswers.RecvAnswers` says from the channel's past alone which branch that is. |
| Channel.Chan.DrainReceivers | src/runtime/run_chan.c:220-225 | Every waiting receiver moves to the wake list, in order, with zero in its cell, and is never in two queues. |
| Channel.Chan.DrainSenders | src/runtime/run_chan.c:228-232 | Every waiting sender moves to the wake list behind the receivers, marked to panic. |
| Channel.Chan.Close | src/runtime/run_chan.c:204-241 | Close refines the abstract close; the wake list has the receivers in order, then the senders in order. |
| SchedulerSpec.RunKeeps | src/runtime/run_scheduler.c:798-1202 | Over every run of any program with one P: each live thread is in exactly one place (current, local queue, global queue, or one channel wait queue) once, its status says which kind, live_g_count is the number of live threads, and nothing is blocked while the main thread runs. |
| SchedulerSpec.LoopVerdict | src/runtime/run_scheduler.c:858-889 | In every state that a run reaches at the top of the loop: it returns exactly when every thread is dead, and reports deadlock exactly when some thread is live and every live thread waits on a channel, or when the global queue is empty and the only runnable threads are in a local queue whose tail counter reads zero. A loop that returns has given up its P. |
| SchedulerSpec.CleanVerdict | src/runtime/run_scheduler.c:858-889 | In every run with fewer than 2^32 local pushes, deadlock is reported exactly when some thread is live and every live thread waits on a channel. |
| SchedulerSpec.SpuriousDeadlock | src/runtime/run_scheduler.c:217-220 | The other case is reachable: after 2^32 - 1 yields of a program's only thread the loop aborts with a deadlock report although that thread is runnable. |
| SchedulerSpec.Verdict | src/runtime/run_scheduler.c:858-889 | The same verdict for any state with the thread invariant; when all live threads are blocked the run queues are empty. |
| SchedulerSpec.TailWithinPushes | src/runtime/run_scheduler.c:207-240 | Over every run the tail index of the local queue is at most the number of local pushes. |
| SchedulerSpec.YieldsRun | src/runtime/run_scheduler.c:1108-1128 | A thread alone that yields moves head and tail of the local queue by one per turn and is found again each time. |
| SchedulerSpec.NobodyCanProceed | src/runtime/run_chan.c:80-241 | In every reachable state no blocked thread's channel could serve it: receivers wait on open empty channels, senders on open full ones. |
| SchedulerSpec.ProgramChannels | src/runtime/run_chan.c:80-241 | In every run of any program, for every channel: the k-th receive to reach it gets the k-th value sent on it, and every value sent is delivered, buffered, offered by a blocked sender or dropped by close. |
| SchedulerSpec.ChannelRun | src/runtime/run_chan.c:80-241 | What a program did to a channel, in order, taken as a run of that channel alone, ends in exactly the channel that the whole system has. |
| SchedulerSpec.StepOnChannel | src/runtime/run_chan.c:80-241 | A step of the system changes a channel by exactly the operation that it asks of it, changes no other, keeps all, and makes new ones empty. |
| SchedulerSpec.CellIsAnswer | src/runtime/run_chan.c:88-97 | In every run, the value that a woken and not yet resumed receiver has in its cell is the one that the ledger of some channel gave to the last receive the thread began there, and the zero of close is there only for a receive that the ledger gave zero. |
| SchedulerSpec.ResumedWithAnswer | src/runtime/run_chan.c:187-197 | A thread that blocked in a receive is not switched to before a send or close has filled its cell, and until it is switched to it waits in that channel or its cell stays filled. |
| SchedulerSpec.CellComes | src/runtime/run_chan.c:80-241 | A cell is filled only by the send that meets its thread first in line, with the value sent, or by the close that finds it waiting, with zero. |
| SchedulerLaws.AbortsExactly | src/runtime/run_scheduler.c:858-907 | In every run, the next action aborts the program exactly for the reason that its past gives: a send or close on a channel that was closed, the main thread in a wait that nobody can end, the resumption of a sender whose value a close dropped, or a loop that finds every live thread blocked or overlooks the last ones. |
| SchedulerLaws.ResumeAborts | src/runtime/run_scheduler.c:1140-1146 | In every run, a thread that the loop resumes is aborted exactly when the last value it sent was dropped by a close; any other runs on. |
| SchedulerLaws.ClosedSenderAborts | src/runtime/run_chan.c:228-232 | In every run, a thread that was blocked in a send when its channel was closed never runs program code again: whenever it is current later, the program has aborted with a send on a closed channel. |
| SchedulerLaws.FlaggedIffRefused | src/runtime/run_chan.c:218-232 | In every run the threads with a panic flag are those whose last value a close dropped, until one of them is resumed and aborts. |
| SchedulerLaws.FlagsMove | src/runtime/run_chan.c:218-232 | A flag is set only by a close, on a sender blocked there, and cleared only by the switch that aborts. |
| SchedulerLaws.GlobalIsFifo | src/runtime/run_scheduler.c:145-167 | In every run the threads resumed out of the global queue are those that entered it, in that order; the rest are still in it. |
| SchedulerLaws.QueuesMove | src/runtime/run_scheduler.c:461-465 | Only the loop takes threads out of the run queues; a thread enters the global queue only when it is preempted, the local queue is full, or no P is held. |
| SchedulerLaws.PickMoves | src/runtime/run_scheduler.c:798-835 | The loop resumes the newest local thread, and the oldest global one only when the local queue is empty or its tail counter reads zero. |
| SchedulerLaws.YieldComesBack | src/runtime/run_scheduler.c:1108-1128 | In every run, a thread that yields of its own accord to a local queue with room is resumed before any other, except when the tail counter then reads zero. |
| SchedulerLaws.PreemptedGoesLast | src/runtime/run_scheduler.c:1108-1128 | In every run, a preempted thread is resumed next exactly when no other thread is queued, or only overlooked ones. |
| SchedulerSpec.FoundIsRunnable | src/runtime/run_scheduler.c:798-835 | What the search finds is live and runnable and leaves exactly one queue. |
| SchedulerSpec.ReadyCore | src/runtime/run_scheduler.c:1165-1202 | Waking a thread that has left its wait queue puts it in exactly one run queue. |
| SchedulerSpec.ReadyAllCore | src/runtime/run_chan.c:236-240 | The wake loop of close leaves every woken thread in exactly one run queue. |
| SchedulerSpec.ChannelFrees | src/runtime/run_chan.c:89-232 | A channel operation that unlinks threads leaves each of them in no place, once, and moves nobody else. |
| SchedulerSpec.ChannelParks | src/runtime/run_chan.c:119-125 | Blocking moves the running thread to exactly one wait queue. |
| SchedulerSpec.SendFrees | src/runtime/run_chan.c:80-127 | A send leaves the receiver it hands over to in no place, and otherwise moves nobody. |
| SchedulerSpec.RecvFrees | src/runtime/run_chan.c:139-198 | A receive leaves the sender it takes from in no place, and otherwise moves nobody. |
| SchedulerSpec.CloseFrees | src/runtime/run_chan.c:204-241 | A close leaves exactly the threads of its wake list in no place. |
| SchedulerSpec.SendKeeps | src/runtime/run_chan.c:80-127 | Send, with hand-over and blocking, keeps every thread in exactly one place. |
| SchedulerSpec.RecvKeeps | src/runtime/run_chan.c:139-198 | Receive keeps every thread in exactly one place. |
| SchedulerSpec.CloseKeeps | src/runtime/run_chan.c:204-241 | Close keeps every thread in exactly one place although it moves whole queues. |
| SchedulerSpec.SpawnKeeps | src/runtime/run_scheduler.c:1066-1106 | A spawned thread is new, counted and queued once. |
| SchedulerSpec.YieldKeeps | src/runtime/run_scheduler.c:1108-1128 | Yield, voluntary or preempted, moves the running thread to exactly one run queue. |
| SchedulerSpec.ExitKeeps | src/runtime/run_scheduler.c:1149-1163 | Exit removes the running thread from every place and from the count. |
| SchedulerSpec.PickKeeps | src/runtime/run_scheduler.c:838-932 | A loop turn keeps the invariant, also when it overlooks a queued thread; when it returns nothing is blocked. |
| SchedulerSpec.StepKeeps | src/runtime/run_scheduler.c:798-1202 | Every scheduling point keeps the invariant. |
| Scheduler.Runtime.constructor | src/runtime/run_scheduler.c:139-205 | The empty ring, queue and channel table represent the initial state. |
| Scheduler.Runtime.PushRing | src/runtime/run_scheduler.c:207-215 | On the 256-slot ring, with wrapping counters: below 256 threads the node is the newest of the local queue afterwards; nothing else of the runtime changes. |
| Scheduler.Runtime.PopRing | src/runtime/run_scheduler.c:217-240 | On the ring: yields the newest local thread's node unless the queue is empty or the tail counter reads zero, and leaves exactly the other threads queued. |
| Scheduler.Runtime.PushGlobal | src/runtime/run_scheduler.c:145-154 | Linking a node at the end of the global queue disturbs no channel's queues, because the node is in none of them. |
| Scheduler.Runtime.PopGlobal | src/runtime/run_scheduler.c:156-167 | Unlinking the first node of the global queue disturbs no channel's queues. |
| Scheduler.Runtime.PushLocalOrGlobal | src/runtime/run_scheduler.c:461-465 | A full ring overflows to the linked global queue; the runtime is then in the state the model's push gives. |
| Scheduler.Runtime.FindRunnableThread | src/runtime/run_scheduler.c:798-835 | Searching ring, then linked queue, returns the node of the thread that the model finds, tail-zero case included. |
| Scheduler.Runtime.GReady | src/runtime/run_scheduler.c:1165-1202 | Writing the status word and relinking the node of a thread in no queue realizes the model's wake-up. |
| Scheduler.Runtime.LoopTurn | src/runtime/run_scheduler.c:838-907 | A turn on the real structures is the model's step and keeps the invariant; its outcome is return exactly when all threads are dead, and deadlock exactly in the cases of the verdict; and a woken receiver that it switches to has in its cell the value it was given, or zero. |
| Scheduler.Runtime.Resume | src/runtime/run_scheduler.c:891-904 | The switch into a thread is the model's, with its panic for a sender of a closed channel (`SchedulerLaws.ResumeAborts` says exactly for whom); the thread's cell holds what the send or close that woke it wrote. |
| Scheduler.Runtime.RunLoop | src/runtime/run_scheduler.c:1020-1053 | Entering the loop takes the P and keeps every thread in exactly one place. |
| Scheduler.Runtime.SpawnThread | src/runtime/run_scheduler.c:1066-1089 | A fresh node with the next id joins exactly one run queue, and the invariant holds again. |
| Scheduler.Runtime.YieldThread | src/runtime/run_scheduler.c:1108-1128 | The running thread's node moves to exactly one run queue, by the model's step, and the invariant holds again. |
| Scheduler.Runtime.ExitThread | src/runtime/run_scheduler.c:1149-1159 | The running thread's node leaves every queue for good, the count falls by one, and the invariant holds again. |
| Scheduler.Runtime.NewChannel | src/runtime/run_chan.c:33-60 | A fresh channel object joins the runtime, sharing no object with any other. |
| Scheduler.Runtime.Send | src/runtime/run_chan.c:80-127 | A send on the channel object, with hand-over, wake-up, blocking or abort, is the model's step on the whole runtime: other channels and the run queues keep their nodes, and the invariant holds again. |
| Scheduler.Runtime.Receive | src/runtime/run_chan.c:139-198 | The same for a receive; a value that is there at once is returned, and a blocked caller finds its value in its cell (see LoopTurn). |
| Scheduler.Runtime.Close | src/runtime/run_chan.c:204-241 | The same for a close: every waiter's node moves through the wake list to exactly one run queue, with the right panic flag. |
| Scheduler.Runtime.WakeAll | src/runtime/run_chan.c:236-240 | The loop that pops the wake list and readies each node performs the model's wake-all in order, while the list and the run queues share the link field. |
| Scheduler.Runtime.GlobalAlone | src/runtime/run_scheduler.c:145-195 | In every valid runtime the global queue shares no node with a channel's queues. |
| Scheduler.Runtime.ChannelsAlone | src/runtime/run_chan.c:80-241 | In every valid runtime no node waits on two channels. |
| Scheduler.Runtime.IsHomeless | src/runtime/run_chan.c:89-125 | The running thread, and a thread that has just left its wait queue, is linked in no queue, so it may be pushed. |
| Scheduler.Runtime.WakeListApart | src/runtime/run_chan.c:215-240 | The nodes on close's wake list are linked in no queue of the runtime. |
| Scheduler.Runtime.ChannelMoved | src/runtime/run_chan.c:80-241 | If an operation wrote only to one channel's objects, its waiters and the caller, every other structure of the runtime still holds what it held. |
| RuntimeParts.SendSteps | src/runtime/run_chan.c:80-127 | What a send does after its locked region completes the model's step. |
| RuntimeParts.RecvSteps | src/runtime/run_chan.c:139-198 | What a receive does after its locked region completes the model's step. |
| RuntimeParts.CloseSteps | src/runtime/run_chan.c:204-241 | Waking the wake list in order after the locked region completes the model's step. |
| RuntimeParts.FlagsHold | src/runtime/run_chan.c:220-232 | The panic flags that close leaves in the nodes are exactly the model's: cleared for receivers, set for senders, others untouched. |
| RuntimeParts.CellsSent | src/runtime/run_chan.c:88-97 | A send changes no unread cell but that of the receiver it hands over to, which gets the value sent. |
| RuntimeParts.CellsZeroed | src/runtime/run_chan.c:219-226 | Close puts zero into the cells of its receivers and changes no other unread cell. |
| Lifetimes.GenerationIdentifiesLifetime | src/runtime/run_alloc.c:233-300 | For every allocation history with at most 2^64 - 2 allocations: an address's generation now equals the one captured earlier, and is not the freed mark, exactly when it was in a lifetime then and has not been released since. |
| Lifetimes.GenerationsGood | src/runtime/run_alloc.c:23-29 | The n-th generation is nonzero, not the freed mark and different from every earlier one exactly up to n = 2^64 - 2. |
| Lifetimes.LifetimeEnds | src/runtime/run_alloc.c:215-231 | In a well-formed history the lifetime of an address is the same one exactly when no release of it lies in between, even if it was allocated again. |
| Lifetimes.LifetimeAfterRelease | src/runtime/run_alloc.c:215-231 | After its last release an address is in a lifetime exactly when it has been allocated again. |
| Lifetimes.GenerationOfLifetime | src/runtime/run_alloc.c:97-99 | A current lifetime's generation is its allocation's ordinal number. |
| Heap.Allocator.TemporalSafety | src/runtime/run_alloc.c:233-300 | In every reachable heap: a reference captured at any earlier time dereferences exactly when its address was in a lifetime then and has not been released since, however often it was recycled; one captured from a freed block never does. |
| Heap.Allocator.DereferenceIs | src/runtime/run_alloc.c:233-300 | What a dereference finds, told by the history: null always aborts; generation 0 is never checked and never captured from a block; a captured reference aborts as freed when its address is in no lifetime now, as a mismatch when it is in another one, and gives access in its own. |
| HeapModel.ClassFromIs | src/runtime/run_alloc.c:83-91 | The class found is the smallest whose blocks hold the size, or none of the 17 does. |
| HeapModel.ClassRoundTrip | src/runtime/run_alloc.c:136-142 | A freed class block returns to the class it was carved for. |
| HeapModel.CapacityForIs | src/runtime/run_alloc.c:185-186 | The capacity carved for a size holds it and belongs to the list that the size will be looked up in. |
| HeapModel.RoundedAlignmentIs | src/runtime/run_alloc.c:155-166 | The alignment used is the least power of two that is at least 16 and at least the request. |
| HeapModel.PlacementOk | src/runtime/run_alloc.c:188-199 | Header and user area lie inside the malloc range, and the user area meets the alignment. |
| HeapModel.BlocksDisjoint | src/runtime/run_alloc.c:154-213 | Distinct blocks, headers included, never overlap. |
| HeapModel.NewBlockOk | src/runtime/run_alloc.c:188-212 | A block in a fresh malloc range is new and apart from every block there is. |
| HeapModel.Unlisted | src/runtime/run_alloc.c:101-134 | Taking a block off its list leaves every other freed block on exactly one list, once. |
| HeapModel.Relisted | src/runtime/run_alloc.c:136-148 | Pushing a just-freed block keeps the partition of blocks into live ones and listed ones. |
| HeapModel.Revived | src/runtime/run_alloc.c:173-183 | A recycled block is live and on no list. |
| HeapModel.AllocationLogged | src/runtime/run_alloc.c:174-202 | After an allocation every header still carries the generation that the history gives its address. |
| HeapModel.ReleaseLogged | src/runtime/run_alloc.c:226 | The same after a free. |
| Heap.FirstFitIs | src/runtime/run_alloc.c:119-133 | The first-fit search takes a block exactly when it fits and none before it does, and unlinks exactly that one. |
| Heap.ClassCandidate | src/runtime/run_alloc.c:105-117 | A class list is only ever asked for its head. |
| Heap.LargeCandidate | src/runtime/run_alloc.c:119-133 | A large request reuses the first block of the large list that fits in capacity and alignment, and none only if none fits. |
| Heap.FreedIsNext | src/runtime/run_alloc.c:101-150 | The block freed last is the next one reused by any request of its class that it fits, and reusing it leaves the lists as they were before it was freed. |
| Heap.HeadOfClass | src/runtime/run_alloc.c:105-117 | What a small request may reuse is the head of its class list, and only when it is aligned: a freed block with room; taking it removes just that block from just that list. |
| Heap.Allocator.FindSizeClass | src/runtime/run_alloc.c:83-91 | The doubling loop computes the size class. |
| Heap.Allocator.RoundAlignment | src/runtime/run_alloc.c:155-166 | The rounding loop returns a power of two of at least 16: the rounded alignment. |
| Heap.Allocator.FreelistPop | src/runtime/run_alloc.c:102-134 | Returns a freed, large enough, aligned block exactly when the policy of its list has one, and unlinks only that. |
| Heap.Allocator.PopClass | src/runtime/run_alloc.c:105-117 | Class list: the head, if it is aligned; its capacity is exactly the class size. |
| Heap.Allocator.PopLarge | src/runtime/run_alloc.c:119-133 | Large list: first fit by capacity and alignment; nothing exactly when no listed block fits. |
| Heap.Allocator.AllocAligned | src/runtime/run_alloc.c:154-213 | The block returned is recycled exactly when a candidate exists; it has room, is zeroed for its size, aligned, begins a new lifetime; a recycled block keeps its capacity, and no other block changes. |
| Heap.Allocator.Recycle | src/runtime/run_alloc.c:173-183 | A recycled block gets a fresh generation, the new size and zeroed bytes, and keeps its capacity. |
| Heap.Allocator.Carve | src/runtime/run_alloc.c:185-212 | A carved block is new, aligned, inside its malloc range and disjoint from all others. |
| Heap.Allocator.Free | src/runtime/run_alloc.c:215-231 | Null is ignored; a block that carries the freed mark is refused and nothing changes; otherwise the current lifetime ends and the block heads the list of its capacity. |
| Heap.Allocator.DoubleFreeDetected | src/runtime/run_alloc.c:215-225 | A second free of an address is detected exactly when the address has not been handed out again since it was last freed. |
| Heap.Allocator.Quarantine | src/runtime/run_alloc.c:226-230 | The freed block keeps a readable header with the freed mark and is on exactly one list. |
| Heap.Allocator.RefCreate | src/runtime/run_alloc.c:275-280 | A reference captures the generation that the history gives its address. |
| Heap.StoreKeeps | src/runtime/run_alloc.c:215-300 | Stores through live pointers change no header, list or generation. |
| Bits.PowerTest | src/runtime/run_alloc.c:160 | x & (x - 1) is zero exactly for powers of two. |
| Bits.AlignUpIsLeastMultiple | src/runtime/run_alloc.c:195-196 | For a power of two the round-up is the least multiple that is not below the value. |
| Bits.MaskIsMod | src/runtime/run_map.c:191 | Masking with 2^k - 1 is the remainder modulo 2^k. |
| Bits.DoubleUpToIs | src/runtime/run_alloc.c:161-165 | Doubling from a power of two stops at the least power of two that is large enough. |
| Slices.New | src/runtime/run_slice.c:15-29 | A new header is current and denotes the empty sequence. |
| Slices.Append | src/runtime/run_slice.c:31-48 | A stale header is detected; otherwise the element sequence gains exactly the element, across growth, and a growing append ends the lifetime of the old array. |
| Slices.Grow | src/runtime/run_slice.c:33-45 | Growth moves the same element sequence to a new, larger array. |
| Slices.MoveElements | src/runtime/run_slice.c:36-41 | The new array holds the same elements, and only then the old one is released. |
| Slices.AppendInPlace | src/runtime/run_slice.c:46-48 | Storing behind the last element appends it and disturbs no other. |
| Slices.Get | src/runtime/run_slice.c:50-57 | Staleness is reported first, then an index out of bounds, otherwise the element of the sequence. |
| Slices.Free | src/runtime/run_slice.c:63-72 | A stale header is detected; otherwise the array's lifetime ends and the header is emptied. |
| Slices.HeaderCheck | src/runtime/run_slice.c:9-13 | The header check passes exactly when the header's generation is its array's live one. |
| Slices.StaysShaped | src/runtime/run_slice.c:9-57 | No allocation, free, store or slice operation invalidates the shape of any header copy, so checking a stale copy is always safe. |
| Slices.StaleHeaderFails | src/runtime/run_slice.c:9-57 | A copy of a header whose array has been released since it was made, by a growing append or a free, fails every later check, however the address is reused. |
| Slices.ElemsAppend | src/runtime/run_slice.c:46-48 | Storing the bytes of one element at the end is appending to the element sequence. |
| Slices.CapacityAndCopies | src/runtime/run_slice.c:33-45 | After n appends from nothing the copies made so far are the capacity less 4, and the capacity is 4 or at most 2(n - 1). |
| Slices.AmortisedCopies | src/runtime/run_slice.c:33-45 | n appends from capacity 0 copy fewer than 2n elements in total. |
| Slices.AppendAll | src/runtime/run_slice.c:31-48 | Appending n elements one by one to a new slice leaves it holding them in order, with the capacity and number of copied elements of the recurrence, so with fewer than 2n copies. |
| GrowableStack.NeverOverflowsIffPowerOfTwo | src/runtime/run_scheduler.c:1718-1731 | For every configured size the runtime accepts: the prologue check never reports overflow for a stack pointer inside the stack, in any commit state, if and only if the size is a power of two and at least one page. |
| GrowableStack.PowerSizePasses | src/runtime/run_scheduler.c:1718-1731 | For a power-of-two size of at least one page, in any commit state, a check at any address passes exactly when the address is at most the headroom above the top; so a stack pointer below the base is never reported. |
| GrowableStack.OtherSizeFails | src/runtime/run_scheduler.c:376-402 | For a size that is not a power of two a check at the base of a fresh stack reports overflow although the stack pointer is inside. |
| GrowableStack.SmallSizeFails | src/runtime/run_scheduler.c:1718-1731 | On a stack smaller than one page every check reports overflow, whatever the stack pointer. |
| GrowableStack.ShrinkHalves | src/runtime/run_scheduler.c:421-458 | Of the clamps in shrinking none is ever taken: a shrink is exactly a halving, and keeps at least twice the page-rounded watermark. |
| GrowableStack.ShrinkKeepsShape | src/runtime/run_scheduler.c:429-447 | The commit stays the initial size times a power of two after a shrink, if and only if not a one-page commit of at least 32 KiB is shrunk with watermark zero. |
| GrowableStack.CommitCovers | src/runtime/run_scheduler.c:388-402 | What growth commits covers the used bytes and one more page. |
| GrowableStack.GrowthIsLeast | src/runtime/run_scheduler.c:386-400 | The grown commit is the least doubling that covers the used bytes and one page more. |
| GrowableStack.ShrinksBack | src/runtime/run_scheduler.c:421-458 | When a stack is used no deeper than d any more, n switches out bring every commit below 2^(n-1) times the bound for d below that bound, whatever the watermark was and whatever growth within d happens in between: one switch forgets, every further one halves. |
| GrowableStack.SettlesFrom | src/runtime/run_scheduler.c:421-458 | Once the watermark is within d, every switch out halves the commit until it is below the bound, and uses within d never bring it back above. |
| GrowableStack.BoundIs | src/runtime/run_scheduler.c:421-458 | The bound is less than four times the larger of 8 KiB and d, both plus a page. |
| GrowableStack.Stack.constructor | src/runtime/run_scheduler.c:291-328 | A new stack of any accepted size has asked for its initial pages below its top. |
| GrowableStack.Stack.RecordSp | src/runtime/run_scheduler.c:363-374 | The watermark becomes the deepest use seen; stack pointers outside are ignored. |
| GrowableStack.Stack.GrowToSp | src/runtime/run_scheduler.c:376-409 | Succeeds exactly when sp is inside and the depth is covered already or the doubled commit fits; then committed, lower bound and mapped addresses agree, otherwise nothing changes. |
| GrowableStack.Stack.MaybeShrink | src/runtime/run_scheduler.c:421-458 | The commit becomes the target and the watermark forgets the past unless the commit is minimal; a shrink halves, keeps twice the floor mapped, and pages in use stay mapped. |
| GrowableStack.Stack.SwitchedOut | src/runtime/run_scheduler.c:907-928 | Records the stack pointer, then shrinks: commit and watermark become exactly what one switch out makes of them (`GrowableStack.ShrinksBack` says what that achieves), and every page in use stays mapped. |
| GrowableStack.Stack.FaultAt | src/runtime/run_scheduler.c:1586-1595 | The fault handler grows to the address, or reports an overflow when it is outside or the doubled commit does not fit. |
| GrowableStack.Stack.Perform | src/runtime/run_scheduler.c:363-458 | Any sequence of prologue checks, faults and switches out changes commit and watermark as the model does, so that `ShrinksBack` holds of the object. |
| GrowableStack.Stack.Check | src/runtime/run_scheduler.c:1718-1731 | The outcome is exactly the clamped check for every stack pointer, inside the stack or not; when no overflow is reported, the memory from one page below the clamped target up to the top is mapped. |
| StealSweep.SweepIsEveryOther | src/runtime/run_scheduler.c:642-677 | For any random starts and node assignment, the two passes try every other P exactly once, all of the same node before the others, and never the thief's own. |
| StealSweep.TrySteal | src/runtime/run_scheduler.c:642-677 | Victims are tried in sweep order up to the first success, which is returned; nothing is returned only after every other P's attempt failed. |
| StealSweep.TryPass | src/runtime/run_scheduler.c:650-676 | One pass tries exactly its own node class, in turn order, and stops at the first success. |
| StealSweep.PassIs | src/runtime/run_scheduler.c:650-676 | A pass tries a P exactly when it belongs to that pass, wherever it starts. |
| StealSweep.PassShape | src/runtime/run_scheduler.c:650-676 | No pass tries a P twice. |
| FormatSpec.ArgumentsAccounted | src/runtime/run_fmt.c:264-475 | For every format string and argument list, verbs print the arguments in order, once each; verbs without an argument print MISSING, max(0, verbs - args) times; arguments without a verb follow as EXTRA, in order, max(0, args - verbs) of them. |
| FormatSpec.FormatIsPieces | src/runtime/run_fmt.c:441-475 | The output of the left-to-right scan is the joined output of the format string's tokens, from any position. |
| FormatSpec.PiecesAccounted | src/runtime/run_fmt.c:264-271 | The same accounting for any token sequence and any number of arguments already used. |
| FormatSpec.EscapeRoundTrip | src/runtime/run_fmt.c:258-262 | A string with every percent sign doubled, formatted without arguments, gives the string back. |
| FormatSpec.BinaryIsValue | src/runtime/run_fmt.c:401-419 | The digits %b prints evaluate to the value, are at most 64, and have no leading zero. |
| FormatSpec.BitsAre | src/runtime/run_fmt.c:401-419 | A value below 2^k prints as at most k binary digits that evaluate to it. |
| FormatSpec.OneVerb | src/runtime/run_fmt.c:205-271 | A verb never consumes more than what is left of the string, and at most the arguments there are. |
| FormatGrammar.SpecIsLongest | src/runtime/run_fmt.c:211-249 | What the scanner takes after a percent sign is the longest prefix made of flags, then digits, then optionally a point and digits. |
| FormatGrammar.WrittenIsRead | src/runtime/run_fmt.c:205-271 | A format string written from literals and verbs, with any flags, width, precision and letter, is read back as exactly those, for every list of them; of a specification the first 27 characters count. |
| FormatGrammar.WrittenIsPrinted | src/runtime/run_fmt.c:441-475 | Formatting such a string prints its literals and, verb by verb, the arguments in order. |
| FormatGrammar.StringIsPadded | src/runtime/run_fmt.c:297-330 | %s under a width gives exactly the missing spaces, behind the string with the minus flag and before it without, and never cuts. |
| FormatGrammar.VerbsAgree | src/runtime/run_fmt.c:276-400 | %v prints what the plain verb of the argument kind prints, and so does %s for all but strings; integer verbs truncate floats, float verbs convert integers, %d takes a Boolean as 1 or 0 and %t an integer as true unless 0. |
| FormatGrammar.NumbersAreRendered | src/runtime/run_fmt.c:281-400 | Each numeric verb hands its own letter and the kept specification to the C library. |
| FormatGrammar.BitsArePrinted | src/runtime/run_fmt.c:401-419 | %b prints the 64-bit two's complement. |
| FormatGrammar.CharsArePrinted | src/runtime/run_fmt.c:420-427 | %c prints one character for a 7-bit code and nothing otherwise. |
| Formatter.FmtBuf.Grow | src/runtime/run_fmt.c:133-148 | Growth keeps the contents and makes the room asked for. |
| Formatter.FmtBuf.Append | src/runtime/run_fmt.c:150-156 | The contents gain exactly the string. |
| Formatter.KeepNext | src/runtime/run_fmt.c:212-248 | A character joins the specification only while it is short enough, so the 32-byte buffer is never exceeded. |
| Formatter.ScanSpec | src/runtime/run_fmt.c:211-249 | The scanning loops end at the model's end of the specification, which is the longest prefix of the grammar (`FormatGrammar.SpecIsLongest`), and keep at most 28 of the 32 bytes. |
| Formatter.FinishSpec | src/runtime/run_fmt.c:281-377 | Completing the specification with its conversion stays inside the 32 bytes and keeps what was scanned. |
| Formatter.ReadAlignment | src/runtime/run_fmt.c:299-311 | The loop reads back left alignment and the decimal width. |
| Formatter.AppendPadded | src/runtime/run_fmt.c:297-325 | %s output is padded with spaces to the width, on the side the alignment flag says, and never cut. |
| Formatter.BinaryDigits | src/runtime/run_fmt.c:401-419 | The backward digit loop stays inside its 65-byte array and yields the binary digits. |
| Formatter.AppendVerb | src/runtime/run_fmt.c:275-435 | The verb switch appends what the specification says for every verb letter and argument kind, in place. |
| Formatter.ProcessVerb | src/runtime/run_fmt.c:205-438 | One verb appends its text and reports what it consumed, NOVERB, MISSING and literal percent included. |
| Formatter.PendingVerb | src/runtime/run_fmt.c:441-466 | Flushing the literal segment and printing a verb leaves the final output of the scan unchanged. |
| Formatter.FormatToBuf | src/runtime/run_fmt.c:441-475 | The segment-flushing driver appends exactly the formatted output, for every format string and argument list. |
| Formatter.AppendExtras | src/runtime/run_fmt.c:468-474 | Left-over arguments are appended in order. |
| Formatter.Sprintf | src/runtime/run_fmt.c:487-492 | The new string is the formatted output. |

## Left out

- Weak memory orders: the atomic steps of the local queue are sequentially consistent, and it has one owner.
- More than one P as a whole system: parking and waking of Ms, system calls, preemption signals and timers, fairness.
  With one P every branch of `run_g_ready` and `run_spawn` that looks for a P ends at that P or at the global queue.
- Pollers, so a loop with nothing runnable never waits for input or output, and spawning onto a chosen NUMA node.
- Context switches, thread-local state, stack guard pages and stack reuse pools.
- Scheduler.Runtime.ExitThread: a dead thread's node is never freed or reused; ids grow without bound.
- Scheduler.Runtime.Receive: the destination that a blocked receiver names is a cell of its node; copying from there into a
  variable of the program is program code.
- Slices.AppendAll: memory is unbounded, so a fresh range for each new array can always be found.
- Channel.Chan.Send, Channel.Chan.Recv, Channel.Chan.Close: elements are values rather than byte strings, and the lock is
  the atomicity of one method call. Freeing a channel is not modelled.
- Main-thread calls that would block on a channel abort in the source; the model has them as outcomes and goes no further.
- RobinMap.RobinMap.constructor: the parallel entries array is merged into the buckets, hash and psl are naturals (psl is
  proved to be below the count), and the hash is any function, so FNV arithmetic is not modelled. Freeing a map and the
  heap buffer for entries above 512 bytes are left out.
- RobinMap.RobinMap.IterNext: returns the entry rather than copying it through two pointers.
- Heap.Allocator.AllocAligned: malloc returns the fresh disjoint range that the caller passes as `raw` and does not fail; size_t
  overflow of huge requests, spin locks, statistics and the switch that turns checks off are left out.
- Heap.Allocator.Quarantine: lists are sequences of addresses; the link word is any 8 bytes in the dead user area.
- Slices.Append: the element is passed by value, so an element pointer into the slice's own old array is not modelled.
- GrowableStack.Stack.constructor: growable stacks are enabled, and mprotect and madvise are updates of the set of addresses
  asked for that do not fail.
- Formatter.AppendVerb: number rendering is an uninterpreted function of the conversion specification and the value; the
  256-byte limit on rendered numbers is not modelled, and floats are reals.
- Formatter.ReadAlignment: the width is an unbounded integer.
- Printing to standard output, metrics, tracing, debugging interfaces, strings and SIMD helpers.
