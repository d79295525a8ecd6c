# The event-loop runtime of the chess server, modelled in Dafny

A model of the parts of the server that hold its hard state, and proofs about them.

| module | what it models |
|---|---|
| `Timespecs` | `struct timespec` arithmetic, with C's `int` width and truncating division made explicit |
| `HeapSpec`, `HeapSteps` | the timer heap as functions on sequences and as a state machine |
| `HeapIndex` | what the sift loops do to the hashtable |
| `HeapRuns` | whole runs of the repaired heap |
| `HeapSlots`, `HeapAsWritten`, `HeapInputs` | the heap as written, with its dead slots and whatever its hashtable has come to: the steps, whole runs, and inputs on which it falls short |
| `TimeHeaps` | the timer heap as it runs: an array sifted in place and a hashtable rewritten at every swap |
| `LiveRoot`, `TimerSteps`, `TimerLoops` | firing, sleeping, pausing and resuming, against any non-decreasing clock: the borrowing root, the steps and their runs, the loop as it runs |
| `QueueProtocol`, `LinkedQueues` | the thread-safe queue: its threads interleaving over a semaphore, and its linked list |
| `Pipeline` | the two queues between the loop thread and the database thread |
| `Framing`, `Connections`, `ConnectionRuns` | length-prefixed reading in pieces, a connection with its growable write buffer, and its whole life |
| `IntVectors`, `ByteShift`, `Broadcast` | the growable int vector, its memmove, and the broadcast that prunes it |

The methods are proved to compute functions on values, and the lemmas are about those functions or
about runs of steps. Where the source keeps state in an object, so does the model; ghost fields
record the history (bytes received and written, timers fired, ints moved) that a property is about,
and `Valid()` ties it to the real fields, so that what `Valid()` says holds over every run.

## Where the code falls short of its intent

The code is modelled as it is, with the exact condition under which its intent is met and an input on
which it is not. Members named `...Repaired` are the same operation with the shortfall mended; the
timer loop is proved on the repaired heap.

- Sift-down tries the right child first (src/time_heap.c:77-96, src/time_heap.c:209-228), and
  removal never sifts up (src/time_heap.c:71-99). A removal keeps heap order exactly when
  `RemovalSafe` holds and an update exactly when `OverwriteSafe` holds: `RemovalOrder`, `ResiftOrder`;
  `ExtractPicksWrongChild`, `UpdatePicksWrongChild`, `RemoveNeverSiftsUp`.
- Removing the last slot writes the removed id back into the hashtable (src/time_heap.c:97). A removal
  by such a stale id takes the timer in its slot (`SecondRemovalTakesAnotherTimer`), or, when the slot
  is past the end, the last timer, since the count goes down before the swap (src/time_heap.c:71;
  `RemovedTwiceTakesTheLast`); in an empty heap the count wraps around (`SecondRemovalWraps`).
- An update by a stale id moves the timer in its slot, or the removed timer in its dead slot, and ends
  by writing the caller's id into the hashtable, not that timer's (src/time_heap.c:189,
  src/time_heap.c:229). The timer it moved is then live but indexed elsewhere
  (`StaleUpdateMisplaces`), and removing it takes another (`MisplacedRemovalTakesAnother`); or the
  removed timer comes back and a live one is gone (`StaleUpdateRevives`).
- So, over every run of calls: `StepIndexesIff` says which steps leave the hashtable right,
  `StepMeantIff` which steps do to the timers what their caller means, `StepRevivesIff` which bring a
  removed timer back. While the hashtable is right, a removal is right exactly when its id is not stale
  (`RemovalMeantIffNotStale`).
- `heap_update` reads child slots without a bound check (src/time_heap.c:203). Its outcome does not
  depend on what it finds there: `TimeHeap.Update`, whose argument `beyond` is that finding.
- `timer_subtract` borrows by writing to its first argument, and `loop_run` passes the live heap root
  (src/loop.c:353): `BorrowsAtMostOnce`, `FiresEarlyIff`, `BorrowedDeadlineFiresEarly`. From then on an earlier deadline can sort
  after the root: `BorrowHidesIff` says which, `InstantOrderIff` when a drain fires out of order for
  it, `WakeIsExact` when the sleep is too long for it, `BorrowedRootHidesEarlierDeadline` gives one.
  The loop model keeps this behaviour.
- A relative update multiplies in an int (src/loop.c:69-79): `TuModifyTimer`, `ManyDaysMoveBack`. So
  does the time spent paused (src/loop.c:226): `ResumedInFullIff`, `LongPauseMovesBack`.
- memmove is given a number of ints where bytes are counted (src/vector.c:40, src/vector.c:53):
  `RemoveIndexClosesIff`, `RemoveClosesIff`, `RemoveLastClosesIff`; `RemoveIndexLosesADescriptor`,
  `RemoveLosesADescriptor`.
- Doubling a 32-bit capacity past 2^31 gives zero and the loop does not end (src/contexts.c:13-15):
  `DoublingEndsIff`, `DoublingNeverReaches`.
- The sum of a frame's length and its header is a uint32_t (src/handlers.c:89), so the four largest
  lengths are dispatched at once; and the read buffer is never grown (src/server.c:47):
  `TakenAsCompleteIff`, `ReadsStayInsideIff`; `WrappingHeader`, `LongFrameAsksTooMuch`.
- An empty message is answered and then never leaves the read buffer, so the next read asks for
  nothing and closes the connection (src/message_handler.c:15-19, src/handlers.c:72):
  `ChunkingIndependent`, `AsksForNothingIff`, `EmptyMessageSticks`. That close can
  come before the error reply is written: `EmptyMessageLosesReply`.
- An empty buffer queued for writing registers write interest with nothing to write
  (src/contexts.c:20): `Connection.Valid` says write interest is registered exactly when bytes are
  pending or an empty buffer was queued.

## Model

| member | source | states |
|---|---|---|
| Timespecs.TimerSubtract | src/loop.c:254-268 | the result is the difference in milliseconds rounded down, through a 32-bit int; it is the exact one if and only if that fits; the first argument keeps its instant but may be left with a borrowed second; for any fields, each difference goes through an int |
| Timespecs.TimerAdd | src/loop.c:273-285 | adds exactly the signed milliseconds, field by field with at most one carry; a normal timer stays normal if and only if the remainder does not push the nanoseconds below zero |
| Timespecs.TuModifyTimer | src/loop.c:49-81 | adds exactly the signed amount if and only if the multiplied-up int fits 32 bits; normal timers stay normal, and only milliseconds touch the nanoseconds |
| Timespecs.UnitsAgree | src/loop.c:53-79 | a second is 1000 milliseconds, a minute 60 seconds, an hour 60 minutes, a day 24 hours, and a millisecond 1000000 nanoseconds |
| Timespecs.ThirtySecondsOn | src/loop.c:65-66 | thirty seconds from 100 s is 130 s |
| Timespecs.MovedBackAndForth | src/loop.c:243-249 | two relative updates, by t and by -t, restore a normal deadline whenever the first one fits an int and -t is one |
| Timespecs.ManyDaysMoveBack | src/loop.c:77-79 | an update by 24856 days, more than an int of seconds, moves the deadline back by 24854 days |
| HeapSpec.SiftUpSameTimers | src/time_heap.c:126-140 | sifting up keeps every timer under its id |
| HeapSpec.SiftDownSameTimers | src/time_heap.c:73-99 | sifting down keeps every timer under its id |
| HeapSpec.SiftUpOrders | src/time_heap.c:126-140 | sifting up restores heap order when only the new element is out of place |
| HeapSpec.SiftDownOrdersIff | src/time_heap.c:73-99 | the right-child-first sift-down restores heap order if and only if, along its descent, the right child is only passed when it is no larger than the left |
| HeapSpec.SiftDownCannotRise | src/time_heap.c:71-99 | an element moved in below a larger parent stays there and leaves the heap out of order |
| HeapSpec.SiftDownRepairedOrders | src/time_heap.c:73-99 | choosing the smaller child always restores heap order |
| HeapSpec.RootIsMinimum | src/time_heap.c:158-164 | in an ordered heap slot 0 is no later than any other |
| HeapSpec.Log2Bounds | src/time_heap.c:30-37 | the depth bound used for swaps is the floor of the binary logarithm |
| HeapSteps.ExactMeansNoStale | src/time_heap.c:39-66 | the hashtable is the exact inverse of the array if and only if it knows no stale id |
| HeapSteps.AddEffect | src/time_heap.c:114-141 | adding inserts exactly one entry, under an id not live before, and no stale id appears |
| HeapSteps.AddKeepsOrder | src/time_heap.c:126-140 | adding keeps heap order |
| HeapSteps.RemoveIndexEffect | src/time_heap.c:68-100 | removal as written deletes exactly the entry of its slot, keeps positions right, and makes its id stale if and only if the slot was the last |
| HeapSteps.RemovalOrder | src/time_heap.c:68-100 | removal as written keeps heap order if and only if the slot is the last, or the moved-in timer is no earlier than its parent and descends safely |
| HeapSteps.RemoveIndexOrder | src/time_heap.c:68-100 | the same for the removal step of a heap whose hashtable is right |
| HeapSteps.RemoveIndexRepairedEffect | src/time_heap.c:68-100 | the repaired removal deletes exactly the entry of its slot and makes no id stale |
| HeapSteps.RemoveIndexRepairedKeepsOrder | src/time_heap.c:68-100 | the repaired removal keeps heap order |
| HeapSteps.UpdateEffect | src/time_heap.c:175-233 | updating changes exactly one deadline and keeps positions right |
| HeapSteps.ResiftOrder | src/time_heap.c:175-233 | overwriting a deadline and sifting as written keeps heap order if and only if it is earlier than the parent's or descends safely |
| HeapSteps.UpdateOrder | src/time_heap.c:175-233 | the same for the update step of a heap whose hashtable is right |
| HeapSteps.UpdateRepairedEffect | src/time_heap.c:175-233 | the repaired update changes exactly one deadline |
| HeapSteps.UpdateRepairedKeepsOrder | src/time_heap.c:175-233 | the repaired update keeps heap order |
| HeapIndex.IndexFollowsSwap | src/time_heap.c:81-82 | re-indexing the other timer and exchanging the slots leaves only the sifted timer's entry out of date |
| HeapIndex.IndexComplete | src/time_heap.c:97 | a hashtable right but for the sifted timer is made whole by its last write |
| HeapIndex.IndexUpRight | src/time_heap.c:126-140 | a sift-up ends where the walk up says, keeps the other entries right, and writes the caller's id there, the sifted timer's own entry staying as it was when that is another id |
| HeapIndex.TakesTheHeadIff | src/time_heap.c:126-140 | a sift-up reaches the head if and only if its timer is no later than the head: of equal deadlines the last one added comes first |
| HeapIndex.IndexDownRight | src/time_heap.c:73-99 | the same for the right-child-first sift-down |
| HeapIndex.IndexUpPositions | src/time_heap.c:126-140 | with the sifted timer's own id, a sift-up makes the hashtable the inverse of the array |
| HeapIndex.IndexDownPositions | src/time_heap.c:73-99 | so does the sift-down |
| HeapSlots.StepKeepsIntact | src/time_heap.c:68-243 | every call, whatever ids are used and whatever the hashtable says, keeps each id in one slot and every hashtable entry on a slot that exists |
| HeapSlots.AddTimers | src/time_heap.c:114-141 | adding inserts exactly one entry under a fresh id, whatever the hashtable says |
| HeapSlots.RemoveTimers | src/time_heap.c:68-100 | a removal at a slot of the heap deletes its timer, at a dead slot the last timer, and no other |
| HeapSlots.UpdateTimers | src/time_heap.c:175-233 | an update through a slot of the heap changes the deadline of the timer there and no other |
| HeapSlots.DeadUpdateTimers | src/time_heap.c:175-196 | an update through a dead slot leaves the heap alone, or brings the timer there into it and drops the timer of the slot above |
| HeapSlots.StepAsWrittenOrder | src/time_heap.c:68-243 | which calls break heap order: exactly the unsafe ones; through a dead slot none does |
| HeapSlots.RemoveIsStep | src/time_heap.c:68-100 | with the hashtable right, a removal is the step of an indexed heap |
| HeapSlots.UpdateIsStep | src/time_heap.c:175-233 | so is an update of a live id |
| HeapAsWritten.IndexesIsIndexed | src/time_heap.c:39-66 | a reachable state whose hashtable is right is such an indexed heap |
| HeapAsWritten.RemovalMeantIff | src/time_heap.c:143-156 | in any state, removing by id removes that timer and no other if and only if the slot it empties holds that id, or the id is unknown and not live |
| HeapAsWritten.UpdateMeantIff | src/time_heap.c:175-233 | in any state, an update changes that timer's deadline and nothing else if and only if its slot holds that id, or it changes no deadline and leaves the id with the one asked for |
| HeapAsWritten.StepMeantIff | src/time_heap.c:68-243 | a call refines the finite map from id to deadline if and only if it is such a removal or update, or an add or an extract |
| HeapAsWritten.RemovalMeantIffNotStale | src/time_heap.c:143-156 | with the hashtable right, a removal does what its caller means if and only if the id is not stale |
| HeapAsWritten.UpdateMeantWhenLive | src/time_heap.c:175-233 | with the hashtable right, an update of a live id always does; through a stale id only if it changes no deadline, or its dead timer stays out of the heap |
| HeapAsWritten.StepIndexesIff | src/time_heap.c:68-243 | a call breaks a right hashtable if and only if it is an update that leaves another timer than the caller's in a slot of the heap its entry does not name |
| HeapAsWritten.StepRevivesIff | src/time_heap.c:68-243 | a removed timer comes back if and only if an update goes through its dead slot and its timer rises into the heap |
| HeapAsWritten.AsWrittenRunRefines | src/time_heap.c:68-243 | over every run of calls as written, which steps refine the finite map |
| HeapAsWritten.AsWrittenRunIndexed | src/time_heap.c:68-243 | over every run the positions are right up to a step if and only if no step before it misplaced a timer |
| HeapAsWritten.AsWrittenRunOrdered | src/time_heap.c:68-243 | over every run the heap is in order up to a step if and only if every step before it was safe |
| HeapRuns.RepairedRunRefines | src/time_heap.c:68-243 | every run of the repaired heap refines the map, with heap order, an exact hashtable, and the earliest deadline in slot 0 and extracted first |
| HeapRuns.RemovedStaysRemoved | src/time_heap.c:121-125 | over every run of the repaired heap a removed id is never issued again |
| HeapAsWritten.RemovedStaysRemoved | src/time_heap.c:121-125 | over every run an id that is gone is never issued again, and stays gone if and only if no step revives it |
| HeapInputs.ExtractPicksWrongChild | src/time_heap.c:77-96 | deadlines 1, 2, 3, 9 become 3, 2, 9, and the loop can sleep beside an overdue timer |
| HeapInputs.UpdatePicksWrongChild | src/time_heap.c:205-228 | moving the head of 1, 2, 3 to 9 leaves 3, 2, 9 |
| HeapInputs.RemoveNeverSiftsUp | src/time_heap.c:71-99 | removing slot 3 of 1, 10, 2, 11, 12, 3, 4 puts 4 under 10 |
| HeapInputs.SecondRemovalTakesAnotherTimer | src/time_heap.c:143-156 | add, remove, add, remove the first id again: the second timer is deleted |
| HeapInputs.TwoThenOne | src/time_heap.c:68-156 | add two timers and remove the second: its element and its hashtable entry stay behind |
| HeapInputs.SecondRemovalWraps | src/time_heap.c:71 | add, remove, remove the same id again: the count of timers wraps around |
| HeapInputs.RemovedTwiceTakesTheLast | src/time_heap.c:71 | two timers, the second removed twice: the first is deleted too, and its id is stale |
| HeapInputs.ThirdInItsSlot | src/time_heap.c:114-141 | a third timer added then takes over the slot that the stale id names |
| HeapInputs.StaleUpdateMisplaces | src/time_heap.c:175-195 | add 1, add 2, remove the second, add 3, move the removed one to 0: timer 2 rises to slot 0 and the hashtable has it in slot 1 |
| HeapInputs.MisplacedRemovalTakesAnother | src/time_heap.c:143-156 | removing timer 2 then deletes timer 0 |
| HeapInputs.StaleUpdateRevives | src/time_heap.c:175-195 | add 5, add 7, remove the second, move it to 3: it is back in the heap and the first one is gone |
| TimeHeaps.TimeHeap.constructor | src/time_heap.c:102-112 | an empty heap of capacity 32 with no dead slots |
| TimeHeaps.TimeHeap.Exchange | src/time_heap.c:79-84 | one level of a sift, in the array and in the hashtable: the whole new state |
| TimeHeaps.TimeHeap.SiftUpLoop | src/time_heap.c:126-140 | the in-place loop computes the sift-up of all slots, from one of the heap or a dead one, and its hashtable, and swaps at most once per level |
| TimeHeaps.TimeHeap.SiftDownLoop | src/time_heap.c:73-99 | the in-place loop computes the right-child-first sift-down and its hashtable, leaves the dead slots alone, and swaps at most once per level |
| TimeHeaps.TimeHeap.SiftDownLoopRepaired | src/time_heap.c:73-99 | the in-place loop computes the smaller-child sift-down and its hashtable, with the same swap bound |
| TimeHeaps.TimeHeap.Add | src/time_heap.c:114-141 | the whole new state whatever the hashtable says, first dead slot overwritten; a full array doubles and no other changes its capacity; the new id; at most floor(log2 n) swaps |
| TimeHeaps.TimeHeap.RemoveIndex | src/time_heap.c:68-100 | the whole new state as written, for a slot of the heap or a dead one; at most floor(log2 n) swaps besides the first |
| TimeHeaps.TimeHeap.ResiftRepairedAt | src/time_heap.c:179-232 | an overwritten slot is sifted up or down to the smaller child, and the hashtable ends as the inverse of the array |
| TimeHeaps.TimeHeap.RemoveIndexRepaired | src/time_heap.c:68-100 | the whole new state of the repaired removal, with the same swap bound |
| TimeHeaps.TimeHeap.Remove | src/time_heap.c:143-156 | the whole new state for every id, whatever the hashtable says; whether the count wrapped; the same swap bound |
| TimeHeaps.TimeHeap.RemoveRepaired | src/time_heap.c:143-156 | the whole new state of the repaired removal by id, with the same swap bound |
| TimeHeaps.TimeHeap.Extract | src/time_heap.c:240-243 | the whole new state after removing slot 0, with the same swap bound |
| TimeHeaps.TimeHeap.ExtractRepaired | src/time_heap.c:240-243 | the whole new state of the repaired extraction, with the same swap bound |
| TimeHeaps.TimeHeap.Update | src/time_heap.c:175-233 | the whole new state for every id the hashtable knows, live or stale, whatever the comparisons past the end of the heap see; at most floor(log2 n) swaps, or one per level above a dead slot |
| TimeHeaps.TimeHeap.UpdateRepaired | src/time_heap.c:175-233 | the whole new state of the repaired update, with the same swap bound |
| TimeHeaps.TimeHeap.Get | src/time_heap.c:235-238 | the deadline stored for a live id |
| LiveRoot.BorrowsAtMostOnce | src/loop.c:254-268 | over any run of sleeps an untouched deadline keeps its instant and lends at most one second, exactly when some reading had more nanoseconds |
| LiveRoot.FiresEarlyIff | src/loop.c:353 | exactly which readings make such a deadline fire early, by at most its own nanoseconds |
| LiveRoot.BorrowedDeadlineFiresEarly | src/loop.c:353 | a timer due at 5.9 s and slept for at 3.95 s fires at 5.2 s |
| LiveRoot.BorrowKeepsOrder | src/loop.c:353 | the borrow at the root keeps heap order |
| LiveRoot.HidesIff | src/time_heap.c:8-11 | the order of fields and the order of instants differ exactly when the first deadline lent a second and the other lies in that second, before it |
| LiveRoot.BorrowHidesIff | src/loop.c:256-262 | which deadlines a sleep's borrow puts behind a later root: exactly those in the root's own second with fewer nanoseconds; none that was already ordered behind it |
| LiveRoot.BorrowedRootHidesEarlierDeadline | src/loop.c:353 | one such pair: a deadline added after the borrow sorts below the root and is 0.8 seconds earlier |
| TimerSteps.FiresNoMoreThanASecondEarly | src/loop.c:336-349 | the reading that found a timer late lies within the drain, less than a second before its deadline at the earliest, and after it when nothing was borrowed |
| TimerSteps.BurstGrows | src/loop.c:336-349 | firing the earliest timer keeps the drain in deadline order, everything live no earlier, and every reading between the start and now |
| TimerSteps.SleepFromHead | src/loop.c:351-354 | a head not late at the peek gives the exact sleep, not negative, less than a millisecond short of the head, and nothing left is late at the peek |
| TimerSteps.WakeIsExact | src/loop.c:351-354 | which deadlines left the sleep overshoots: exactly those the head hides by more than the rounded-off part of a millisecond |
| TimerSteps.ParkedSleep | src/loop.c:353 | the sleep against a parked head, and exactly when it is negative, so that it lasts until something happens |
| TimerLoops.TimerLoop.CheckHead | src/loop.c:332-355 | one pass: the head fires on a reading between the start and now and is removed, or the sleep is computed on the live root |
| TimerLoops.TimerLoop.TimerCheck | src/loop.c:331-359 | the drain ends; the timers it fires are exactly those late at the last reading, in deadline order, each on a reading within the drain and once over the whole run; the others stay, and none of them is late |
| TimerSteps.DrainKeepsInstants | src/loop.c:331-359 | a drain leaves exactly the timers not late, moves no instant, and leaves every deadline at most one borrowed second |
| TimerSteps.InstantOrderIff | src/loop.c:331-359 | a drain fires in the order of the instants if and only if no late timer hides another |
| TimerSteps.DrainSparesParked | src/loop.c:209-217 | a drain fires a parked timer if and only if the clock has reached 2^32 seconds; before that it stays parked |
| TimerLoops.TimerLoop.PeekHead | src/time_heap.c:158-164 | whether a fresh reading is past the head |
| TimerLoops.TimerLoop.PeekById | src/time_heap.c:166-173 | whether a fresh reading is past a live timer |
| TimerLoops.TimerLoop.SubtractFromRoot | src/loop.c:353 | the sleep, and the borrow it writes into the stored root |
| TimerLoops.TimerLoop.FireHead | src/loop.c:338-348 | the fired timer is removed, since a later reading still finds it late |
| TimerLoops.TimerLoop.AddTimer | src/loop.c:176-185 | exactly one new timer, under the next id |
| TimerSteps.AddedNeverLiveBefore | src/loop.c:176-185 | over every run of the loop the id of a new timer was never live before |
| TimerLoops.TimerLoop.AddTimerRelative | src/loop.c:187-194 | a new id whose deadline is the reading moved by the amount, if and only if the amount fits |
| TimerLoops.TimerLoop.RemoveTimer | src/loop.c:196-200 | exactly that timer goes |
| TimerLoops.TimerLoop.UpdateTimer | src/loop.c:202-205 | exactly that deadline changes |
| TimerLoops.TimerLoop.UpdateTimerRelative | src/loop.c:243-249 | the deadline moves by exactly the amount if and only if it fits |
| TimerLoops.TimerLoop.PauseTimer | src/loop.c:207-218 | the pause step: the deadline and the reading are saved and the timer is parked, and nothing else changes |
| TimerLoops.TimerLoop.UnpauseTimer | src/loop.c:220-232 | the resume step: the saved deadline, borrowed second or not, moves by the whole milliseconds paused through an int, and nothing else changes |
| TimerLoops.TimerLoop.GetTimeRemaining | src/loop.c:234-241 | the milliseconds left, rounded down, through a 32-bit int, for every deadline |
| TimerSteps.PausedSortsLast | src/loop.c:209-212 | a parked timer sorts after every deadline before 2^32 seconds |
| TimerSteps.ParkedNeverFires | src/loop.c:207-218 | over every run of the loop a parked timer that is not resumed or changed stays parked and is in no drain, while the clock is below 2^32 seconds |
| TimerSteps.ResumedInFullIff | src/loop.c:220-232 | the time spent paused is added in full if and only if it fits an int of milliseconds |
| TimerSteps.LongPauseMovesBack | src/loop.c:226 | a pause of 2^31 milliseconds moves the deadline back by as much |
| TimerSteps.StepLoss | src/loop.c:207-232 | each step of the loop costs a timer the time it ran unpaused, and a resume at most a millisecond less one nanosecond |
| TimerSteps.PausesLoseUnderAMillisecondEach | src/loop.c:220-232 | over every run of the loop, drains and steps on other timers included, k pauses that each fit an int cost a timer between nothing and k times a millisecond less one nanosecond of running time |
| QueueProtocol.StepInv | src/queue.c:17-65 | each atomic step of any thread keeps the semaphore law and the order of items |
| QueueProtocol.SemaphoreLaw | src/queue.c:17-65 | over every run and any number of threads: tokens minus items equals tokenless takes minus wasted tokens, and is not negative; retries never exceed tokenless takes; taken items and the list are the linked items in order |
| QueueProtocol.RunAccounted | src/queue.c:17-65 | over every run and any number of threads: the semaphore is the posts less the waits and the tries that found a token; a take goes without a token exactly when its try found none; every call begun ends as it should, a blocking dequeue only with an item |
| QueueProtocol.TokensMatchItems | src/queue.c:17-65 | between calls, if every try that found no token found no item either, the semaphore is the number of items |
| QueueProtocol.NoLostWakeup | src/queue.c:29-41 | with no post outstanding and no token held, a consumer asleep beside a non-empty queue can go on |
| QueueProtocol.RetryUnreachable | src/queue.c:37-40 | in every run with no try-dequeue the retry branch cannot be taken |
| QueueProtocol.RetryHappens | src/queue.c:51-57 | with a try-dequeue in the mix it can |
| LinkedQueues.LinkedQueue.Link | src/queue.c:20-29 | the item goes to the end, and the tail is only dereferenced when it is a node of the list |
| LinkedQueues.LinkedQueue.TakeHead | src/queue.c:36-46 | the first item is taken and its node freed; an emptied list leaves the tail on a freed node |
| LinkedQueues.LinkedQueue.Enqueue | src/queue.c:17-31 | the item goes to the end and one token is posted |
| LinkedQueues.LinkedQueue.TryDequeue | src/queue.c:51-65 | the first item or nothing, whatever the semaphore says; its node and no other is freed |
| LinkedQueues.LinkedQueue.Dequeue | src/queue.c:33-49 | a lone consumer gets the first item when there are an item and a token, and its node is freed; otherwise it uses up the tokens without touching the list |
| Pipeline.PipeStepInv | src/database.c:55-226 | each step of either thread keeps operations, callbacks and both queues in step |
| Pipeline.PipelineConserves | src/database.c:61-226 | over every run: callbacks run, callbacks pending, the operation held and the database queue are the operations issued, in order; the database thread never retries |
| Pipeline.HistoryIsSteps | src/database.c:55-152 | over every run the operations linked are those issued, and the results linked those the database returned, in order |
| Pipeline.CallbackGetsItsResult | src/database.c:55-152 | over every run the j-th callback is that of the j-th operation issued, with the j-th result the database returned |
| Pipeline.ResultIsOfItsOperation | src/database.c:107-152 | the database returns its j-th result while its thread holds the j-th operation issued |
| Pipeline.UsefulStepsRunOut | src/database.c:107-226 | no step but a new operation takes the pipeline further from having called everything back, idle polls included; a useful step brings it strictly nearer, a new operation at most nine further |
| Pipeline.SomeStepIsUseful | src/loop.c:319-327 | while anything is outstanding some such step can be taken: the two threads never block each other |
| Pipeline.DrainBounded | src/database.c:107-226 | in every continuation, with any idle polls and k new operations, the useful steps are at most what remained plus 9k |
| Pipeline.TurnsAreUseful | src/loop.c:319-327 | while anything is outstanding, any step of the database thread is useful, and while that thread sleeps any step of the loop but a new operation |
| Pipeline.TurnsDeliver | src/database.c:55-226 | however the threads are scheduled, once such turns outnumber what remained plus 9k, there was a moment when every operation issued had been called back, in order |
| Pipeline.BothCanStep | src/loop.c:319-327 | while an operation waits to be performed the database thread sleeps only until the loop posts, and the loop can always post or poll |
| Pipeline.TriggerNears | src/database.c:107-226 | each step of the database thread brings every operation nearer to its callback being triggered, and no step takes one further |
| Pipeline.OperationIsCalledBack | src/database.c:55-226 | however many operations follow it: after so many steps of the database thread, and then two polls for each callback up to it, an operation has been called back, in its place |
| Pipeline.StuckMeansDelivered | src/database.c:55-59 | when no such step is left, every operation issued was called back, in order |
| Pipeline.EveryOperationIsCalledBack | src/database.c:55-226 | from every reachable state the two threads can get there by useful steps alone |
| Framing.DecodeEncode | src/handlers.c:71 | the big-endian length round-trips |
| Framing.FrameHead | src/client.py:52-54 | frames are self-delimiting |
| Framing.FeedInv | src/handlers.c:65-93 | each read that stays inside the buffer keeps: bytes received are the frames dispatched and then the buffer, which holds part of one frame; nothing is carried past a dispatched one |
| Framing.ChunkingPrefix | src/handlers.c:65-93 | for every stream of messages that fit the read buffer and every cutting of it into reads, what was dispatched so far is the first messages sent and the buffer stays within the next frame |
| Framing.ChunkingIndependent | src/message_handler.c:8-19 | once everything was read, everything was dispatched and the buffer is empty if and only if no message was empty |
| Framing.AsksForNothingIff | src/handlers.c:67-73 | a read asks for no bytes exactly after an empty message |
| Framing.AsksForTheRestIff | src/handlers.c:67-73 | a read asks for the rest of the header, then of the message: it is complete if and only if all that was asked for came |
| Framing.EmptyMessageSticks | src/message_handler.c:15-19 | an empty message leaves its header in the buffer, nothing dispatched, and no byte asked for |
| Framing.TakenAsCompleteIff | src/handlers.c:89 | the 32-bit test for a complete frame is right if and only if the length is below 2^32 - 4 |
| Framing.WrappingHeader | src/handlers.c:89 | the header of 2^32 - 4 alone is taken for a complete frame |
| Framing.ReadsStayInsideIff | src/handlers.c:67-79 | the reads for a frame stay inside the 4096-byte buffer if and only if its message is at most 4092 bytes |
| Framing.LongFrameAsksTooMuch | src/handlers.c:71-78 | after the header of a 4093-byte message the read asks for exactly one byte more than there is room for |
| Connections.DoublingEndsIff | src/contexts.c:13-15 | the doubling loop ends if and only if the bytes needed are at most 2^31 |
| Connections.DoublingNeverReaches | src/contexts.c:13-15 | 2^31 + 1 bytes: no number of doublings of a fresh capacity is enough, and one doubling of 2^31 is zero |
| Connections.GrownToTwice | src/contexts.c:13-15 | growing for a smaller need first ends at the same capacity |
| Connections.DoublingCapacity | src/contexts.c:14 | which capacities double exactly, and which one wraps to zero |
| Connections.Connection.GrowWriteBuffer | src/contexts.c:12-17 | the capacity is the first doubling that suffices, less than twice what is needed, and the pending bytes are kept |
| Connections.Connection.constructor | src/server.c:45-55 | a fresh connection: nothing read, nothing pending, 4096 bytes of write buffer, registered for reading; the whole state |
| Connections.Connection.QueueWrite | src/contexts.c:11-21 | the buffer joins the pending bytes, the capacity is the first doubling that suffices, write interest is registered, and nothing else changes; written and pending bytes stay the bytes queued |
| Connections.Connection.WriteHandler | src/handlers.c:105-147 | the whole new state: the written prefix leaves the pending bytes; the connection closes drained exactly when they are used up and closing was asked for, is lost exactly at an error; write interest ends when they are used up |
| Connections.Connection.ReadHandler | src/handlers.c:49-103 | every read the kernel may return: whether the source leaves the read buffer, and if not the whole new state; a good or partial frame changes the reader and nothing else |
| Connections.Connection.MessageHandler | src/message_handler.c:8-159 | the whole new state: a complete frame is dispatched and removed; an empty one stays, and is answered and marked for closing like an unknown one; a good one changes the reader and nothing else |
| Connections.Connection.Serve | src/message_handler.c:21-159 | the whole new state after a non-empty message: dispatched, answered if its type is unknown, removed |
| Connections.Connection.ReadWriteHandler | src/handlers.c:149-177 | the whole new state for each event; exactly which events lose the connection, and that only a write event that uses up the pending bytes closes it drained |
| ConnectionRuns.StepKeeps | src/handlers.c:49-177 | every buffer queued and every event keeps: bytes written and pending are the bytes queued in order, write interest matches them, a drained close has nothing pending, and the reader is in order |
| ConnectionRuns.RunBalanced | src/handlers.c:49-177 | so over every run from a fresh connection |
| ConnectionRuns.InterestFollowsPending | src/contexts.c:11-21 | over every run in which no empty buffer is queued, an open connection is registered for writing if and only if bytes are pending |
| ConnectionRuns.StepOnward | src/handlers.c:49-177 | which steps lose the connection, exactly; histories and capacity only grow, and closing is never taken back |
| Connections.EmptyMessageLosesReply | src/message_handler.c:15-19 | an empty message: the next read closes the connection with the error reply unwritten |
| IntVectors.EachOperationPays | src/vector.c:17-54 | each operation's reallocation is paid for by the potentials and three ints, whether whole allocations or values in use are counted |
| IntVectors.ResizesIff | src/vector.c:17-35 | the capacity changes exactly when an append finds the vector full, and doubles, or a pop leaves less than a third in use, and halves |
| IntVectors.ShrinkPays | src/vector.c:30-33 | a shrinking pop leaves room for its values in at least one slot, and its move is paid for |
| IntVectors.AmortisedCost | src/vector.c:6-54 | any n operations on a fresh vector of capacity c move at most 3n + c ints in reallocations, whole allocations or values in use counted, and keep count within a capacity of at least one |
| IntVectors.IntVector.Realloc | src/vector.c:20 | the values are kept and the ints moved are counted |
| IntVectors.IntVector.Append | src/vector.c:17-23 | the value goes to the end |
| IntVectors.IntVector.Pop | src/vector.c:25-35 | the last value is taken, or there is none |
| IntVectors.IntVector.Remove | src/vector.c:37-46 | the rightmost matching entry goes, or none matches |
| IntVectors.IntVector.RemoveIndex | src/vector.c:48-54 | the entry at the index goes, if there is one |
| IntVectors.IntVector.New | src/vector.c:6-15 | no vector if and only if the capacity is zero |
| ByteShift.ShiftBytesIff | src/vector.c:53 | moving that many bytes closes the gap if and only if the bytes past them already equal those one int later |
| ByteShift.ShiftIntsIff | src/vector.c:53 | in ints, for any values: moving that many bytes closes the gap if and only if from where they end each int equals the next, the first of them above the bytes moved |
| ByteShift.RemoveIndexClosesIff | src/vector.c:48-54 | the condition for the index removal, for any values, repeated ones included |
| ByteShift.RemoveClosesIff | src/vector.c:40 | the condition for the value removal of an entry before the last, for any values |
| ByteShift.DistinctEqualBeyond | src/vector.c:37-54 | among distinct values either removal is right if and only if the entry is the last, or the last but one and the two ints agree above the bytes moved |
| ByteShift.RemoveLastClosesIff | src/vector.c:40 | for the last entry it stays inside the allocation if and only if the vector is not full, and then does no harm |
| ByteShift.RemoveIndexLosesADescriptor | src/vector.c:48-54 | removing the first of 3, 4, 5, 6 leaves 4, 4, 5 |
| ByteShift.RemoveLosesADescriptor | src/vector.c:37-46 | removing the first of 3, 4, 5 by value leaves 4, 4 |
| Broadcast.LiveOnlyCounts | src/contexts.c:39-51 | the filtered vector holds each live descriptor as often as before and no other |
| Broadcast.ProgressGoesOn | src/contexts.c:40-50 | one turn of the loop carries the filtered prefix and the whole state of each connection one descriptor further |
| Broadcast.NotifyOne | src/contexts.c:45-49 | exactly one connection is queued the buffer; the whole state of every other one stays |
| Broadcast.Visit | src/contexts.c:41-49 | one turn: the descriptor is dropped, no connection is touched and the wrapping index comes back to the same place, or exactly its connection is queued the buffer |
| Broadcast.QueueTimesAppends | src/contexts.c:11-21 | queueing a buffer n times is queueing its n copies at once, capacity included |
| Broadcast.Advance | src/contexts.c:40-50 | one turn within a broadcast touches only a connection that occurred in the vector from the start |
| Broadcast.VectorQueueWrite | src/contexts.c:39-51 | the loop ends; the vector is the order-preserving filter of its live descriptors, each connection's pending bytes gain the buffer once per occurrence and nothing else of it changes, and a connection that does not occur is not touched |

## Left out

- TimerLoops.TimerLoop.TimerCheck: runs on the repaired heap, and its callbacks do not alter timers; on the heap as written the order of firing is only as good as `StepAsWrittenOrder` says.
- TimerLoops.TimerLoop.PauseTimer: pausing a paused timer overwrites its saved deadline, as in the source; the pause properties are for timers not already paused.
- TimerSteps.SleepFromHead: that the sleep ends by the head is only claimed when the time to it fits an int of milliseconds; otherwise only its wrapped value is.
- TimeHeaps.TimeHeap.Remove: nothing is said after the count of timers has wrapped around; the source then swaps with memory outside the array.
- TimeHeaps.TimeHeap.Update: for ids the hashtable knows; an unknown id makes the source write outside the array.
- TimeHeaps.TimeHeap.Get: for live ids of a heap whose hashtable is right; a stale id reads the deadline of whatever its slot holds.
- Timespecs.TuModifyTimer: signed overflow, undefined in C, is taken to wrap; 64-bit seconds are unbounded.
- IntVectors.IntVector.RemoveIndex: shifts whole ints, as intended; `ByteShift` has the bytes as written, on a little-endian machine with 4-byte ints.
- IntVectors.IntVector.Remove: shifts whole ints, as intended; `ByteShift` has its bytes too.
- Broadcast.VectorQueueWrite: prunes with the intended shift, and needs room below 2^31 bytes for every copy.
- Connections.Connection.ReadHandler: nothing is said after the source has left the read buffer.
- Framing.ChunkingIndependent: for messages of at most 4092 bytes, those that fit the read buffer.
- Connections.Connection.MessageHandler: which message types are known, and what their handlers do, is left to the caller; their replies are further calls of `QueueWrite`.
- LinkedQueues.LinkedQueue.Dequeue: returning nothing stands for blocking in sem_wait.
- Sockets, epoll, signals, MongoDB, BSON, OpenSSL and the generated serialisers: foreign code; reads and writes transfer what the caller says, and database results are opaque.
- Waking the loop by SIGUSR1: a signal between the drain and epoll_wait does not interrupt the wait, so delivery is claimed while both threads keep stepping, not promptness.
- The callback table beside the heap (`timer_map`, with 32-bit keys) and what stays in it after a timer fires.
- Shutdown and memory reclamation, including the null operation that ends the database thread.
- Game invites, login, registration, subscriptions, tokens and random bytes: unfinished or easy.
