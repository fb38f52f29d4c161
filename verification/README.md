# Proofs about the concurrent and bit-level cores of WTF

This project models the hard algorithms of the vendored WTF library in Dafny and proves what they promise:
the lock protocols of the toy locks, the thread that starts and stops itself, the bounded queue test, the
concurrent bitmap, the two packed sets of bits, the bump allocator, the backwards graph, the bubble sort, the two
Bloom filters and the compile-time merge sort. `dafny verify dfyconfig.toml` checks everything.

## How the models are built

**Protocols.** `ThreeStateLocks` (ThunderLock and CascadeLock), `BargingLock`, `HandoffLock`, `BoundedQueue`,
`AutomaticThreads` and `ConcurrentBitmap` are transition systems. A state holds the shared word or queue and one
program counter for each of any number of threads; `Step` makes one atomic access of one thread, or one region under
the lock; a schedule is a sequence of moves and `Schedules.Run` folds `Step` over it. A theorem about every reachable
state is therefore a theorem about every interleaving. A move also carries what the thread does not control: whether a
weak compare-exchange fails for no reason, which sleeper a condition wakes, whether a sleeper wakes up by itself, and
what the virtual methods of a subclass answer. "No wakeup is lost" is stated twice for each lock: as an invariant of
the state, and as `LockerCanLock`, which says that from every reachable state some schedule gives the lock to any
thread of our choice that is in `lock()`, asleep or not. What a thread does when no other one moves is known to the
access: `LoneLockerParks`, `LoneLockerTakes`, `LoneUnlock`. For the queue `Complete` is stronger: every scheduler,
however unfair, ends the test if it makes only finitely many spurious wakeups. `QueueLimits` says when that end is a
crash, because a buffer cannot grow; `GrowingBuffers` has the two buffers.

**Objects.** `Vector`, `Deque`, `BitVector`, `Bitmap`, `BloomFilter`, `CountingBloomFilter`, `BumpPointerPool`,
`BumpPointerAllocator`, `BackwardsGraph`, `GraphNodeWorklist`, `AutomaticThread` and `AutomaticThreadCondition` are
classes whose methods update their fields and arrays as the originals do. A machine word is a sequence of bits, lowest
first, and `PackedSets.Members` is the set of numbers in a sequence of words; each method of a packed set is proved
against an operation on that set. The bubble sort works in place on an array. The compile-time lists are sequences.

**Assumptions.** Atomic accesses are sequentially consistent. The parking lot and the condition variable are taken by
contract: `compareAndPark` tests the word and queues the thread in one step (Source/WTF/wtf/ParkingLot.cpp:561-657),
`unparkOne` dequeues the first sleeper, and its callback runs with the bucket still locked
(Source/WTF/wtf/ParkingLot.cpp:702-744), `unparkAll` wakes every sleeper (Source/WTF/wtf/ParkingLot.cpp:746-792), and
a wait releases the lock and sleeps in one step (Source/WTF/wtf/Condition.h:184-207). `HandoffLock` has fewer than
2^31 threads. All threads of the queue test can be created, and memory for a buffer of permitted size can be had.
Memory for a new pool can be had, overlaps no pool of the chain, and does not end past the last address. Vectors of
bits are shorter than 2^32 bits, so the 32-bit loop counters over them do not wrap around. A `Bitmap` has words of at
most 64 bits and fewer than 2^32 of them, which is what its word type and its word count allow. A hash filter may have
any positive table size; with a power of two, taking the remainder is masking. The spanning tree that the backwards
graph asks is an arbitrary oracle.

## What the proofs found

- `concurrentTestAndClear` returns the opposite of `testAndClear`: true for a bit that was clear already
  (`ConcurrentBitmap.ConcurrentClearIsNegated`).
- A thread whose `shouldSleep` says no keeps its waiting flag up while it works, so `notifyOne` may choose it although
  another thread really sleeps (`AutomaticThreads.StaleFlagCapturesNotification`). This happens exactly when its body
  has come out of the wait with the flag up, has been told not to sleep and has found work, and nothing has lowered or
  refreshed the flag since (`AutomaticThreads.StaleExactlyIf`); never with the default `shouldSleep`.
- `notifyAll` fails the assertion in `start` exactly when a permanently stopped thread is still registered, and
  `notifyOne` exactly when no registered thread waits and the first one without an underlying thread has stopped
  permanently (`AutomaticThreads.AssertionNeedsStoppedThread`).
- Merging into an out-of-line vector with more words than the argument reads past the argument's end. Whatever lies
  there, the result is the union if and only if the excess words are all ones (`BitVectorWords.MergeIsExactIff`;
  `BitVectorWords.MergeReadsBeyond` is an input).
- Filtering out-of-line words by an inline argument leaves every member past the first word, so it is the intersection
  if and only if there is none (`BitVectorWords.FilterByOneWord`; `BitVectorWords.FilterKeepsSixtyFour` is an input).
- Resizing from out-of-line to inline trips a debug assertion if and only if number 63 is a member; the result is right
  all the same (`BitVectors.BitVector.Resize`, `BitVectors.ResizeTripsAssertion`). The debug assertion in
  `resizeOutOfLine` (Source/WTF/wtf/BitVector.cpp:103) fails exactly when an inline vector is shifted by 0; the result
  is right there too (`BitVectors.BitVector.ShiftRightByMultipleOf64`, `BitVectors.ShiftTripsAssertion`).
- `setEachNthBit` with a stride that wraps around in 64 bits steps down from the start to the beginning of its word. It
  sets every n-th bit and no other if and only if the range is empty or the place of the start in its word plus the
  stride is below 2^64 (`Bitmaps.AddsEachNthIff`, `Bitmaps.LargestStrideStepsDown`).
- `Vector` and `Deque` crash when they would have to grow past 1,053,818,052 elements of 4 bytes
  (`GrowingBuffers.OnlyLargestCannotGrow`). So the queue test, with a capacity and a consumer, can crash if and only if
  there are more messages than that, or just as many and the queue may hold them all
  (`QueueLimits.CrashIsReachableIff`), and it can finish if and only if there are no more than that
  (`QueueLimits.FinishIsReachableIff`). A run that finishes passes the assertions at its end if and only if there is a
  consumer or there is no message (`ReceivedMessages.FinalAssertionsHold`).
- Brigand's sort is not stable: it turns equivalent elements round within each chunk of 18 (`Brigand.SortImplTies`).
- `dealloc` fails its debug assertion exactly when the position lies in the unused part of the pool that spans it
  (`BumpPointers.BumpPointerPool.Dealloc`).

## Model

| member | source | states |
|---|---|---|
| `ThreeStateLocks.ReachableIsSafe` | Source/WTF/benchmarks/ToyLocks.h:261-398 | in every state that any interleaving of any number of ThunderLock or CascadeLock threads reaches: at most one owner, the word is Unlocked exactly when there is none, the queue holds exactly the sleepers, and a sleeper implies LockedAndParked, an unlocker before its unpark, or (Cascade) an awake contender that will lock with LockedAndParked |
| `ThreeStateLocks.FreeLockHasNoSleepers` | Source/WTF/benchmarks/ToyLocks.h:359-389 | once no call is in progress, a thread can only be asleep while another one holds the lock and the word says LockedAndParked |
| `ThreeStateLocks.SleeperCanLock` | Source/WTF/benchmarks/ToyLocks.h:290-318 | from every reachable state some schedule gives the lock to any chosen sleeper: no wakeup is lost for good, in either lock |
| `ThreeStateLocks.LockerCanLock` | Source/WTF/benchmarks/ToyLocks.h:268-318 | from every reachable state some schedule gives the lock to any chosen thread that is anywhere in lock(), spinning, contending or asleep |
| `ThreeStateLocks.LoneLockerParks` | Source/WTF/benchmarks/ToyLocks.h:290-312 | while the lock stays taken and no other thread moves, a thread anywhere in lock() is asleep after an exact number of its own accesses: all its spins and three more, or no further spin if the word announces sleepers |
| `ThreeStateLocks.LoneLockerTakes` | Source/WTF/benchmarks/ToyLocks.h:290-312 | while the lock is free and no other thread moves, a thread anywhere in lock() takes it after an exact number of its own accesses, in CascadeLock with LockedAndParked if it has tried to park |
| `ThreeStateLocks.LoneUnlock` | Source/WTF/benchmarks/ToyLocks.h:276-318 | an unlock() that no other thread interrupts frees the word in one access if it announces no sleepers, and otherwise wakes every sleeper (ThunderLock) or exactly the first one (CascadeLock) and nobody else |
| `ThreeStateLocks.StepMutex` | Source/WTF/benchmarks/ToyLocks.h:268-282 | every access keeps mutual exclusion: the compare-exchanges only take a free lock, and the unlocker that finds sleepers gives it up in its exchange |
| `ThreeStateLocks.StepWakeup` | Source/WTF/benchmarks/ToyLocks.h:374-389 | every access keeps the wakeup invariant; here a woken CascadeLock thread must ask for LockedAndParked |
| `BargingLock.ReachableIsSafe` | Source/WTF/benchmarks/ToyLocks.h:184-258 | in every reachable state: at most one owner, the locked bit tells whether there is one, the queue holds exactly the sleepers, a sleeper implies the parked bit, and a free lock with sleepers has an awake contender |
| `BargingLock.SleeperCanLock` | Source/WTF/benchmarks/ToyLocks.h:213-252 | from every reachable state some schedule gives the lock to any chosen sleeper |
| `BargingLock.LockerCanLock` | Source/WTF/benchmarks/ToyLocks.h:190-239 | from every reachable state some schedule gives the lock to any chosen thread that is anywhere in lock() |
| `BargingLock.LoneLockerParks` | Source/WTF/benchmarks/ToyLocks.h:213-239 | while the lock stays taken and no other thread moves, a thread anywhere in lock() is asleep after an exact number of its own accesses, and the word has both bits |
| `BargingLock.LoneLockerTakes` | Source/WTF/benchmarks/ToyLocks.h:213-239 | while the lock is free and no other thread moves, a thread anywhere in lock() takes it after an exact number of its own accesses and leaves the parked bit alone |
| `BargingLock.LoneUnlock` | Source/WTF/benchmarks/ToyLocks.h:198-252 | an unlock() that no other thread interrupts wakes exactly the first sleeper, and leaves the parked bit set exactly when others sleep on or sleepers of other locks may have been taken for them |
| `BargingLock.StepCallback` | Source/WTF/benchmarks/ToyLocks.h:241-252 | while one thread is between dequeuing and its callback, no access of any other thread makes untrue what the callback was told about remaining sleepers, or wakes its sleeper |
| `BargingLock.StepWakeup` | Source/WTF/benchmarks/ToyLocks.h:228-252 | every access keeps the wakeup invariant, the plain stores of the callback included |
| `HandoffLock.ReachableIsSafe` | Source/WTF/benchmarks/ToyLocks.h:400-475 | in every reachable state of fewer than 2^31 threads: at most one owner, the word is the locked bit plus twice the number of threads between increment and decrement, the assertion in unlockSlow never fired, and a free word means nobody is counted or asleep |
| `HandoffLock.StepOwner` | Source/WTF/benchmarks/ToyLocks.h:449-468 | a thread that owns the lock after an access and not before has found the word free, or is the first sleeper in the queue, which the unlocker has dequeued; no access makes a second owner |
| `HandoffLock.StepWord` | Source/WTF/benchmarks/ToyLocks.h:429-447 | every access keeps the word equal to the locked bit and the number of threads between their increment and decrement |
| `HandoffLock.SleeperCanLock` | Source/WTF/benchmarks/ToyLocks.h:429-468 | from every reachable state some schedule hands the lock to any chosen sleeper |
| `HandoffLock.LockerCanLock` | Source/WTF/benchmarks/ToyLocks.h:407-447 | from every reachable state some schedule gives the lock to any chosen thread that is anywhere in lock() |
| `HandoffLock.LoneLockerParks` | Source/WTF/benchmarks/ToyLocks.h:429-447 | while the lock stays taken and no other thread moves, a thread anywhere in lock() is asleep after an exact number of its own accesses, counted in the word exactly once |
| `HandoffLock.LoneLockerTakes` | Source/WTF/benchmarks/ToyLocks.h:429-438 | while the lock is free and no other thread moves, a thread anywhere in lock() takes it after an exact number of its own accesses |
| `HandoffLock.LoneUnlock` | Source/WTF/benchmarks/ToyLocks.h:415-468 | an unlock() that no other thread interrupts frees the word in one access if nobody is counted; otherwise, if somebody sleeps, exactly the first sleeper owns the lock afterwards, which is never free in between |
| `BoundedQueue.ReachableInv` | Source/WTF/benchmarks/ConditionSpeedTest.cpp:97-161 | in every reachable state: the queue is within bounds, sleeping producers and consumers are covered by notifications to come or awake threads with work to do, and the shutdown flag matches the phase of the main thread, under both notification policies |
| `BoundedQueue.NoDeadlock` | Source/WTF/benchmarks/ConditionSpeedTest.cpp:97-161 | with a capacity and a consumer, in every reachable state in which the test has neither finished nor crashed some thread can move without a spurious wakeup |
| `BoundedQueue.EffectiveMovesGetCloser` | Source/WTF/benchmarks/ConditionSpeedTest.cpp:97-161 | every such move gets lexicographically closer to the end of the test, or crashes it |
| `BoundedQueue.Complete` | Source/WTF/benchmarks/ConditionSpeedTest.cpp:97-161 | every scheduler that sees the whole run so far and makes at most a given number of spurious wakeups, fair or not, ends the test from every point of every run: it finishes, or an append crashes because its buffer cannot grow |
| `BoundedQueue.CompleteObeys` | Source/WTF/benchmarks/ConditionSpeedTest.cpp:97-161 | that run is the scheduler's own: every move is one that may be made, and the one it asks for wherever that may be made |
| `BoundedQueue.WakeupsCanCycle` | Source/WTF/benchmarks/ConditionSpeedTest.cpp:62-67 | the bound is needed: a sleeping consumer that wakes up by itself while there is nothing to consume goes back to the very same state |
| `BoundedQueue.ProducerWakeupsCanCycle` | Source/WTF/benchmarks/ConditionSpeedTest.cpp:62-67 | the same for a sleeping producer while the queue is full |
| `BoundedQueue.ConsumerNotifies` | Source/WTF/benchmarks/ConditionSpeedTest.cpp:101-118 | a consumer takes the first message; with NotifyAll it then wakes every sleeping producer if the queue was full and nobody otherwise, and with NotifyOne exactly one sleeping producer, any of them, if there is one |
| `BoundedQueue.ProducerNotifies` | Source/WTF/benchmarks/ConditionSpeedTest.cpp:132-147 | a producer appends its next message; with NotifyAll it then wakes every sleeping consumer if the queue was empty and nobody otherwise, and with NotifyOne exactly one, any of them, if there is one |
| `QueueOrder.FirstInFirstOut` | Source/WTF/benchmarks/ConditionSpeedTest.cpp:116-144 | in every run what the consumers have taken, in the order of taking, followed by the queue, is what the producers have appended, in the order of appending |
| `QueueOrder.ProducersCountUp` | Source/WTF/benchmarks/ConditionSpeedTest.cpp:132-144 | in every run each producer has appended 0, 1, 2 and so on, in this order |
| `BoundedQueue.RunConserves` | Source/WTF/benchmarks/ConditionSpeedTest.cpp:101-148 | in every state of every run each message index is in the queue, in a consumer's hands or received as often as it has been sent |
| `BoundedQueue.FinishedReceivedEverything` | Source/WTF/benchmarks/ConditionSpeedTest.cpp:151-168 | in every run that finishes each index was received exactly once from each producer and nothing else was received |
| `ReceivedMessages.SortedIsExpected` | Source/WTF/benchmarks/ConditionSpeedTest.cpp:164-168 | the sorted list of received messages is determined: every index in order, as often as there are producers |
| `ReceivedMessages.FinalAssertionsHold` | Source/WTF/benchmarks/ConditionSpeedTest.cpp:163-168 | every run that gets to the final assertions passes them, products in 32 bits included, if and only if there is a consumer or there are no messages |
| `QueueLimits.ReachableWithin` | Source/WTF/benchmarks/ConditionSpeedTest.cpp:101-148 | in every reachable state the messages received, in the queue, in the hands of consumers and not yet sent add up to producers times messages, no list is longer than its buffer can get, and a crash means that there are more messages than fit |
| `QueueLimits.CrashIsReachableIff` | Source/WTF/benchmarks/ConditionSpeedTest.cpp:115-145 | with a capacity and a consumer, some run crashes in an append if and only if there are more than 1,053,818,052 messages, or just as many and the queue may hold them all |
| `QueueLimits.FinishIsReachableIff` | Source/WTF/benchmarks/ConditionSpeedTest.cpp:151-163 | with a capacity and a consumer, some run finishes if and only if there are at most 1,053,818,052 messages |
| `QueueLimits.SafeTestFinishes` | Source/WTF/benchmarks/ConditionSpeedTest.cpp:97-161 | when no run can crash, every run of every scheduler with bounded spurious wakeups finishes |
| `QueueLimits.LargeTestCrashes` | Source/WTF/benchmarks/ConditionSpeedTest.cpp:120-123 | with more than 1,053,818,052 messages every such run ends in a crash, so it never gets to the assertions |
| `GrowingBuffers.OnlyLargestCannotGrow` | Source/WTF/wtf/Vector.h:303-310 | among the capacities that a buffer of 4-byte elements gets by growing from nothing, each next one is within the limit of allocateBuffer, except after the 81st, which is 1,053,818,052 |
| `GrowingBuffers.Vector.Append` | Source/WTF/wtf/Vector.h:1395-1441 | appends the value, in a larger buffer if this one is full, and crashes, changing nothing, if and only if there are 1,053,818,052 elements |
| `GrowingBuffers.Vector.ReserveCapacity` | Source/WTF/wtf/Vector.h:1277-1302 | crashes if and only if the capacity is over the limit; otherwise there is room for as many and the elements are the same |
| `GrowingBuffers.Deque.Append` | Source/WTF/wtf/Deque.h:472-482 | appends behind the last element of the ring, around its end, and crashes, changing nothing, if and only if there are 1,053,818,051 elements: one slot stays free |
| `GrowingBuffers.Deque.ExpandCapacity` | Source/WTF/wtf/Deque.h:429-445 | a larger ring holds the same elements in the same order, wherever the first of them stood |
| `GrowingBuffers.Deque.TakeFirst` | Source/WTF/wtf/Deque.h:456-461 | takes the first element off the ring and leaves the others in order; crashes if and only if there is none |
| `AutomaticThreads.ReachableIsSafe` | Source/WTF/wtf/AutomaticThread.cpp:134-235 | in every reachable state the number of bodies in the loop is 1 or 0 as the flag says, not running implies no body, and a body implies a registered thread |
| `AutomaticThreads.StepThread` | Source/WTF/wtf/AutomaticThread.cpp:49-235 | no region under the lock starts a second body, leaves a body to a stopped thread or makes a stopped thread run again |
| `AutomaticThreads.StoppedForGood` | Source/WTF/wtf/AutomaticThread.cpp:156-161 | once a thread is not running, which is what join waits for, it has no body and never runs again, whatever happens |
| `AutomaticThreads.RunsOnUnlessTold` | Source/WTF/wtf/AutomaticThread.cpp:191-234 | in every run in which neither poll nor work of a thread says Stop, and tryStop is not called while it has no underlying thread, the thread is never stopped for good |
| `AutomaticThreads.DestroyedStaysGone` | Source/WTF/wtf/AutomaticThread.cpp:123-132 | a thread that is destroyed while nothing runs it is never started again, in any run |
| `AutomaticThreads.NotificationIsNotLost` | Source/WTF/wtf/AutomaticThread.cpp:185-226 | a thread chosen by notifyOne or notifyAll, or notified directly, cannot stop for timeout before it polls again, for every interleaving with timeouts, spurious wakeups and other notifications and for all answers of poll, work and shouldSleep |
| `AutomaticThreads.AlertUntilPoll` | Source/WTF/wtf/AutomaticThread.cpp:200-226 | a chosen thread stays awake on its way to poll, or stops for good |
| `AutomaticThreads.AssertionNeedsStoppedThread` | Source/WTF/wtf/AutomaticThread.cpp:163-165 | notifyAll fails the assertion in start exactly when a permanently stopped thread is still registered, and notifyOne exactly when no registered thread waits and the first one without an underlying thread has stopped permanently |
| `AutomaticThreads.DefaultKeepsFlagsFresh` | Source/WTF/wtf/AutomaticThread.h:179-179 | with the default answer of shouldSleep the waiting flag is up only in a body that is in its timed wait or just out of it, and never without a body; the exact condition is in the next two rows |
| `AutomaticThreads.StaleStep` | Source/WTF/wtf/AutomaticThread.cpp:211-228 | in every state of every run, one region makes the waiting flag of a thread wrong if and only if its body comes out of the wait with the flag up, is told not to sleep and finds work; and a flag that is wrong stays so unless a notification chooses the thread, or its body finds no work or leaves its loop |
| `AutomaticThreads.StaleExactlyIf` | Source/WTF/wtf/AutomaticThread.cpp:49-78 | over all runs: a flag says that a thread waits although its body is elsewhere if and only if some region has made it so and nothing has lowered or refreshed it since |
| `AutomaticThreads.StaleFlagCapturesNotification` | Source/WTF/wtf/AutomaticThread.cpp:217-226 | when shouldSleep says no, a reachable state has a working thread with its flag up, and notifyOne chooses it while another thread sleeps on |
| `AutomaticThreadObjects.AutomaticThread.TryStop` | Source/WTF/wtf/AutomaticThread.cpp:134-142 | true if and only if the thread has stopped for good and nobody is in its loop, which a later call never changes |
| `AutomaticThreadObjects.AutomaticThread.Notify` | Source/WTF/wtf/AutomaticThread.cpp:149-154 | afterwards the flag is down and the one body is awake on its way to poll |
| `AutomaticThreadObjects.AutomaticThread.Start` | Source/WTF/wtf/AutomaticThread.cpp:163-171 | for a thread without an underlying thread: afterwards exactly one body, about to poll |
| `AutomaticThreadObjects.AutomaticThread.RunBody` | Source/WTF/wtf/AutomaticThread.cpp:200-235 | one region of the body under the lock, for all answers: it leaves its loop if and only if it may sleep with its flag up, polls Stop or has been told Stop by work; it stops for good in the last two cases only; it goes back to poll if work says Continue, goes to work if poll says Work, sleeps with its flag up if poll says Wait; and one body at most remains, as the flag says |
| `AutomaticThreadObjects.AutomaticThreadCondition.NotifyOne` | Source/WTF/wtf/AutomaticThread.cpp:49-66 | at most one thread is told, the first that waits or else the first without an underlying thread, and it is then awake on its way to poll; if every thread is busy one of those who wait on the condition itself is woken |
| `AutomaticThreadObjects.AutomaticThreadCondition.NotifyAll` | Source/WTF/wtf/AutomaticThread.cpp:68-78 | afterwards every thread has an underlying thread, none of them is asleep, and nobody waits on the condition itself |
| `ConcurrentBitmap.Linearizable` | Source/WTF/wtf/Bitmap.h:204-234 | after any interleaving with spurious failures the word is what the log of operations leaves one after the other, every operation returned what it returns in that order, and it takes effect exactly once, between its call and its return: a call in progress has no entry in the log since it began, and a finished one has just one |
| `ConcurrentBitmap.LoneCallReturns` | Source/WTF/wtf/Bitmap.h:204-234 | a call that nobody interrupts any more, without spurious failure, returns after an exact number of accesses, three at most; its bit then has the value, all other bits are as before, and it says whether the bit had the value already |
| `ConcurrentBitmap.LoneCall` | Source/WTF/wtf/Bitmap.h:204-234 | such a call takes one access if the bit has the value already, and two otherwise |
| `ConcurrentBitmap.BitIsLastWritten` | Source/WTF/wtf/Atomics.h:136-147 | no update is lost: a bit has the value of the last operation on it |
| `ConcurrentBitmap.UntouchedBitStays` | Source/WTF/wtf/Atomics.h:136-147 | operations on other bits of the word never change a bit |
| `ConcurrentBitmap.ExactlyOneSetterWins` | Source/WTF/wtf/Bitmap.h:204-218 | of all setters of a bit that was clear and that nobody clears, exactly one returns false |
| `ConcurrentBitmap.ConcurrentClearIsNegated` | Source/WTF/wtf/Bitmap.h:220-234 | concurrentTestAndClear returns the negation of what testAndClear returns on the same word |
| `BumpPointers.PoolSize` | Source/WTF/wtf/BumpPointerAllocator.h:108-122 | the doubling in 64-bit arithmetic fails if and only if the capacity and the pool object exceed 2^63 bytes; otherwise it gives a power of two that fits them and no smaller doubling does |
| `BumpPointers.Doubling` | Source/WTF/wtf/BumpPointerAllocator.h:116-121 | doubling a power of two in 64 bits gives the next power, or 0 after the last |
| `BumpPointers.BumpPointerPool.Create` | Source/WTF/wtf/BumpPointerAllocator.h:108-128 | a new pool is empty, overlaps no pool of the chain, and its memory, which is what was allocated, is a power of two, at least the minimum and a page, with room for the capacity and less than twice what was asked for unless it is that least size; null exactly when there is no such size |
| `BumpPointers.BumpPointerPool.EnsureCapacity` | Source/WTF/wtf/BumpPointerAllocator.h:47-54 | returns the first pool from the current one on that has room, a new one at the end if none has; a new pool is empty and has the size that doubling gives; keeps every block, and the whole chain valid |
| `BumpPointers.BumpPointerPool.EnsureCapacityCrossPool` | Source/WTF/wtf/BumpPointerAllocator.h:146-173 | the walk: the pools passed over have no room, and at most one pool is added, at the end |
| `BumpPointers.BumpPointerPool.Alloc` | Source/WTF/wtf/BumpPointerAllocator.h:58-66 | pushes one block on the stack and returns its address |
| `BumpPointers.BumpPointerPool.Dealloc` | Source/WTF/wtf/BumpPointerAllocator.h:81-89 | crashes if and only if no pool up to the current one spans the position; the debug assertion holds if and only if the position is in the used part of the pool that spans it; the position of a live block frees exactly it and all later ones, across any number of pools |
| `BumpPointers.BumpPointerPool.DeallocCrossPool` | Source/WTF/wtf/BumpPointerAllocator.h:175-195 | for every position: the pools behind the one with the position are emptied, that one is cut at the position, and the others stay as they are; the debug assertion holds if and only if the position is in the used part of that pool |
| `BumpPointers.BumpPointerPool.Shrink` | Source/WTF/wtf/BumpPointerAllocator.h:130-144 | empties the first pool and gives back all others |
| `BumpPointers.BumpPointerPool.DestroyOthers` | Source/WTF/wtf/BumpPointerAllocator.h:134-138 | the loop of shrink gives every pool after the first back and reads none after it has been given back, as an assertion before each read proves |
| `BumpPointers.BlocksApart` | Source/WTF/wtf/BumpPointerAllocator.h:68-76 | live blocks never overlap and lie inside their pools |
| `BumpPointers.BlockAt` | Source/WTF/wtf/BumpPointerAllocator.h:83-83 | a position belongs to one live block at most, and the position of a block is spanned by its pool alone |
| `BumpPointers.Popped` | Source/WTF/wtf/BumpPointerAllocator.h:180-193 | unwinding to a block leaves a chain that holds exactly the earlier blocks |
| `BumpPointers.BumpPointerAllocator.PoolsPastTopAreEmpty` | Source/WTF/wtf/BumpPointerAllocator.h:180-183 | every pool after the client's current pool is empty |
| `BumpPointers.BumpPointerAllocator.StartAllocator` | Source/WTF/wtf/BumpPointerAllocator.h:235-240 | hands out the first pool, created on first use with the least size there is, and kept afterwards |
| `BumpPointers.BumpPointerAllocator.StopAllocator` | Source/WTF/wtf/BumpPointerAllocator.h:242-246 | drops every block and gives back every pool but the first |
| `BitVectors.BitVector.ResizeOutOfLine` | Source/WTF/wtf/BitVector.cpp:101-124 | the new words are the old ones moved up by the shift and padded with zeros, or cut to the new length; none of the new memory stays as allocated; and the debug assertion holds if and only if the new size is more than 63 |
| `BitVectors.BitVector.EnsureSize` | Source/WTF/wtf/BitVector.h:107-112 | never changes the members; the size is at least the one asked for, and less than a word more if the vector has to grow |
| `BitVectors.BitVector.Resize` | Source/WTF/wtf/BitVector.cpp:56-69 | keeps exactly the members below the new size, and says when a debug assertion fires |
| `BitVectors.ResizeTripsAssertion` | Source/WTF/wtf/BitVector.h:380-384 | a vector of 64 bits with 63 in it trips the debug assertion when it is resized to 0 |
| `BitVectors.BitVector.ShiftRightByMultipleOf64` | Source/WTF/wtf/BitVector.cpp:92-99 | adds the shift to every member, for inline and out-of-line vectors and for every multiple of 64; the debug assertion fails exactly for an inline vector and a shift of 0 |
| `BitVectors.ShiftTripsAssertion` | Source/WTF/wtf/BitVector.cpp:92-103 | an empty inline vector trips the debug assertion when it is shifted by 0 |
| `BitVectorWords.ShiftAddsToMembers` | Source/WTF/wtf/BitVector.cpp:113-118 | moving whole words up adds 64 times the distance to every member |
| `BitVectorWords.TruncationDropsMembers` | Source/WTF/wtf/BitVector.cpp:119-120 | copying fewer words keeps exactly the members below the new size |
| `BitVectors.BitVector.ClearAll` | Source/WTF/wtf/BitVector.cpp:71-77 | no member is left and the size stays |
| `BitVectors.BitVector.QuickSet` | Source/WTF/wtf/BitVector.h:125-133 | adds one number and returns whether it was there |
| `BitVectors.BitVector.QuickClear` | Source/WTF/wtf/BitVector.h:135-143 | removes one number and returns whether it was there |
| `BitVectors.BitVector.Get` | Source/WTF/wtf/BitVector.h:152-157 | membership, also past the size |
| `BitVectors.BitVector.Set` | Source/WTF/wtf/BitVector.h:164-168 | adds any number, growing by no more than needed, and returns whether it was there |
| `BitVectors.BitVector.Clear` | Source/WTF/wtf/BitVector.h:183-188 | removes any number, also past the size |
| `BitVectors.BitVector.Assign` | Source/WTF/wtf/BitVector.h:91-98 | the members of the argument, in the same representation, with no words shared, self-assignment included |
| `BitVectors.BitVector.SetSlow` | Source/WTF/wtf/BitVector.cpp:41-54 | the same for the mixed and out-of-line cases |
| `BitVectors.BitVector.Merge` | Source/WTF/wtf/BitVector.h:202-210 | the union in all four combinations of representations, except into a receiver with more out-of-line words than the argument, where the words behind the argument are merged in |
| `BitVectors.BitVector.MergeSlow` | Source/WTF/wtf/BitVector.cpp:126-142 | the same for the out-of-line cases, with the loop over the receiver's words |
| `BitVectorWords.MergeIsUnion` | Source/WTF/wtf/BitVector.cpp:140-141 | merging word by word is union, as far as the receiver goes |
| `BitVectorWords.MergeIsExactIff` | Source/WTF/wtf/BitVector.cpp:134-142 | whatever lies behind the argument, the result is the union if and only if the receiver's excess words are all ones |
| `BitVectorWords.MergeReadsBeyond` | Source/WTF/wtf/BitVector.cpp:134-142 | two empty vectors of two words and of one word, with ones behind the second, merge to a vector with 64 in it |
| `BitVectors.BitVector.Filter` | Source/WTF/wtf/BitVector.h:212-220 | the intersection in all combinations but an inline argument to out-of-line words, where members past the first word survive |
| `BitVectors.BitVector.FilterSlow` | Source/WTF/wtf/BitVector.cpp:144-167 | the same for the mixed and out-of-line cases |
| `BitVectorWords.FilterIsIntersection` | Source/WTF/wtf/BitVector.cpp:160-166 | filtering word by word, with zeros past the argument, is intersection for all lengths |
| `BitVectorWords.FilterByOneWord` | Source/WTF/wtf/BitVector.cpp:146-149 | with an inline argument the result is the intersection if and only if the receiver has no member from 64 up |
| `BitVectorWords.FilterKeepsSixtyFour` | Source/WTF/wtf/BitVector.cpp:146-149 | the vector with 64 alone, filtered by the empty inline vector, keeps 64 |
| `BitVectors.BitVector.Exclude` | Source/WTF/wtf/BitVector.h:222-231 | exactly the difference in all four combinations |
| `BitVectors.BitVector.ExcludeSlow` | Source/WTF/wtf/BitVector.cpp:169-189 | the same for the mixed and out-of-line cases |
| `BitVectorWords.ExcludeIsDifference` | Source/WTF/wtf/BitVector.cpp:185-188 | excluding word by word is difference for all lengths |
| `BitVectors.BitVector.Equals` | Source/WTF/wtf/BitVector.h:280-285 | true if and only if both vectors denote the same set, for any mix of representations |
| `BitVectors.BitVector.HashValue` | Source/WTF/wtf/BitVector.h:287-298 | bit k of the value that is hashed is set if and only if an odd number of members has place k in its word, inline or not |
| `BitVectorWords.XorIsParity` | Source/WTF/wtf/BitVector.cpp:266-274 | a bit of the words xored together tells whether an odd number of members has that place |
| `BitVectors.BitVector.EqualsSlowCase` | Source/WTF/wtf/BitVector.cpp:212-217 | the same, and the debug assertion that fast and simple comparison agree holds |
| `BitVectors.BitVector.EqualsSlowCaseFast` | Source/WTF/wtf/BitVector.cpp:219-254 | comparing words, with zeros in the rest of the longer one, decides equality of the sets |
| `BitVectors.BitVector.EqualsSlowCaseSimple` | Source/WTF/wtf/BitVector.cpp:256-264 | comparing bit by bit decides it too |
| `BitVectorWords.SameSetIffSameWords` | Source/WTF/wtf/BitVector.cpp:243-251 | two vectors denote the same set if and only if their common words agree and the rest is zero |
| `BitVectors.BitVector.EqualVectorsHashAlike` | Source/WTF/wtf/BitVector.h:287-298 | equal vectors feed the same value to the hash, inline or not and with any trailing zeros |
| `BitVectorWords.SameSetSameHash` | Source/WTF/wtf/BitVector.cpp:266-274 | so the exclusive or of the words depends on the set alone |
| `BitVectors.BitVector.CountOfBits` | Source/WTF/wtf/BitVector.h:233-238 | the number of members |
| `BitVectors.BitVector.IsEmpty` | Source/WTF/wtf/BitVector.h:240-245 | true if and only if there is no member |
| `BitVectors.BitVector.FindBit` | Source/WTF/wtf/BitVector.h:247-258 | the first number from start with this membership, or the size, and the debug assertion holds; an out-of-line vector takes any start |
| `BitVectors.BitVector.FindBitFast` | Source/WTF/wtf/BitVector.h:398-429 | the search that skips words gives that answer, out of line for any start, and inline for any start that its shift is defined for |
| `BitVectors.BitVector.FindBitSimple` | Source/WTF/wtf/BitVector.h:431-439 | the bit-by-bit search gives it too, for any start |
| `PackedSets.FirstIsUnique` | Source/WTF/wtf/BitVector.h:250-257 | there is only one such answer, so both searches agree |
| `PackedSets.SearchWord` | Source/WTF/wtf/BitVector.h:416-422 | a word equal to the skip value has no bit with the value, and any other word is searched from the start index |
| `BitVectors.BitVector.Iterate` | Source/WTF/wtf/BitVector.h:300-351 | iteration visits exactly the members, in ascending order |
| `Words.FindBitInWord` | Source/WTF/wtf/StdLibExtras.h:344-356 | the portable search finds the first place below end, or end |
| `Words.FindBitInWordFast` | Source/WTF/wtf/StdLibExtras.h:330-343 | so does the search that counts trailing zeros, whose shift brings zeros in at the top |
| `Bitmaps.Bitmap.TestAndSet` | Source/WTF/wtf/Bitmap.h:185-192 | adds one number, returns whether it was there and keeps the padding zero |
| `Bitmaps.Bitmap.TestAndClear` | Source/WTF/wtf/Bitmap.h:195-202 | removes one number, returns whether it was there and keeps the padding zero |
| `Bitmaps.Bitmap.CleanseLastWord` | Source/WTF/wtf/Bitmap.h:249-256 | drops exactly the bits from the size up |
| `Bitmaps.Bitmap.SetAll` | Source/WTF/wtf/Bitmap.h:259-263 | all numbers below the size and no padding |
| `Bitmaps.Bitmap.Invert` | Source/WTF/wtf/Bitmap.h:266-271 | the complement below the size |
| `Bitmaps.Bitmap.FindRunOfZeros` | Source/WTF/wtf/Bitmap.h:282-302 | the least start of a run of that many numbers below the size that are not members, or -1 if there is none; length 0 counts as 1 |
| `Bitmaps.Bitmap.Count` | Source/WTF/wtf/Bitmap.h:305-315 | the number of members from start up, for every start from which no word past the end has to be read |
| `Bitmaps.Bitmap.IsFull` | Source/WTF/wtf/Bitmap.h:327-342 | true if and only if every number below the size is a member, whatever the width of the last word |
| `Bitmaps.Bitmap.FindBit` | Source/WTF/wtf/Bitmap.h:420-439 | the first number from start with this membership, or the size, the search for a clear bit stopping at the size even where the padding begins; and the answer for a start past the size |
| `Bitmaps.Bitmap.FoundAt` | Source/WTF/wtf/Bitmap.h:426-432 | a hit is never past the size, because the first padding bit is zero and stands at the size |
| `Bitmaps.Bitmap.SetEachNthBit` | Source/WTF/wtf/Bitmap.h:460-484 | adds the numbers start, start + n, ... below end, and, if the stride wraps around in 64 bits, those that it reaches by stepping down in the word of start; changes nothing else; for every n from 1 to 2^64 - 1 |
| `Bitmaps.AddsEachNthIff` | Source/WTF/wtf/Bitmap.h:460-484 | what is added is exactly every n-th number from start, below end, if and only if the range is empty or the place of start in its word plus n is below 2^64 |
| `Bitmaps.StrideIsExactIff` | Source/WTF/wtf/Bitmap.h:469-472 | a stride adds something below start if and only if it wraps around at the place of start in its word |
| `Bitmaps.LargestStrideStepsDown` | Source/WTF/wtf/Bitmap.h:469-472 | the stride 2^64 - 1 from 5 adds 0 to 4 in a word of 64 bits |
| `Bitmaps.IsNthMeans` | Source/WTF/wtf/Bitmap.h:469-472 | the numbers that steps of n from start reach are those that differ from it by a multiple of n |
| `Bitmaps.OneMore` | Source/WTF/wtf/Bitmap.h:469-472 | the number after p is p + n, with none between |
| `Bitmaps.NoMore` | Source/WTF/wtf/Bitmap.h:477-481 | the first number at or past the end has none between it and the end |
| `BackwardsGraphs.GraphNodeWorklist.Push` | Source/WTF/wtf/GraphNodeWorklist.h:40-46 | returns true and queues the node if and only if it was not seen |
| `BackwardsGraphs.GraphNodeWorklist.PushAll` | Source/WTF/wtf/GraphNodeWorklist.h:48-53 | queues the unseen nodes in order, once each |
| `BackwardsGraphs.BackwardsGraph.AddRootSuccessor` | Source/WTF/wtf/BackwardsGraph.h:52-59 | adds the node unless it is behind a root successor; afterwards the seen set is closed under predecessors, and is exactly what is behind the root successors |
| `BackwardsGraphs.SeenIsExplained` | Source/WTF/wtf/BackwardsGraph.h:52-59 | between two calls a node has been seen if and only if it is behind a root successor |
| `BackwardsGraphs.Explore` | Source/WTF/wtf/BackwardsGraph.h:56-57 | one turn of the worklist loop keeps the seen set explained by the root successors and closed but for what is pending |
| `BackwardsGraphs.BackwardsGraph.IsBackEdgeNode` | Source/WTF/wtf/BackwardsGraph.h:66-75 | finds out whether the spanning tree calls the node a descendent of one of its successors |
| `BackwardsGraphs.BackwardsGraph.constructor` | Source/WTF/wtf/BackwardsGraph.h:47-94 | whatever the spanning tree answers: every node is behind a root successor, no root successor is behind an earlier one, every node without successors is one, and the list is the greedy choice from the three passes in order: nodes with a back edge first, ascending, then those without successors, ascending, then the others, descending; what a root successor of the last kind is behind is of that kind; and each node is behind a root successor that came before it, or is one |
| `BackwardsGraphs.WhoIsBehindWhom` | Source/WTF/wtf/BackwardsGraph.h:61-93 | the same of the list itself: a node with a back edge is behind a root successor with one, itself or a lower one; any node is behind one of the first two kinds, or behind a plain one, itself or a higher one |
| `BackwardsGraphs.BackwardsGraph.EdgesAreConverse` | Source/WTF/wtf/BackwardsGraph.h:101-125 | successors and predecessors of the new graph are each other's converse, the root included |
| `BackwardsGraphs.BackwardsGraph.RootReachesEverything` | Source/WTF/wtf/BackwardsGraph.h:96-109 | a walk along successors leads from the root to every node |
| `BubbleSort.BubbleSort` | Source/WTF/wtf/BubbleSort.h:51-84 | sorts in place, stably, with exactly one swap for each inversion of the input and at most one comparison for each pair, for every strict weak order |
| `BubbleSort.PassDown` | Source/WTF/wtf/BubbleSort.h:57-67 | one pass down: it keeps whatever every swap of neighbours in the wrong order keeps, and the smallest of the range comes first, or the range is in order |
| `BubbleSort.PassUp` | Source/WTF/wtf/BubbleSort.h:70-82 | one pass up: the same, and the largest comes last |
| `BubbleSort.SwapInversions` | Source/WTF/wtf/BubbleSort.h:60-60 | swapping two neighbours in the wrong order takes away exactly one inversion |
| `BubbleSort.SwapsAreStable` | Source/WTF/wtf/BubbleSort.h:58-63 | any run of such swaps keeps the order of equivalent elements and the elements themselves, and swaps made plus inversions left is constant |
| `BubbleSort.OrderedHasNoInversions` | Source/WTF/wtf/BubbleSort.h:64-65 | a list is sorted if and only if it has no inversions |
| `BubbleSort.PairsFormula` | Source/WTF/wtf/BubbleSort.h:58-58 | the number of pairs is n(n-1)/2 |
| `BloomFilters.BloomFilter.Add` | Source/WTF/wtf/BloomFilter.h:91-95 | the bits that are set are exactly the places of the keys, this one included |
| `BloomFilters.BloomFilter.AddFilter` | Source/WTF/wtf/BloomFilter.h:127-131 | afterwards the filter answers for the keys of both, also when added to itself |
| `BloomFilters.BloomFilter.MayContain` | Source/WTF/wtf/BloomFilter.h:83-88 | true if and only if both places of the hash are places of keys, so never false for a key |
| `BloomFilters.BloomFilter.OneKeyDenies` | Source/WTF/wtf/BloomFilter.h:83-95 | a filter with one key denies another hash if and only if one of the places of its two halves is not one of those of the key: the hash itself picks the first place, its bits from 16 up the second |
| `CountingBloomFilters.BucketsAreExact` | Source/WTF/wtf/BloomFilter.h:208-231 | over every run that removes live keys only, a bucket is 255 if its contributions have ever reached 255 since the last clear, and otherwise exactly the contributions of the live keys, keys whose buckets coincide included |
| `CountingBloomFilters.NoFalseNegatives` | Source/WTF/wtf/BloomFilter.h:169-171 | a live key is never denied, so the assertions in remove hold |
| `CountingBloomFilters.EmptyWithoutKeys` | Source/WTF/wtf/BloomFilter.h:240-248 | without live keys likelyEmpty holds, and a bucket is zero if and only if it never overflowed |
| `CountingBloomFilters.AddedAt` | Source/WTF/wtf/BloomFilter.h:209-217 | add raises every bucket by the key's contributions to it, up to 255 |
| `CountingBloomFilters.ChangesExactly` | Source/WTF/wtf/BloomFilter.h:209-231 | add raises a bucket by the number of the key's buckets it is, up to 255; remove lowers it by as many, or leaves 255 if it was less than that or had overflowed |
| `CountingBloomFilters.AddedManyTimes` | Source/WTF/wtf/BloomFilter.h:209-217 | a key added n times counts n in each of its two buckets, or 2n if they coincide, up to 255 |
| `CountingBloomFilters.OneKeyDenies` | Source/WTF/wtf/BloomFilter.h:169-171 | a filter with one key denies another hash if and only if one of the buckets of its two halves is not one of those of the key |
| `CountingBloomFilters.RemovedAt` | Source/WTF/wtf/BloomFilter.h:220-231 | remove lowers every bucket that has not overflowed by the key's contributions to it |
| `CountingBloomFilters.CountingBloomFilter.Add` | Source/WTF/wtf/BloomFilter.h:209-217 | the key joins the keys, and every bucket is as exact as the run model says |
| `CountingBloomFilters.CountingBloomFilter.Remove` | Source/WTF/wtf/BloomFilter.h:220-231 | one occurrence of the key leaves the keys; if it was live, every bucket stays exact |
| `CountingBloomFilters.CountingBloomFilter.MayContainKey` | Source/WTF/wtf/BloomFilter.h:169-171 | true if and only if both buckets are taken, and never false for a live key, whatever calls have led there |
| `CountingBloomFilters.CountingBloomFilter.IsLikelyEmpty` | Source/WTF/wtf/BloomFilter.h:241-248 | true if and only if every bucket is 0 or 255, and true when no key is left |
| `Brigand.MergeImpl` | Source/WTF/wtf/Brigand.h:1736-1772 | merging ten elements a block at a time gives what merging one at a time gives, for all lists and any comparison |
| `Brigand.BlockStep` | Source/WTF/wtf/Brigand.h:1740-1748 | one block of ten a side leaves a merge that completes it to the simple merge |
| `Brigand.MergeInsertIsSimple` | Source/WTF/wtf/Brigand.h:1714-1735 | a block merge that stops when one side is used up is a prefix of the simple merge |
| `Brigand.SimpleMergeOrdered` | Source/WTF/wtf/Brigand.h:1750-1775 | merging ordered lists gives an ordered list |
| `Brigand.SimpleMergeCount` | Source/WTF/wtf/Brigand.h:1750-1775 | merging keeps every element as often as it occurs |
| `Brigand.SimpleMergeTies` | Source/WTF/wtf/Brigand.h:1714-1775 | of equivalent elements those of the right list come before those of the left, in order on either side |
| `Brigand.MiniSortOrdered` | Source/WTF/wtf/Brigand.h:1785-1813 | the sort of a small chunk is ordered, for chunks of every length |
| `Brigand.MiniSortCount` | Source/WTF/wtf/Brigand.h:1785-1813 | and has the same elements |
| `Brigand.MiniSortReversesTies` | Source/WTF/wtf/Brigand.h:1785-1813 | and equivalent elements are turned round |
| `Brigand.SortImplOrdered` | Source/WTF/wtf/Brigand.h:1814-1948 | the accumulator of up to three ordered runs, the chunks of 18 and the split at 255 keep everything ordered |
| `Brigand.SortImplCount` | Source/WTF/wtf/Brigand.h:1814-1948 | and lose or add nothing |
| `Brigand.SortImplTies` | Source/WTF/wtf/Brigand.h:1814-1948 | and equivalent elements come out chunk by chunk, each chunk turned round, in the order in which the accumulator merges the chunks |
| `Brigand.SortSorts` | Source/WTF/wtf/Brigand.h:1950-1951 | sort returns an ordered permutation of lists of every length |

## Left out

- The locks, the queue and the concurrent bitmap are step functions on values, because their subject is the interleaving; that an access updates a word in place is not part of those models.
- Weak memory orders, fences and `Dependency`: every atomic access is sequentially consistent.
- Fairness of the thread scheduler: for the locks only the possibility of progress is stated; for the queue, progress under every scheduler with a bounded number of spurious wakeups, without which a run need not end.
- YieldSpinLock, PauseSpinLock, TransactionalSpinLock, SynchronicLock, UnfairLock: trivial loops, hardware transactions or foreign calls.
- `AutomaticThread::join` wakes up through a condition that `tryStop` does not notify, so that every joiner returns is not claimed; only what is true when it returns.
- What those do who wait on an AutomaticThreadCondition directly: the objects count them, the transition system leaves them out.
- Destruction and reference counts of AutomaticThread, `threadDidStart` and `threadIsStopping`.
- The pointer packing of BitVector and its empty and deleted hash-table values: the two representations are the two cases of a datatype.
- The integer hash applied to the value of a vector, and `Bitmap::hash`.
- `Bitmap` merge, filter, exclude, subsumes, iteration and concurrentFilter: they would repeat what is proved of BitVector and of the concurrent operations.
- BitVectors.BitVector.FindBit: a start past the size of an inline vector is not modelled; the shift of its word is undefined in the source.
- Bitmaps.Bitmap.SetEachNthBit: a stride of 0 is not modelled; in the source it never ends unless the range is empty.
- Bitmaps.Bitmap.Count: a start past the words that is not a multiple of the word size is not modelled; the source reads past the array.
- BumpPointers.BumpPointerPool.EnsureCapacity: a failed allocation is not modelled, because the source dereferences it.
- BumpPointers.BumpPointerPool.Alloc: a block of size 0 and the overflow of an address are excluded, as the assertions of the source do.
- `BackwardsGraph` index, node and dump: a shift of indices by one.
- Filters keyed by a hash array or a string, and `isClear`: the same operations on other arguments.
- Brigand's finder, and the rest of its type machinery.
- The template list types of Brigand and its `append` and `wrap`: sequences and concatenation stand for them.
- The other operations of `Vector` and `Deque`, their inline buffers and elements of other sizes.
- The debug assertion in `AutomaticThread::notify` when there is no underlying thread; such a call lowers the flag and wakes nobody.
- Real page allocation, logging, dumping, timing and the command line of the tests.
