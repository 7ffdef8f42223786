# Priority queue and delay queue of clr.core.async, in Dafny

This project models two utility classes of the C# port of `core.async`.

`PriorityQueue<T>` is a binary min-heap kept in a growable array.
- The live elements are the first `_count` slots of `_heap`, and every slot after them is cleared.
- Elements are ordered by an injected `IComparer<T>` when one is given, and by their own `CompareTo` otherwise.
- `Push` stores the element in the first free slot and sifts it up.
- `Pop` moves the last element to the root, clears its old slot and sifts the root down.
- `MaybeGrow` copies the live prefix into a larger array: about double below 64 slots, about 1.5 times from 64 on, clamped at `Int32.MaxValue`.

`DelayQueue<T>` is a minimal port of `java.util.concurrent.DelayQueue` on top of that heap.
- An element can be retrieved only once its remaining delay has run out.
- `offer` wakes blocked waiters when the new element becomes the head.
- `peek` and `poll` return null while the head is still pending.
- `take` loops, waiting on the monitor, until the head is due.
- `poll(TimeSpan)` loops the same way, but returns null from the empty-queue branch once the duration is used up. A pending head never makes it return null: it always waits for the smaller of the delay and the remaining duration (see "## Findings").

The model is imperative, like the source:
- `PriorityQueues.PriorityQueue` is a class with the fields `heap: array<Option<T>>` and `count`. `None` stands for a null or `default(T)` slot.
- `Push`, `Pop`, `Up`, `Down`, `Heapify`, `Swap` and `MaybeGrow` are methods that update that array in place, with loop invariants.
- Their contracts are stated through the ghost views `Contents()` (the multiset of live elements) and `Top()`, and through the invariant `Valid()`. `Valid()` covers:
  - the heap property on the live prefix;
  - cleared slots past it;
  - `1 <= heap.Length <= Int32.MaxValue`;
  - a strict weak order as the active comparison.
- The heap facts behind the sift steps are proved once, on sequences, in the module `HeapOrder`.
- `DelayQueues.DelayQueue` owns a `PriorityQueue<Delayed>`:
  - `Delayed` is an element with a due instant.
  - The clock `DateTime.Now` is the parameter `now`.
  - `Monitor.PulseAll` is the returned flag `pulsed`.
  - Each blocking loop is modelled one pass at a time, as a decision function (`PollStepAsWritten`, `TakeStep`) plus a method that carries that pass out (`PollTimedPass`, `TakePass`).
  - `PollStep` is the corrected decision described under "## Findings". It is stated and related to the written one, but no method uses it.
- The modules `PriorityQueueTests` and `DelayQueueTests` hold clients that mirror the repository's unit tests and prove, for every input, what those tests check for one input.

The arithmetic follows C# `int`:
- `Wrap32` models unchecked 32-bit wrap-around. It appears in `MaybeGrow(i + 1)` and in the growth formulas.
- `CsHalf` models division that truncates toward zero. It gives `Parent(0) == 0`, which is what ends `Up` at the root.

## Model

| member | source | states |
|---|---|---|
| HeapOrder.Wrap32 | src/csharp/Utilities/Utilities/PriorityQueue.cs:160-165 | the result is a 32-bit value congruent to the exact one modulo 2^32, and equals it when it fits |
| HeapOrder.CsHalf | src/csharp/Utilities/Utilities/PriorityQueue.cs:113 | C# `a / 2` truncates toward zero: the remainder has the sign of `a` |
| HeapOrder.Parent | src/csharp/Utilities/Utilities/PriorityQueue.cs:113 | `(k - 1) / 2` is below `k` with `k` one of its two children, and is 0 at the root |
| HeapOrder.ParentOfChild | src/csharp/Utilities/Utilities/PriorityQueue.cs:113-125 | `c` has parent `i` exactly when `c` is `2i + 1` or `2i + 2`, the children `Down` visits |
| HeapOrder.NotLtTrans | src/csharp/Utilities/Utilities/PriorityQueue.cs:92-100 | "not before" is transitive under a strict weak order |
| HeapOrder.Reverse | src/csharp/Utilities/PriorityQueueTests/PriorityQueueTest.cs:41-47 | `RevComp.Compare(x, y)` is `y.CompareTo(x)`: `a` is before `b` in the reversed order exactly when `b` is before `a` |
| HeapOrder.ReverseIsStrictWeakOrder | src/csharp/Utilities/PriorityQueueTests/PriorityQueueTest.cs:41-47 | a reversing comparator is again a strict weak order, with every `Lt` flipped |
| HeapOrder.IntCompare | src/csharp/Utilities/PriorityQueueTests/PriorityQueueTest.cs:26-40 | the comparison is negative exactly when `a < b` and zero exactly when `a == b` |
| HeapOrder.IntCompareIsStrictWeakOrder | src/csharp/Utilities/PriorityQueueTests/PriorityQueueTest.cs:26-40 | integer comparison is a strict weak order |
| HeapOrder.Swapped | src/csharp/Utilities/Utilities/PriorityQueue.cs:102-107 | exchanging slots `i` and `j` leaves the length and every other slot as they were |
| HeapOrder.SwappedPrefixMultiset | src/csharp/Utilities/Utilities/PriorityQueue.cs:102-107 | a swap inside the live prefix keeps its multiset and the slots past it |
| HeapOrder.UpStep | src/csharp/Utilities/Utilities/PriorityQueue.cs:113-117 | swapping a hole with a parent it is before moves the sift-up hole to the parent |
| HeapOrder.UpDone | src/csharp/Utilities/Utilities/PriorityQueue.cs:114-115 | a hole at the root, or one not before its parent, is a heap |
| HeapOrder.DownStep | src/csharp/Utilities/Utilities/PriorityQueue.cs:125-135 | swapping a node with its least child, which is before it, moves the sift-down hole to that child |
| HeapOrder.DownLeaf | src/csharp/Utilities/Utilities/PriorityQueue.cs:125-127 | a hole with no live child closes the heap from `lo` on |
| HeapOrder.DownStop | src/csharp/Utilities/Utilities/PriorityQueue.cs:132-133 | a hole whose least child is not before it closes the heap from `lo` on |
| HeapOrder.RootIsMinimum | src/csharp/Utilities/Utilities/PriorityQueue.cs:77-83 | no live slot of a heap is before the root |
| HeapOrder.RootIsLeast | src/csharp/Utilities/Utilities/PriorityQueue.cs:77-83 | the root of a non-empty heap is a least element of the live multiset |
| HeapOrder.PopPrefixMultiset | src/csharp/Utilities/Utilities/PriorityQueue.cs:68-71 | moving the last element to the root and clearing its slot removes exactly one copy of the root |
| HeapOrder.InsertLast | src/csharp/Utilities/Utilities/PriorityQueue.cs:57-58 | storing into the first free slot adds one copy of the element and leaves a sift-up hole there |
| HeapOrder.RemoveRoot | src/csharp/Utilities/Utilities/PriorityQueue.cs:68-71 | the pop's moves leave a heap below the root, cleared slots, and the multiset minus the root |
| HeapOrder.HeapPrefixFrame | src/csharp/Utilities/Utilities/PriorityQueue.cs:168-170 | the heap property survives copying the live prefix into another array |
| HeapOrder.LiftMultisetInjective | src/csharp/Utilities/PriorityQueueTests/PriorityQueueTest.cs:300-320 | wrapping elements as non-null slots loses no multiplicity |
| PriorityQueues.GrowCapacity | src/csharp/Utilities/Utilities/PriorityQueue.cs:160-167 | the new capacity is larger than the old one, at least `minCap`, and fits in 32 bits |
| PriorityQueues.GrowSmall | src/csharp/Utilities/Utilities/PriorityQueue.cs:161-162 | below 64 the capacity becomes `(old + 1) * 2`, or `minCap` when that is larger |
| PriorityQueues.GrowLarge | src/csharp/Utilities/Utilities/PriorityQueue.cs:163-167 | from 64 on the capacity becomes `(old / 2) * 3`, or `minCap` when larger, and `Int32.MaxValue` when that product overflows |
| PriorityQueues.GrowOddCapacity | src/csharp/Utilities/Utilities/PriorityQueue.cs:163 | for odd capacities the growth is one less than `old + old / 2` (65 grows to 96) |
| PriorityQueues.GrowOverflowClamps | src/csharp/Utilities/Utilities/PriorityQueue.cs:164-165 | the overflow clamp is reachable: near `Int32.MaxValue` the product wraps negative and the capacity becomes `Int32.MaxValue` |
| PriorityQueues.PriorityQueue.ActiveOrder | src/csharp/Utilities/Utilities/PriorityQueue.cs:92-100 | a comparator, when present, takes precedence over `CompareTo` |
| PriorityQueues.PriorityQueue.Less | src/csharp/Utilities/Utilities/PriorityQueue.cs:92-100 | slot `i` is `Less` than slot `j` exactly when it is before it in the active order |
| PriorityQueues.PriorityQueue.TopIsLeast | src/csharp/Utilities/Utilities/PriorityQueue.cs:77-83 | the root of a non-empty queue is a live element and no live element is before it |
| PriorityQueues.PriorityQueue.constructor | src/csharp/Utilities/Utilities/PriorityQueue.cs:26-38 | a new queue is valid and empty, with the requested capacity and orders |
| PriorityQueues.PriorityQueue.Default | src/csharp/Utilities/Utilities/PriorityQueue.cs:40-43 | the parameterless queue is empty, has capacity `DefaultInitialCapacity` (11, line 16) and no comparator |
| PriorityQueues.PriorityQueue.Create | src/csharp/Utilities/Utilities/PriorityQueue.cs:26-33 | the constructor throws `ArgumentOutOfRange` exactly when the capacity is below 1, and otherwise gives an empty queue of that capacity |
| PriorityQueues.PriorityQueue.Count | src/csharp/Utilities/Utilities/PriorityQueue.cs:49 | `Count` is the number of live elements |
| PriorityQueues.PriorityQueue.Push | src/csharp/Utilities/Utilities/PriorityQueue.cs:51-61 | null throws `ArgumentNull`; a full 32-bit count throws `ArgumentOutOfRange`; both leave the queue unchanged. Otherwise `Count` grows by one and the contents gain exactly `x`. The capacity never shrinks; the array is kept while there is room, and a full array is replaced by one of `GrowCapacity(old length, count + 1)` slots. The heap invariant is kept |
| PriorityQueues.PriorityQueue.Insert | src/csharp/Utilities/Utilities/PriorityQueue.cs:57-60 | with room in the array, storing `x` in the first free slot and sifting it up raises `Count` by one, adds exactly `x` to the contents and keeps the heap invariant, in the same array |
| PriorityQueues.PriorityQueue.Pop | src/csharp/Utilities/Utilities/PriorityQueue.cs:63-75 | an empty queue returns `None` and changes nothing. Otherwise it returns the former root, a least element; `Count` drops by one; exactly one copy leaves the contents; the freed slot is cleared. The heap invariant is kept |
| PriorityQueues.PriorityQueue.Peek | src/csharp/Utilities/Utilities/PriorityQueue.cs:77-83 | returns `None` exactly when the queue is empty, and otherwise a live element no live element is before; nothing changes |
| PriorityQueues.PriorityQueue.Swap | src/csharp/Utilities/Utilities/PriorityQueue.cs:102-107 | the array afterwards is the old one with slots `i` and `j` exchanged |
| PriorityQueues.PriorityQueue.Up | src/csharp/Utilities/Utilities/PriorityQueue.cs:109-119 | from a sift-up hole at `j`, the live prefix becomes a heap with the same multiset, and the slots past it stay put |
| PriorityQueues.PriorityQueue.Down | src/csharp/Utilities/Utilities/PriorityQueue.cs:121-137 | with a heap below `i`, the heap property then holds from `i` on, with the same multiset in the first `n` slots |
| PriorityQueues.PriorityQueue.Heapify | src/csharp/Utilities/Utilities/PriorityQueue.cs:139-144 | an arbitrary live prefix becomes a heap holding the same multiset |
| PriorityQueues.PriorityQueue.MaybeGrow | src/csharp/Utilities/Utilities/PriorityQueue.cs:146-171 | a negative `minCap` throws `ArgumentOutOfRange`; enough room already changes nothing. Otherwise a new array of `GrowCapacity` slots holds the live prefix unchanged. The invariant is kept |
| PriorityQueueTests.PushAll | src/csharp/Utilities/PriorityQueueTests/PriorityQueueTest.cs:244-248 | pushing a batch adds its length to `Count` and its elements to the contents |
| PriorityQueueTests.PopAll | src/csharp/Utilities/PriorityQueueTests/PriorityQueueTest.cs:304-305 | popping until empty yields exactly the former contents, sorted in the queue's order |
| PriorityQueueTests.PushPopRound | src/csharp/Utilities/PriorityQueueTests/PriorityQueueTest.cs:297-320 | pushing a batch into an empty queue and popping it empty gives a permutation of the batch, sorted in the queue's order, across growth |
| PriorityQueueTests.PushThenPop | src/csharp/Utilities/PriorityQueueTests/PriorityQueueTest.cs:257-262 | the same for a new queue built with any capacity, `CompareTo` and comparator: the comparator's order wins when one is given |
| PriorityQueueTests.PushFour | src/csharp/Utilities/PriorityQueueTests/PriorityQueueTest.cs:244-255 | `CreateQueue` with 4, 2, 3, 1: the queue holds exactly those four elements |
| PriorityQueueTests.PeekAfterPushes | src/csharp/Utilities/PriorityQueueTests/PriorityQueueTest.cs:269-279 | after pushing 4, 2, 3, 1 the root is 1 in a default queue, and 4 in a capacity-3 queue with a reversing comparator |
| PriorityQueueTests.LeastOfFour | src/csharp/Utilities/PriorityQueueTests/PriorityQueueTest.cs:269-276 | among 4, 2, 3, 1 the only least element is the one before the other three |
| PriorityQueueTests.SortedUnique | src/csharp/Utilities/PriorityQueueTests/PriorityQueueTest.cs:304-305 | under a total order two sorted sequences with the same elements are equal, so the pops are determined exactly |
| PriorityQueueTests.IntOrdersAreTotal | src/csharp/Utilities/PriorityQueueTests/PriorityQueueTest.cs:26-47 | integer order and its reverse are total orders |
| PriorityQueueTests.PushTest | src/csharp/Utilities/PriorityQueueTests/PriorityQueueTest.cs:295-336 | for every `n`: pushing `0..n-1`, or `n-1..0` into the same emptied queue, pops `0..n-1` exactly; with a reversing comparator it pops `n-1..0` |
| PriorityQueueTests.CountTest | src/csharp/Utilities/PriorityQueueTests/PriorityQueueTest.cs:383-399 | the counts read 4, 3, 4, 0, 0 across push, pop, push, a new queue, and a pop of it, and that pop returns `None` |
| DelayQueues.RemainingDelay | src/csharp/Utilities/PriorityQueueTests/DelayQueueTest.cs:23-26 | `GetRemainingDelay` of an element `Delayed(id, due)` (the `IDelayed` element) is positive exactly when the clock is before its due instant |
| DelayQueues.DueOrder | src/csharp/Utilities/PriorityQueueTests/DelayQueueTest.cs:28-31 | the heap order of `Delayed` elements: negative exactly when `a` is due earlier, zero exactly when both are due together |
| DelayQueues.CompareTo | src/csharp/Utilities/PriorityQueueTests/DelayQueueTest.cs:23-31 | comparing remaining delays at one clock reading is comparing due instants, whatever the clock reads |
| DelayQueues.DueOrderIsStrictWeakOrder | src/csharp/Utilities/PriorityQueueTests/DelayQueueTest.cs:28-31 | due order is a strict weak order in which `a` is before `b` exactly when it is due earlier |
| DelayQueues.PollStepAsWritten | src/csharp/Utilities/Utilities/DelayQueue.cs:103-128 | one pass as written: null only on an empty queue with the duration used up; a pop exactly on a due head. A pending head always gets a wait of `min(delay, duration)` |
| DelayQueues.PollStepAsWrittenNeverTimesOut | src/csharp/Utilities/Utilities/DelayQueue.cs:113-120 | with a pending head and the duration used up, the pass waits for the non-positive duration instead of returning null |
| DelayQueues.PollStep | src/csharp/Utilities/Utilities/DelayQueue.cs:103-128 | one pass with its time-out: pop exactly on a due head, and null exactly when nothing is due and the duration is used up. Otherwise it waits a positive time, at most the duration and at most a pending head's delay |
| DelayQueues.PollStepCorrectsAsWritten | src/csharp/Utilities/Utilities/DelayQueue.cs:113-120 | the corrected pass differs from the written one exactly on a pending head with the duration used up |
| DelayQueues.TakeStep | src/csharp/Utilities/Utilities/DelayQueue.cs:139-154 | one `take` pass never returns null. It waits for a pulse exactly on an empty queue, waits out the delay of a pending head, and pops exactly a due head |
| DelayQueues.PollStepMatchesTakeStep | src/csharp/Utilities/Utilities/DelayQueue.cs:103-154 | when a head is present and its delay fits in the duration, a `poll(duration)` pass as written decides as a `take` pass |
| DelayQueues.OfferWakes | src/csharp/Utilities/Utilities/DelayQueue.cs:50-53 | waking when the queue was empty or `x` is before the old head is the same as waking when `x` is due before every queued element |
| DelayQueues.PendingHead | src/csharp/Utilities/Utilities/DelayQueue.cs:67-69 | the head is absent or pending exactly when every queued element is pending |
| DelayQueues.DelayQueue.constructor | src/csharp/Utilities/Utilities/DelayQueue.cs:27-35 | a new delay queue is valid and empty, over a heap ordered by due instant |
| DelayQueues.DelayQueue.Count | src/csharp/Utilities/Utilities/DelayQueue.cs:160-169 | `Count` is the number of queued elements |
| DelayQueues.DelayQueue.Offer | src/csharp/Utilities/Utilities/DelayQueue.cs:46-56 | null throws and changes nothing. Otherwise it adds exactly `x`, returns true, and wakes waiters exactly when `x` is due before everything queued |
| DelayQueues.DelayQueue.OfferTimed | src/csharp/Utilities/Utilities/DelayQueue.cs:58-61 | ignores the duration: the same effect as `offer(x)` |
| DelayQueues.DelayQueue.Put | src/csharp/Utilities/Utilities/DelayQueue.cs:41-44 | the same effect as `offer(x)`, with the result dropped |
| DelayQueues.DelayQueue.Peek | src/csharp/Utilities/Utilities/DelayQueue.cs:63-77 | null exactly when the queue is empty or every element is pending; otherwise the head, which is due and least. Wakes waiters exactly when it returns one. Changes nothing |
| DelayQueues.DelayQueue.Poll | src/csharp/Utilities/Utilities/DelayQueue.cs:79-94 | null with nothing changed exactly when nothing is due. Otherwise it removes and returns the due least head, `Count` drops by one, and it wakes waiters exactly when elements remain |
| DelayQueues.DelayQueue.PollTimedPass | src/csharp/Utilities/Utilities/DelayQueue.cs:103-128 | the pass decides by `PollStepAsWritten` on the head, so a pending head is waited for even when the duration is used up. It pops and returns the head, waking waiters if elements remain, exactly when that decision is to pop, and otherwise changes nothing |
| DelayQueues.DelayQueue.TakePass | src/csharp/Utilities/Utilities/DelayQueue.cs:139-154 | the same with `TakeStep`: it pops only a due head and otherwise changes nothing |
| DelayQueueTests.DueItems | src/csharp/Utilities/PriorityQueueTests/DelayQueueTest.cs:131-143 | the due items are items of the batch, all due, and no more than the batch |
| DelayQueueTests.DueItemsMultiplicity | src/csharp/Utilities/PriorityQueueTests/DelayQueueTest.cs:131-154 | the due items keep each due item's multiplicity and drop every pending one |
| DelayQueueTests.PollInOrder | src/csharp/Utilities/PriorityQueueTests/DelayQueueTest.cs:161-194 | items put at one clock reading and polled once the clock has passed every due instant all come out, in due order |
| DelayQueueTests.DueItemsAllDue | src/csharp/Utilities/PriorityQueueTests/DelayQueueTest.cs:183-192 | once the clock has passed every due instant, all items are due |
| DelayQueueTests.DueSplit | src/csharp/Utilities/PriorityQueueTests/DelayQueueTest.cs:147-157 | due items polled out plus pending items left behind, together the batch, make the polled ones exactly the due items |
| DelayQueueTests.PutAll | src/csharp/Utilities/PriorityQueueTests/DelayQueueTest.cs:132-143 | putting a batch adds exactly its items to the contents |
| DelayQueueTests.PolledInOrderStep | src/csharp/Utilities/PriorityQueueTests/DelayQueueTest.cs:147-154 | polling one more due least element keeps the polled items due and in due order, and accounts for it once |
| DelayQueueTests.PollUntilNull | src/csharp/Utilities/PriorityQueueTests/DelayQueueTest.cs:147-157 | polling at a fixed clock until null takes due elements in due order, loses none, and leaves only pending ones |
| DelayQueueTests.PollThenCheck | src/csharp/Utilities/PriorityQueueTests/DelayQueueTest.cs:147-157 | polling a queue holding a batch until null yields exactly its due items in due order, and then `peek` and `poll` return null |
| DelayQueueTests.PeekThenPoll | src/csharp/Utilities/PriorityQueueTests/DelayQueueTest.cs:156-157 | with nothing due, `peek` and `poll` both return null and change nothing |
| DelayQueueTests.PutThenPollDue | src/csharp/Utilities/PriorityQueueTests/DelayQueueTest.cs:122-158 | for every batch and clock: exactly the due items come out, in due order, and then `peek` and `poll` return null |

## Left out

- The `lock` blocks, `Monitor.Wait` and `Monitor.PulseAll` in DelayQueue.cs are left out: they exist for concurrency. The pulse is the returned flag `pulsed`, and waits are the `Wait`/`WaitForPulse` decisions.
- The unbounded `for (;;)` loops of `poll(TimeSpan)` and `take` are modelled one pass at a time (`PollTimedPass`, `TakePass`), each deciding as the source's loop body does. Nothing is proved about how many passes run, because that depends on the clock and on other threads.
- `poll(TimeSpan)` recomputes the remaining duration from the wall clock after each wait. The model takes that remaining `duration` as a parameter of each pass rather than keeping a fixed deadline.
- `DateTime.Now` and `TimeSpan` ticks are replaced by an integer `now` and integer due instants.
- `Monitor.Wait` throwing on a negative timeout is left out: the model stops at the `Wait` decision.
- The elements of a `DelayQueue` are fixed to `Delayed(id, due)`, which takes the place of the `IDelayed` interface (IDelayed.cs). Its `CompareTo` is the one of the test suite's `DelayItem`.
- `PriorityQueues.PriorityQueue.Down`: the `j1 < 0` overflow guard is not a separate branch. Indices are unbounded, and `2 * i + 1 >= n` holds exactly when the 32-bit `j1` would have wrapped negative or reached `n`.
- Allocation failure (`OutOfMemoryException`) for a huge `new T[newCap]` is left out.
- `PriorityQueues.PriorityQueue`: the heap's active order is required to be a strict weak order, which is the contract `IComparable` and `IComparer` implementations are expected to keep. Ill-behaved comparers are not modelled.
- `Heapify` is modelled and proved, but nothing in the source calls it.
- The non-generic `DelayQueue : DelayQueue<IDelayed>` subclass only supplies a type argument and is left out.
- AtomicReferenceArray.cs and ThreadLocalRandom.cs are not part of this model: they concern thread safety and random numbers, not the queues.
- `DelayQueueTakeInOrder` in DelayQueueTest.cs is not modelled, because it depends on threads and `Thread.Sleep`.

## Findings

| source | as written | input that shows it | evidently intended | confidence | as-written member | corrected member |
|---|---|---|---|---|---|---|
| src/csharp/Utilities/Utilities/DelayQueue.cs:113-120 | when the head is not yet due, `poll(duration)` always waits `min(delay, duration)`, even after the duration has run out, so it never returns null while a head is pending | `poll(TimeSpan.Zero)` on a queue holding one element due one tick from now waits for zero ticks and loops instead of returning null. Once the clock has moved on, the next pass asks `Monitor.Wait` for a negative timeout | return null once the duration is used up and the head is still pending, as `java.util.concurrent.DelayQueue.poll(long, TimeUnit)` does | high (not executed) | DelayQueues.PollStepAsWrittenNeverTimesOut | DelayQueues.PollStep |
