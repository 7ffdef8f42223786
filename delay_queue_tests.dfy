/**
 * Clients of `DelayQueue<T>` that follow the repository's own tests: put a
 * batch of delayed items, then, with the clock standing still, poll until
 * `poll` returns null.
 */
module DelayQueueTests {
  import opened Wrappers
  import opened HeapOrder
  import opened PriorityQueues
  import opened PriorityQueueTests
  import opened DelayQueues

  /** The items of `xs` whose delay has run out at `now`, in order. */
  function DueItems(xs: seq<Delayed>, now: int): (ys: seq<Delayed>)
    ensures |ys| <= |xs|
    ensures forall y :: y in ys ==> y in xs && RemainingDelay(y, now) <= 0
  {
    if xs == [] then []
    else
      var init := DueItems(xs[..|xs| - 1], now);
      var last := xs[|xs| - 1];
      if RemainingDelay(last, now) <= 0 then init + [last] else init
  }

  /** `DueItems` keeps every due item as often as `xs` holds it and drops
      every pending one. */
  lemma {:induction false} DueItemsMultiplicity(xs: seq<Delayed>, now: int, v: Delayed)
    ensures multiset(DueItems(xs, now))[v] == if RemainingDelay(v, now) <= 0 then multiset(xs)[v] else 0
  {
    if xs != [] {
      var init := xs[..|xs| - 1];
      DueItemsMultiplicity(init, now, v);
      assert xs == init + [xs[|xs| - 1]];
    }
  }

  /** When every item is due, all of them are polled. */
  lemma {:induction false} DueItemsAllDue(xs: seq<Delayed>, now: int)
    requires forall x :: x in xs ==> RemainingDelay(x, now) <= 0
    ensures DueItems(xs, now) == xs
  {
    if xs != [] {
      var init := xs[..|xs| - 1];
      forall x | x in init
        ensures RemainingDelay(x, now) <= 0
      {
        var k :| 0 <= k < |init| && init[k] == x;
        assert xs[k] == x;
      }
      DueItemsAllDue(init, now);
      assert xs == init + [xs[|xs| - 1]];
    }
  }

  /** Polled items that are all due, plus a remainder that is all pending,
      that together make up `items`: the polled ones are exactly the due
      items. */
  lemma DueSplit(items: seq<Delayed>, taken: seq<Delayed>, rest: multiset<Option<Delayed>>, now: int)
    requires multiset(Lift(taken)) + rest == multiset(Lift(items))
    requires forall k :: 0 <= k < |taken| ==> RemainingDelay(taken[k], now) <= 0
    requires AllPending(rest, now)
    ensures multiset(taken) == multiset(DueItems(items, now))
  {
    forall v
      ensures multiset(taken)[v] == multiset(DueItems(items, now))[v]
    {
      DueSplitAt(items, taken, rest, now, v);
    }
  }

  lemma DueSplitAt(items: seq<Delayed>, taken: seq<Delayed>, rest: multiset<Option<Delayed>>, now: int, v: Delayed)
    requires multiset(Lift(taken)) + rest == multiset(Lift(items))
    requires forall k :: 0 <= k < |taken| ==> RemainingDelay(taken[k], now) <= 0
    requires AllPending(rest, now)
    ensures multiset(taken)[v] == multiset(DueItems(items, now))[v]
  {
    LiftMultiplicity(taken, v);
    LiftMultiplicity(items, v);
    DueItemsMultiplicity(items, now, v);
    if RemainingDelay(v, now) <= 0 {
      assert rest[Some(v)] == 0;
    } else {
      assert multiset(taken)[v] == 0;
    }
  }

  /** `put` every item of `xs`, in order. */
  method PutAll(q: DelayQueue, xs: seq<Delayed>, now: int)
    requires q.Valid() && q.Count() + |xs| <= Int32Max
    modifies q.queue, q.queue.heap
    ensures fresh(q.queue.heap) || q.queue.heap == old(q.queue.heap)
    ensures q.Valid() && q.Contents() == old(q.Contents()) + multiset(Lift(xs))
  {
    ghost var put: seq<Option<Delayed>> := [];
    var i := 0;
    while i < |xs|
      invariant 0 <= i <= |xs| && |put| == i
      invariant q.Valid() && q.Count() == old(q.Count()) + i
      invariant fresh(q.queue.heap) || q.queue.heap == old(q.queue.heap)
      invariant q.Contents() == old(q.Contents()) + multiset(put)
      invariant LiftedPrefix(put, xs, i)
    {
      var r, pulsed := q.Put(Some(xs[i]), now);
      LiftedPrefixSnoc(put, xs, i);
      put := put + [Some(xs[i])];
      i := i + 1;
    }
    LiftedPrefixAll(put, xs);
  }

  /** What polling at the fixed clock `now` has achieved so far: the
      elements `taken` are due and in due order, and none of the `rest` is
      due before the last of them. */
  ghost predicate PolledInOrder(rest: multiset<Option<Delayed>>, taken: seq<Delayed>, now: int) {
    && SortedBy(DueOrder, taken)
    && (|taken| > 0 ==> IsLeast(DueOrder, taken[|taken| - 1], rest))
    && (forall k :: 0 <= k < |taken| ==> RemainingDelay(taken[k], now) <= 0)
  }

  /** Polling one more due least element keeps `PolledInOrder`. */
  lemma PolledInOrderStep(before: multiset<Option<Delayed>>, after: multiset<Option<Delayed>>, taken: seq<Delayed>,
                          r: Option<Delayed>, now: int)
    requires PolledInOrder(before, taken, now)
    requires r in before && after == before - multiset{r} && r.Some? && IsLeast(DueOrder, r.value, before)
    requires RemainingDelay(r.value, now) <= 0
    ensures PolledInOrder(after, taken + [r.value], now)
    ensures after + multiset(Lift(taken + [r.value])) == before + multiset(Lift(taken))
  {
    PopAllStep(DueOrder, before, after, taken, r);
    AllDueSnoc(taken, r.value, now);
  }

  lemma AllDueSnoc(taken: seq<Delayed>, x: Delayed, now: int)
    requires forall k :: 0 <= k < |taken| ==> RemainingDelay(taken[k], now) <= 0
    requires RemainingDelay(x, now) <= 0
    ensures forall k :: 0 <= k < |taken + [x]| ==> RemainingDelay((taken + [x])[k], now) <= 0
  {
    var t := taken + [x];
    forall k | 0 <= k < |t|
      ensures RemainingDelay(t[k], now) <= 0
    {
      if k < |taken| {
        assert t[k] == taken[k];
      }
    }
  }

  /** Polls at the fixed clock `now` until `poll` returns null: the polled
      elements are due, come out in due order, and leave behind only
      elements that are still pending. */
  method PollUntilNull(q: DelayQueue, now: int) returns (taken: seq<Delayed>)
    requires q.Valid()
    modifies q.queue`count, q.queue.heap
    ensures q.Valid()
    ensures multiset(Lift(taken)) + q.Contents() == old(q.Contents())
    ensures PolledInOrder(q.Contents(), taken, now)
    ensures AllPending(q.Contents(), now)
  {
    taken := [];
    while true
      invariant q.Valid()
      invariant q.Contents() + multiset(Lift(taken)) == old(q.Contents())
      invariant PolledInOrder(q.Contents(), taken, now)
      decreases q.Count()
    {
      ghost var before := q.Contents();
      var r, pulsed := q.Poll(now);
      if r.None? {
        break;
      }
      PolledInOrderStep(before, q.Contents(), taken, r, now);
      taken := taken + [r.value];
    }
  }

  /** The polling client of the test suite: puts every item into a new
      queue, then, with the clock fixed at `now`, polls until `poll` returns
      null, and finally peeks and polls once more. Exactly the due items
      come out, in due order, and the last peek and poll return null. */
  method PutThenPollDue(items: seq<Delayed>, now: int)
    returns (taken: seq<Delayed>, peeked: Option<Delayed>, polled: Option<Delayed>)
    requires |items| < Int32Max
    ensures multiset(taken) == multiset(DueItems(items, now))
    ensures SortedBy(DueOrder, taken)
    ensures peeked.None? && polled.None?
  {
    var q := new DelayQueue();
    PutAll(q, items, now);
    taken, peeked, polled := PollThenCheck(q, items, now);
  }

  /** The second half of the polling client: poll until null, then peek and
      poll once more. */
  method PollThenCheck(q: DelayQueue, items: seq<Delayed>, now: int)
    returns (taken: seq<Delayed>, peeked: Option<Delayed>, polled: Option<Delayed>)
    requires q.Valid() && q.Contents() == multiset(Lift(items))
    modifies q.queue`count, q.queue.heap
    ensures multiset(taken) == multiset(DueItems(items, now))
    ensures SortedBy(DueOrder, taken)
    ensures peeked.None? && polled.None?
  {
    taken := PollUntilNull(q, now);
    ghost var rest := q.Contents();
    peeked, polled := PeekThenPoll(q, now);
    DueSplit(items, taken, rest, now);
  }

  /** `peek` and then `poll` on a queue with nothing due: both return null. */
  method PeekThenPoll(q: DelayQueue, now: int) returns (peeked: Option<Delayed>, polled: Option<Delayed>)
    requires q.Valid() && AllPending(q.Contents(), now)
    modifies q.queue`count, q.queue.heap
    ensures peeked.None? && polled.None?
    ensures unchanged(q.queue, q.queue.heap)
  {
    var pulsed;
    peeked, pulsed := q.Peek(now);
    polled, pulsed := q.Poll(now);
  }

  /** The in-order polling client of the test suite: put every item at
      clock `putNow`, move the clock to `pollNow`, past every due instant,
      and poll until the queue is empty. Every item comes out, in due
      order. */
  method PollInOrder(items: seq<Delayed>, putNow: int, pollNow: int) returns (taken: seq<Delayed>)
    requires |items| < Int32Max
    requires forall x :: x in items ==> x.due <= pollNow
    ensures multiset(taken) == multiset(items)
    ensures SortedBy(DueOrder, taken)
  {
    var q := new DelayQueue();
    PutAll(q, items, putNow);
    var peeked, polled;
    taken, peeked, polled := PollThenCheck(q, items, pollNow);
    DueItemsAllDue(items, pollNow);
  }
}
