/**
 * `DelayQueue<T>`: a priority queue of delayed elements ordered by remaining
 * delay, from which an element can be taken only once its delay has run
 * out. The clock is the parameter `now` (in ticks); an element's remaining
 * delay is its due instant minus `now`. `Monitor.PulseAll` is the returned
 * flag `pulsed`. The blocking `poll(duration)` and `take` are modelled one
 * pass of their loops at a time.
 */
module DelayQueues {
  import opened Wrappers
  import opened HeapOrder
  import opened PriorityQueues

  /** A queued element: `id` tells apart elements due at the same instant,
      `due` is the instant at which its delay runs out. */
  datatype Delayed = Delayed(id: nat, due: int)

  /** `GetRemainingDelay()` read at clock `now`. */
  function RemainingDelay(x: Delayed, now: int): (r: int)
    ensures r > 0 <==> now < x.due
    ensures r <= 0 <==> x.due <= now
  {
    x.due - now
  }

  /** The order the heap keeps: by due instant. */
  function DueOrder(a: Delayed, b: Delayed): (r: int)
    ensures r < 0 <==> a.due < b.due
    ensures r == 0 <==> a.due == b.due
  {
    IntCompare(a.due, b.due)
  }

  /** `CompareTo`: the remaining delays compared at one clock reading. Since
      both delays are measured from the same `now`, the result is the due
      order whatever `now` is, so the heap order never changes as time
      passes. */
  function CompareTo(a: Delayed, b: Delayed, now: int): (r: int)
    ensures r == DueOrder(a, b)
    ensures r < 0 <==> a.due < b.due
  {
    IntCompare(RemainingDelay(a, now), RemainingDelay(b, now))
  }

  lemma DueOrderIsStrictWeakOrder()
    ensures StrictWeakOrder(DueOrder)
    ensures forall a, b :: Lt(DueOrder, a, b) <==> a.due < b.due
  {
    forall a, b
      ensures Lt(DueOrder, a, b) <==> a.due < b.due
    {
    }
  }

  /** `x` is due strictly before every element of `m`: vacuously so when `m`
      is empty. */
  ghost predicate Overtakes(x: Delayed, m: multiset<Option<Delayed>>) {
    forall e :: e in m && e.Some? ==> x.due < e.value.due
  }

  /** No element of `m` is due by `now`. */
  ghost predicate AllPending(m: multiset<Option<Delayed>>, now: int) {
    forall e :: e in m && e.Some? ==> RemainingDelay(e.value, now) > 0
  }

  /** What `offer(x)` does to a queue holding `before` and leaving `after`:
      a null `x` throws, a full 32-bit count makes the push throw, and
      otherwise `x` is added, `true` returned, and the waiters woken exactly
      when `x` is due before everything already queued. */
  ghost predicate OfferEffect(before: multiset<Option<Delayed>>, x: Option<Delayed>, r: Result<bool>, pulsed: bool,
                              after: multiset<Option<Delayed>>)
  {
    && (x.None? ==> r == Failure(ArgumentNull))
    && (x.Some? && |before| == Int32Max ==> r == Failure(ArgumentOutOfRange))
    && (x.Some? && |before| < Int32Max ==> r == Success(true))
    && (r.Failure? ==> !pulsed && after == before)
    && (r.Success? ==> after == before + multiset{x} && (pulsed <==> Overtakes(x.value, before)))
  }

  /** What one pass of a blocking retrieval loop decides. */
  datatype Decision =
    | ReturnNull             // return default(T)
    | Wait(timeout: int)     // Monitor.Wait(this, timeout), then loop
    | WaitForPulse           // Monitor.Wait(this), then loop
    | PopHead                // pop the head and return it

  /** One pass of the `poll(duration)` loop as the source writes it, given
      the head and the remaining `duration`: with an empty queue it returns
      null once the duration is used up and waits for the rest of it
      otherwise; with a head that is not yet due it waits for the smaller of
      the delay and the duration, even when the duration is used up; with a
      due head it pops. */
  function PollStepAsWritten(head: Option<Delayed>, now: int, duration: int): (d: Decision)
    ensures d == ReturnNull <==> head.None? && duration <= 0
    ensures d == PopHead <==> head.Some? && RemainingDelay(head.value, now) <= 0
    ensures d != WaitForPulse
    ensures head.None? && duration > 0 ==> d == Wait(duration)
    ensures head.Some? && RemainingDelay(head.value, now) > 0 ==>
      && d.Wait?
      && d.timeout <= RemainingDelay(head.value, now) && d.timeout <= duration
      && (d.timeout == RemainingDelay(head.value, now) || d.timeout == duration)
  {
    match head
    case None =>
      if duration <= 0 then ReturnNull else Wait(duration)
    case Some(first) =>
      var delay := RemainingDelay(first, now);
      if delay > 0 then
        Wait(if delay > duration then duration else delay)
      else
        PopHead
  }

  /** The source's pass never gives up on a pending head: `poll` with a
      zero duration on a queue whose only element is due one tick later
      waits for zero ticks instead of returning null, and once the clock
      has moved on the next pass, with the duration now negative, asks
      `Monitor.Wait` for a negative timeout. */
  lemma PollStepAsWrittenNeverTimesOut(head: Option<Delayed>, now: int, duration: int)
    requires head.Some? && RemainingDelay(head.value, now) > 0 && duration <= 0
    ensures PollStepAsWritten(head, now, duration) == Wait(duration)
    ensures PollStepAsWritten(Some(Delayed(0, 1)), 0, 0) == Wait(0)
  {
  }

  /** One pass of the `poll(duration)` loop with the time-out the loop is
      meant to have: a due head is popped; otherwise, once the duration is
      used up, the pass returns null; otherwise it waits a positive time,
      no longer than the duration and, with a pending head, no longer than
      its delay. */
  function PollStep(head: Option<Delayed>, now: int, duration: int): (d: Decision)
    ensures d == PopHead <==> head.Some? && RemainingDelay(head.value, now) <= 0
    ensures d == ReturnNull <==> duration <= 0 && (head.None? || RemainingDelay(head.value, now) > 0)
    ensures d != WaitForPulse
    ensures d.Wait? ==> 0 < d.timeout <= duration
    ensures d.Wait? && head.None? ==> d.timeout == duration
    ensures d.Wait? && head.Some? ==>
      && d.timeout <= RemainingDelay(head.value, now)
      && (d.timeout == RemainingDelay(head.value, now) || d.timeout == duration)
  {
    match head
    case None =>
      if duration <= 0 then ReturnNull else Wait(duration)
    case Some(first) =>
      var delay := RemainingDelay(first, now);
      if delay <= 0 then PopHead
      else if duration <= 0 then ReturnNull
      else Wait(if delay > duration then duration else delay)
  }

  /** The corrected pass differs from the source's exactly when the head is
      pending and the duration is used up. */
  lemma PollStepCorrectsAsWritten(head: Option<Delayed>, now: int, duration: int)
    ensures PollStep(head, now, duration) != PollStepAsWritten(head, now, duration) <==>
      head.Some? && RemainingDelay(head.value, now) > 0 && duration <= 0
  {
  }

  /** One pass of the `take` loop: with an empty queue it waits for a
      pulse, with a head that is not yet due it waits for that head's
      delay, and with a due head it pops. It never returns null. */
  function TakeStep(head: Option<Delayed>, now: int): (d: Decision)
    ensures d != ReturnNull
    ensures d == WaitForPulse <==> head.None?
    ensures d == PopHead <==> head.Some? && RemainingDelay(head.value, now) <= 0
    ensures head.Some? && RemainingDelay(head.value, now) > 0 ==> d == Wait(RemainingDelay(head.value, now))
  {
    match head
    case None => WaitForPulse
    case Some(first) =>
      var delay := RemainingDelay(first, now);
      if delay > 0 then Wait(delay) else PopHead
  }

  /** With a head present, a pass of `poll(duration)` decides as a pass of
      `take` would whenever the head's delay fits in the duration. */
  lemma PollStepMatchesTakeStep(head: Option<Delayed>, now: int, duration: int)
    requires head.Some? && RemainingDelay(head.value, now) <= duration
    ensures PollStepAsWritten(head, now, duration) == TakeStep(head, now)
  {
    var delay := RemainingDelay(head.value, now);
    if delay > 0 {
      assert PollStepAsWritten(head, now, duration).timeout == delay;
    }
  }

  class DelayQueue {
    /** The heap, ordered by `CompareTo` (no comparator). */
    const queue: PriorityQueue<Delayed>

    ghost predicate Valid()
      reads this, queue, queue.heap
    {
      && queue.Valid()
      && queue.natural == DueOrder
      && queue.comparator.None?
    }

    /** The queued elements. */
    ghost function Contents(): multiset<Option<Delayed>>
      reads this, queue, queue.heap
      requires Valid()
    {
      queue.Contents()
    }

    /** The element due first, or `None` when the queue is empty. */
    ghost function Head(): Option<Delayed>
      reads this, queue, queue.heap
      requires Valid()
    {
      queue.Top()
    }

    constructor ()
      ensures Valid() && fresh(queue) && fresh(queue.heap)
      ensures Count() == 0
    {
      DueOrderIsStrictWeakOrder();
      queue := new PriorityQueue.Default(DueOrder);
    }

    function Count(): (n: nat)
      reads this, queue, queue.heap
      requires Valid()
      ensures n == |Contents()|
    {
      queue.Count()
    }

    /** `offer(x)`: pushes `x` and wakes the waiters when the queue was empty
        or `x` compares before the previous head. */
    method Offer(x: Option<Delayed>, now: int) returns (r: Result<bool>, pulsed: bool)
      requires Valid()
      modifies queue, queue.heap
      ensures Valid() && (fresh(queue.heap) || queue.heap == old(queue.heap))
      ensures OfferEffect(old(Contents()), x, r, pulsed, Contents())
    {
      var first := queue.Peek();
      var o := queue.Push(x);
      if o.Fail? {
        return Failure(o.error), false;
      }
      pulsed := first.None? || CompareTo(x.value, first.value, now) < 0;
      r := Success(true);
      OfferWakes(old(queue.Contents()), first, x.value);
    }

    /** `offer(x, duration)`: the duration is ignored. */
    method OfferTimed(x: Option<Delayed>, duration: int, now: int) returns (r: Result<bool>, pulsed: bool)
      requires Valid()
      modifies queue, queue.heap
      ensures Valid() && (fresh(queue.heap) || queue.heap == old(queue.heap))
      ensures OfferEffect(old(Contents()), x, r, pulsed, Contents())
    {
      r, pulsed := Offer(x, now);
    }

    /** `put(x)`: `offer(x)` with its result discarded. */
    method Put(x: Option<Delayed>, now: int) returns (r: Outcome, pulsed: bool)
      requires Valid()
      modifies queue, queue.heap
      ensures Valid() && (fresh(queue.heap) || queue.heap == old(queue.heap))
      ensures OfferEffect(old(Contents()), x, if r.Pass? then Success(true) else Failure(r.error), pulsed, Contents())
    {
      var o;
      o, pulsed := Offer(x, now);
      r := if o.Success? then Pass else Fail(o.error);
    }

    /** `peek()`: the head when it is due, null when the queue is empty or
        the head is still pending; waiters are woken whenever a head is
        returned. */
    method Peek(now: int) returns (r: Option<Delayed>, pulsed: bool)
      requires Valid()
      ensures r.None? <==> Count() == 0 || RemainingDelay(Head().value, now) > 0
      ensures r.None? <==> AllPending(Contents(), now)
      ensures r.Some? ==> r == Head() && r in Contents() && RemainingDelay(r.value, now) <= 0
      ensures r.Some? ==> IsLeast(DueOrder, r.value, Contents())
      ensures pulsed <==> r.Some?
    {
      var first := queue.Peek();
      PendingHead(queue.Contents(), first, now);
      if first.None? || RemainingDelay(first.value, now) > 0 {
        return None, false;
      }
      pulsed := queue.Count() != 0;
      r := first;
    }

    /** `poll()`: removes and returns the head when it is due, wakes the
        waiters when elements remain; null, with nothing changed, when the
        queue is empty or the head is still pending. */
    method Poll(now: int) returns (r: Option<Delayed>, pulsed: bool)
      requires Valid()
      modifies queue`count, queue.heap
      ensures Valid()
      ensures r.None? <==> old(Count()) == 0 || RemainingDelay(old(Head()).value, now) > 0
      ensures r.None? <==> AllPending(old(Contents()), now)
      ensures r.None? ==> !pulsed && unchanged(queue, queue.heap)
      ensures r.Some? ==> r == old(Head()) && RemainingDelay(r.value, now) <= 0
      ensures r.Some? ==> IsLeast(DueOrder, r.value, old(Contents()))
      ensures r.Some? ==> r in old(Contents()) && Contents() == old(Contents()) - multiset{r}
      ensures r.Some? ==> Count() == old(Count()) - 1 && (pulsed <==> Count() != 0)
    {
      var first := queue.Peek();
      PendingHead(queue.Contents(), first, now);
      if first.None? || RemainingDelay(first.value, now) > 0 {
        return None, false;
      }
      r := queue.Pop();
      pulsed := queue.Count() != 0;
    }

    /** One pass of the `poll(duration)` loop, `duration` being what is left
        of the caller's timeout: the pass decides by `PollStepAsWritten` on
        the current head and, when that says pop, pops and wakes the waiters
        if elements remain; every other decision changes nothing. */
    method PollTimedPass(now: int, duration: int) returns (d: Decision, r: Option<Delayed>, pulsed: bool)
      requires Valid()
      modifies queue`count, queue.heap
      ensures Valid()
      ensures d == PollStepAsWritten(old(Head()), now, duration)
      ensures d != PopHead ==> r.None? && !pulsed && unchanged(queue, queue.heap)
      ensures d == PopHead ==> r == old(Head()) && r in old(Contents()) && Contents() == old(Contents()) - multiset{r}
      ensures d == PopHead ==> (pulsed <==> Count() != 0)
    {
      var first := queue.Peek();
      d := PollStepAsWritten(first, now, duration);
      r, pulsed := None, false;
      if d == PopHead {
        r := queue.Pop();
        pulsed := queue.Count() != 0;
      }
    }

    /** One pass of the `take` loop: decides by `TakeStep` on the current
        head and pops exactly when that says so. */
    method TakePass(now: int) returns (d: Decision, r: Option<Delayed>, pulsed: bool)
      requires Valid()
      modifies queue`count, queue.heap
      ensures Valid()
      ensures d == TakeStep(old(Head()), now)
      ensures d != PopHead ==> r.None? && !pulsed && unchanged(queue, queue.heap)
      ensures d == PopHead ==> r == old(Head()) && r in old(Contents()) && Contents() == old(Contents()) - multiset{r}
      ensures d == PopHead ==> (pulsed <==> Count() != 0)
    {
      var first := queue.Peek();
      d := TakeStep(first, now);
      r, pulsed := None, false;
      if d == PopHead {
        r := queue.Pop();
        pulsed := queue.Count() != 0;
      }
    }
  }

  /** The wake condition of `offer`, stated on the previous head, is the
      same as `x` overtaking every queued element. */
  lemma OfferWakes(m: multiset<Option<Delayed>>, first: Option<Delayed>, x: Delayed)
    requires forall e :: e in m ==> e.Some?
    requires first.None? <==> |m| == 0
    requires first.Some? ==> first in m && IsLeast(DueOrder, first.value, m)
    ensures first.None? || x.due < first.value.due <==> Overtakes(x, m)
  {
    DueOrderIsStrictWeakOrder();
    if first.Some? && x.due < first.value.due {
      forall e | e in m && e.Some?
        ensures x.due < e.value.due
      {
        assert !Lt(DueOrder, e.value, first.value);
      }
    }
  }

  /** The head is pending exactly when every queued element is. */
  lemma PendingHead(m: multiset<Option<Delayed>>, first: Option<Delayed>, now: int)
    requires forall e :: e in m ==> e.Some?
    requires first.None? <==> |m| == 0
    requires first.Some? ==> first in m && IsLeast(DueOrder, first.value, m)
    ensures first.None? || RemainingDelay(first.value, now) > 0 <==> AllPending(m, now)
  {
    DueOrderIsStrictWeakOrder();
    if first.Some? && RemainingDelay(first.value, now) > 0 {
      forall e | e in m && e.Some?
        ensures RemainingDelay(e.value, now) > 0
      {
        assert !Lt(DueOrder, e.value, first.value);
      }
    }
  }
}
