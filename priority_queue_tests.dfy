/**
 * Clients of `PriorityQueue<T>` that follow the repository's own tests:
 * push a batch of elements, then peek or pop them all, under the elements'
 * `CompareTo` and under a reversing comparator.
 */
module PriorityQueueTests {
  import opened Wrappers
  import opened HeapOrder
  import opened PriorityQueues

  /** Each element of `ys` is not before the one preceding it. */
  ghost predicate SortedBy<T>(cmp: (T, T) -> int, ys: seq<T>) {
    forall k :: 0 < k < |ys| ==> !Lt(cmp, ys[k], ys[k - 1])
  }

  /** Pushes every element of `xs`, in order. */
  method PushAll<T(!new)>(q: PriorityQueue<T>, xs: seq<T>)
    requires q.Valid() && q.count + |xs| <= Int32Max
    modifies q, q.heap
    ensures fresh(q.heap) || q.heap == old(q.heap)
    ensures q.Valid() && q.count == old(q.count) + |xs|
    ensures q.Contents() == old(q.Contents()) + multiset(Lift(xs))
  {
    ghost var pushed: seq<Option<T>> := [];
    var i := 0;
    while i < |xs|
      invariant 0 <= i <= |xs| && |pushed| == i
      invariant q.Valid() && q.count == old(q.count) + i
      invariant fresh(q.heap) || q.heap == old(q.heap)
      invariant q.Contents() == old(q.Contents()) + multiset(pushed)
      invariant LiftedPrefix(pushed, xs, i)
    {
      var r := q.Push(Some(xs[i]));
      LiftedPrefixSnoc(pushed, xs, i);
      pushed := pushed + [Some(xs[i])];
      i := i + 1;
    }
    LiftedPrefixAll(pushed, xs);
  }

  /** Pops until the queue is empty; the pops come out in the queue's order
      and are exactly the elements it held. */
  method PopAll<T(!new)>(q: PriorityQueue<T>) returns (ys: seq<T>)
    requires q.Valid()
    modifies q`count, q.heap
    ensures q.Valid() && q.count == 0
    ensures multiset(Lift(ys)) == old(q.Contents())
    ensures SortedBy(q.ActiveOrder(), ys)
  {
    ys := [];
    while q.count > 0
      invariant q.Valid()
      invariant q.Contents() + multiset(Lift(ys)) == old(q.Contents())
      invariant SortedBy(q.ActiveOrder(), ys)
      invariant |ys| > 0 ==> IsLeast(q.ActiveOrder(), ys[|ys| - 1], q.Contents())
      decreases q.count
    {
      ghost var before := q.Contents();
      var r := q.Pop();
      PopAllStep(q.ActiveOrder(), before, q.Contents(), ys, r);
      ys := ys + [r.value];
    }
  }

  /** One round of `PopAll`: appending a least element keeps the pops sorted
      and accounts for it exactly once. */
  lemma PopAllStep<T>(cmp: (T, T) -> int, c: multiset<Option<T>>, c': multiset<Option<T>>, ys: seq<T>, r: Option<T>)
    requires r in c && c' == c - multiset{r} && r.Some? && IsLeast(cmp, r.value, c)
    requires SortedBy(cmp, ys) && (|ys| > 0 ==> IsLeast(cmp, ys[|ys| - 1], c))
    ensures SortedBy(cmp, ys + [r.value]) && IsLeast(cmp, r.value, c')
    ensures c' + multiset(Lift(ys + [r.value])) == c + multiset(Lift(ys))
  {
    SortedSnoc(cmp, ys, r.value, c);
    LeastOfRest(cmp, r.value, c, r);
    LiftSnoc(ys, r.value);
  }

  lemma LeastOfRest<T>(cmp: (T, T) -> int, v: T, c: multiset<Option<T>>, r: Option<T>)
    requires IsLeast(cmp, v, c)
    ensures IsLeast(cmp, v, c - multiset{r})
  {
    forall e | e in c - multiset{r}
      ensures e.Some? && !Lt(cmp, e.value, v)
    {
      assert e in c;
    }
  }

  lemma SortedSnoc<T>(cmp: (T, T) -> int, ys: seq<T>, v: T, c: multiset<Option<T>>)
    requires Some(v) in c
    requires SortedBy(cmp, ys) && (|ys| > 0 ==> IsLeast(cmp, ys[|ys| - 1], c))
    ensures SortedBy(cmp, ys + [v])
  {
    var zs := ys + [v];
    forall k | 0 < k < |zs|
      ensures !Lt(cmp, zs[k], zs[k - 1])
    {
      if k < |ys| {
        assert zs[k] == ys[k] && zs[k - 1] == ys[k - 1];
      } else {
        assert zs[k - 1] == ys[|ys| - 1];
      }
    }
  }

  lemma LiftSnoc<T>(ys: seq<T>, v: T)
    ensures multiset(Lift(ys + [v])) == multiset(Lift(ys)) + multiset{Some(v)}
  {
    assert (ys + [v])[..|ys|] == ys;
  }

  /** Pushes every element of `xs` into an empty queue and then pops until
      it is empty again: the pops are `xs` rearranged into the queue's order,
      across every growth of the array. */
  method PushPopRound<T(!new)>(q: PriorityQueue<T>, xs: seq<T>) returns (ys: seq<T>)
    requires q.Valid() && q.count == 0 && |xs| < Int32Max
    modifies q, q.heap
    ensures fresh(q.heap) || q.heap == old(q.heap)
    ensures q.Valid() && q.count == 0
    ensures multiset(ys) == multiset(xs) && SortedBy(q.ActiveOrder(), ys)
  {
    PushAll(q, xs);
    ys := PopAll(q);
    LiftMultisetInjective(ys, xs);
  }

  /** The same with a new queue of the given capacity and orders. */
  method PushThenPop<T(!new)>(xs: seq<T>, initialCapacity: int, natural: (T, T) -> int, comparator: Option<(T, T) -> int>)
    returns (ys: seq<T>)
    requires 1 <= initialCapacity <= Int32Max && |xs| < Int32Max
    requires StrictWeakOrder(if comparator.Some? then comparator.value else natural)
    ensures multiset(ys) == multiset(xs)
    ensures SortedBy(if comparator.Some? then comparator.value else natural, ys)
  {
    var q := new PriorityQueue(initialCapacity, natural, comparator);
    ys := PushPopRound(q, xs);
  }

  /** The peek client of the test suite: after pushing 4, 2, 3, 1 the root
      is 1 under `CompareTo`, and 4 in a capacity-3 queue (which grows on the
      fourth push) under a reversing comparator. */
  method PeekAfterPushes() returns (natural: Option<int>, reversed: Option<int>)
    ensures natural == Some(1) && reversed == Some(4)
  {
    IntCompareIsStrictWeakOrder();
    ReverseIsStrictWeakOrder(IntCompare);
    var q := new PriorityQueue.Default(IntCompare);
    var c := PushFour(q);
    natural := q.Peek();
    LeastOfFour(IntCompare, c, natural, 1);
    var r := new PriorityQueue(3, IntCompare, Some(Reverse(IntCompare)));
    c := PushFour(r);
    reversed := r.Peek();
    LeastOfFour(Reverse(IntCompare), c, reversed, 4);
  }

  /** Pushes 4, 2, 3, 1 into an empty integer queue. */
  method PushFour(q: PriorityQueue<int>) returns (ghost c: multiset<Option<int>>)
    requires q.Valid() && q.count == 0
    modifies q, q.heap
    ensures fresh(q.heap) || q.heap == old(q.heap)
    ensures q.Valid() && q.Contents() == c
    ensures c == multiset{Some(4), Some(2), Some(3), Some(1)}
  {
    var xs := [4, 2, 3, 1];
    PushAll(q, xs);
    assert Lift(xs) == [Some(4), Some(2), Some(3), Some(1)];
    c := q.Contents();
  }

  /** A least element of 4, 2, 3, 1 is `m` when `m` is before the other three. */
  lemma LeastOfFour(cmp: (int, int) -> int, c: multiset<Option<int>>, r: Option<int>, m: int)
    requires c == multiset{Some(4), Some(2), Some(3), Some(1)} && m in {4, 2, 3, 1}
    requires forall x :: x in {4, 2, 3, 1} && x != m ==> Lt(cmp, m, x)
    requires r in c && IsLeast(cmp, r.value, c)
    ensures r == Some(m)
  {
    assert Some(m) in c;
  }

  /** A strict weak order in which incomparable elements are equal. */
  ghost predicate TotalOrder<T(!new)>(cmp: (T, T) -> int) {
    StrictWeakOrder(cmp) && forall a, b :: !Lt(cmp, a, b) && !Lt(cmp, b, a) ==> a == b
  }

  lemma IntOrdersAreTotal()
    ensures TotalOrder(IntCompare) && TotalOrder(Reverse(IntCompare))
  {
    IntCompareIsStrictWeakOrder();
    ReverseIsStrictWeakOrder(IntCompare);
  }

  /** In a sorted sequence nothing is before the first element. */
  lemma {:induction false} SortedFirstIsLeast<T(!new)>(cmp: (T, T) -> int, ys: seq<T>, k: nat)
    requires StrictWeakOrder(cmp) && SortedBy(cmp, ys) && k < |ys|
    ensures !Lt(cmp, ys[k], ys[0])
    decreases k
  {
    if k > 0 {
      SortedFirstIsLeast(cmp, ys, k - 1);
      NotLtTrans(cmp, ys[k], ys[k - 1], ys[0]);
    }
  }

  /** Under a total order a multiset has exactly one sorted arrangement. */
  lemma {:induction false} SortedUnique<T(!new)>(cmp: (T, T) -> int, xs: seq<T>, ys: seq<T>)
    requires TotalOrder(cmp) && SortedBy(cmp, xs) && SortedBy(cmp, ys)
    requires multiset(xs) == multiset(ys)
    ensures xs == ys
    decreases |xs|
  {
    if xs != [] {
      assert xs[0] in multiset(ys);
      var j :| 0 <= j < |ys| && ys[j] == xs[0];
      SortedFirstIsLeast(cmp, ys, j);
      assert ys[0] in multiset(xs);
      var i :| 0 <= i < |xs| && xs[i] == ys[0];
      SortedFirstIsLeast(cmp, xs, i);
      assert xs[0] == ys[0];
      assert xs == [xs[0]] + xs[1..];
      assert ys == [ys[0]] + ys[1..];
      calc {
        multiset(xs[1..]);
        multiset(xs) - multiset{xs[0]};
        multiset(ys) - multiset{ys[0]};
        multiset(ys[1..]);
      }
      SortedUnique(cmp, xs[1..], ys[1..]);
    }
  }

  /** `0, 1, ..., n - 1`. */
  function CountUp(n: nat): (r: seq<int>)
    ensures |r| == n && forall k :: 0 <= k < n ==> r[k] == k
  {
    if n == 0 then [] else CountUp(n - 1) + [n - 1]
  }

  /** `n - 1, ..., 1, 0`. */
  function CountDown(n: nat): (r: seq<int>)
    ensures |r| == n && forall k :: 0 <= k < n ==> r[k] == n - 1 - k
  {
    if n == 0 then [] else [n - 1] + CountDown(n - 1)
  }

  lemma {:induction false} CountDownPermutesCountUp(n: nat)
    ensures multiset(CountDown(n)) == multiset(CountUp(n))
  {
    if n > 0 {
      CountDownPermutesCountUp(n - 1);
    }
  }

  /** The push client of the test suite, for any `n` (the suite uses 1000):
      pushing `0 .. n - 1` into a default queue and popping everything gives
      `0 .. n - 1`; pushing `n - 1 .. 0` into the same, now empty, queue and
      popping gives `0 .. n - 1` again; pushing `0 .. n - 1` into a
      capacity-3 queue with a reversing comparator and popping gives
      `n - 1 .. 0`. */
  method PushTest(n: nat) returns (ascending: seq<int>, fromDescending: seq<int>, reversed: seq<int>)
    requires n < Int32Max
    ensures ascending == CountUp(n) && fromDescending == CountUp(n)
    ensures reversed == CountDown(n)
  {
    IntOrdersAreTotal();
    CountDownPermutesCountUp(n);
    var q := new PriorityQueue.Default(IntCompare);
    ascending := PushPopRound(q, CountUp(n));
    SortedUnique(IntCompare, ascending, CountUp(n));
    fromDescending := PushPopRound(q, CountDown(n));
    SortedUnique(IntCompare, fromDescending, CountUp(n));
    var r := new PriorityQueue(3, IntCompare, Some(Reverse(IntCompare)));
    reversed := PushPopRound(r, CountUp(n));
    SortedUnique(Reverse(IntCompare), reversed, CountDown(n));
  }

  /** The count client of the test suite: 4 after pushing four elements, 3
      after a pop, 4 after another push; 0 for a new queue, and still 0
      after popping it. */
  method CountTest() returns (counts: seq<nat>, emptyPop: Option<int>)
    ensures counts == [4, 3, 4, 0, 0] && emptyPop.None?
  {
    IntCompareIsStrictWeakOrder();
    var q := new PriorityQueue.Default(IntCompare);
    var c := PushFour(q);
    var c0 := q.Count();
    var _ := q.Pop();
    var c1 := q.Count();
    var _ := q.Push(Some(12));
    var c2 := q.Count();
    var e := new PriorityQueue.Default(IntCompare);
    var c3 := e.Count();
    emptyPop := e.Pop();
    var c4 := e.Count();
    counts := [c0, c1, c2, c3, c4];
  }
}
