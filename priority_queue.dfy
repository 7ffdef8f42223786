/**
 * `PriorityQueue<T>`: a binary min-heap in a growable array. The live
 * elements are the first `count` slots of `heap`; every slot past them holds
 * `None` (a cleared reference). Elements are ordered by the comparator when
 * one was supplied and by the elements' own `CompareTo` otherwise.
 */
module PriorityQueues {
  import opened Wrappers
  import opened HeapOrder

  /** The capacity the parameterless constructor allocates. */
  const DefaultInitialCapacity: int := 11

  /** The capacity `MaybeGrow` allocates when `minCap` exceeds `oldCap`:
      `(oldCap + 1) * 2` below 64, `(oldCap / 2) * 3` from 64 on (in 32-bit
      arithmetic, a negative result being clamped to `Int32.MaxValue`), and
      at least `minCap`. */
  function GrowCapacity(oldCap: int, minCap: int): (c: int)
    requires 0 <= oldCap < minCap <= Int32Max
    ensures oldCap < c <= Int32Max && minCap <= c
  {
    var grown := if oldCap < 64 then Wrap32((oldCap + 1) * 2) else Wrap32((oldCap / 2) * 3);
    var clamped := if grown < 0 then Int32Max else grown;
    if clamped < minCap then minCap else clamped
  }

  /** A small capacity is doubled plus two. */
  lemma GrowSmall(oldCap: int, minCap: int)
    requires 0 <= oldCap < 64 && oldCap < minCap <= Int32Max
    ensures GrowCapacity(oldCap, minCap) == if minCap <= (oldCap + 1) * 2 then (oldCap + 1) * 2 else minCap
  {
  }

  /** A capacity of 64 or more grows by half of its even part, unless that
      overflows 32 bits. */
  lemma GrowLarge(oldCap: int, minCap: int)
    requires 64 <= oldCap && oldCap < minCap <= Int32Max
    ensures (oldCap / 2) * 3 <= Int32Max ==>
      GrowCapacity(oldCap, minCap) == if minCap <= (oldCap / 2) * 3 then (oldCap / 2) * 3 else minCap
    ensures (oldCap / 2) * 3 > Int32Max ==> GrowCapacity(oldCap, minCap) == Int32Max
  {
  }

  /** For an odd capacity the increase is one less than `oldCap + oldCap / 2`. */
  lemma GrowOddCapacity()
    ensures GrowCapacity(65, 66) == 96 && 65 + 65 / 2 == 97
  {
  }

  /** The overflow clamp is reachable: growing a nearly full 32-bit capacity
      wraps `(oldCap / 2) * 3` to a negative number. */
  lemma GrowOverflowClamps()
    ensures Wrap32(((Int32Max - 1) / 2) * 3) < 0
    ensures GrowCapacity(Int32Max - 1, Int32Max) == Int32Max
  {
  }

  class PriorityQueue<T(!new)> {
    var heap: array<Option<T>>
    var count: nat
    /** The elements' own `CompareTo`. */
    const natural: (T, T) -> int
    /** The injected `IComparer`, if any. */
    const comparator: Option<(T, T) -> int>

    /** The comparison every heap operation uses: the comparator when one was
        supplied, the elements' `CompareTo` otherwise. */
    function ActiveOrder(): (cmp: (T, T) -> int)
      ensures comparator.Some? ==> cmp == comparator.value
      ensures comparator.None? ==> cmp == natural
    {
      if comparator.Some? then comparator.value else natural
    }

    ghost predicate Valid()
      reads this, heap
    {
      && 1 <= heap.Length <= Int32Max
      && count <= heap.Length
      && StrictWeakOrder(ActiveOrder())
      && IsHeap(ActiveOrder(), heap[..], count)
      && Cleared(heap[..], count)
    }

    /** The live elements. */
    ghost function Contents(): (m: multiset<Option<T>>)
      reads this, heap
      requires Valid()
      ensures |m| == count
      ensures forall e :: e in m ==> e.Some?
    {
      AllSomeContents(heap[..], count);
      multiset(heap[..count])
    }

    /** The element at the root, or `None` when the queue is empty. */
    ghost function Top(): Option<T>
      reads this, heap
      requires Valid()
    {
      if count == 0 then None else heap[0]
    }

    /** The root of a non-empty queue is a least live element. */
    lemma TopIsLeast()
      requires Valid() && count > 0
      ensures Top() in Contents() && IsLeast(ActiveOrder(), Top().value, Contents())
    {
      RootIsLeast(ActiveOrder(), heap[..], count);
    }

    constructor (initialCapacity: int, natural: (T, T) -> int, comparator: Option<(T, T) -> int>)
      requires 1 <= initialCapacity <= Int32Max
      requires StrictWeakOrder(if comparator.Some? then comparator.value else natural)
      ensures Valid() && fresh(heap)
      ensures count == 0 && heap.Length == initialCapacity
      ensures this.natural == natural && this.comparator == comparator
    {
      this.count := 0;
      this.heap := new Option<T>[initialCapacity](_ => None);
      this.natural := natural;
      this.comparator := comparator;
    }

    /** The parameterless constructor: capacity 11, natural order. */
    constructor Default(natural: (T, T) -> int)
      requires StrictWeakOrder(natural)
      ensures Valid() && fresh(heap)
      ensures count == 0 && heap.Length == DefaultInitialCapacity
      ensures this.natural == natural && this.comparator.None?
    {
      this.count := 0;
      this.heap := new Option<T>[DefaultInitialCapacity](_ => None);
      this.natural := natural;
      this.comparator := None;
    }

    /** The constructor with its argument check: a capacity below 1 throws
        `ArgumentOutOfRangeException`. */
    static method Create(initialCapacity: int, natural: (T, T) -> int, comparator: Option<(T, T) -> int>)
      returns (r: Result<PriorityQueue<T>>)
      requires IsInt32(initialCapacity)
      requires StrictWeakOrder(if comparator.Some? then comparator.value else natural)
      ensures r.Failure? <==> initialCapacity < 1
      ensures r.Failure? ==> r.error == ArgumentOutOfRange
      ensures r.Success? ==> fresh(r.value) && fresh(r.value.heap) && r.value.Valid()
      ensures r.Success? ==> r.value.count == 0 && r.value.heap.Length == initialCapacity
    {
      if initialCapacity < 1 {
        return Failure(ArgumentOutOfRange);
      }
      var q := new PriorityQueue(initialCapacity, natural, comparator);
      r := Success(q);
    }

    function Count(): (n: nat)
      reads this, heap
      requires Valid()
      ensures n == |Contents()|
    {
      count
    }

    /** Adds `x`. A null `x` throws `ArgumentNullException`; a queue already
        holding `Int32.MaxValue` elements makes `MaybeGrow(count + 1)` see a
        negative capacity and throw `ArgumentOutOfRangeException`. */
    method Push(x: Option<T>) returns (r: Outcome)
      requires Valid()
      modifies this, heap
      ensures Valid()
      ensures x.None? ==> r == Fail(ArgumentNull)
      ensures x.Some? && old(count) == Int32Max ==> r == Fail(ArgumentOutOfRange)
      ensures x.Some? && old(count) < Int32Max ==> r == Pass
      ensures r.Fail? ==> count == old(count) && heap == old(heap) && heap[..] == old(heap[..])
      ensures r.Pass? ==> count == old(count) + 1 && Contents() == old(Contents()) + multiset{x}
      ensures heap == old(heap) || fresh(heap)
      ensures heap.Length >= old(heap.Length)
      ensures old(count) < old(heap.Length) ==> heap == old(heap)
      ensures r.Pass? && old(count) == old(heap.Length) ==> heap.Length == GrowCapacity(old(heap.Length), old(count) + 1)
    {
      if x.None? {
        return Fail(ArgumentNull);
      }
      var i := count;
      r := MaybeGrow(Wrap32(i + 1));
      if r.Fail? {
        return;
      }
      Insert(x);
    }

    /** The second half of `Push`, once there is room: store `x` in the
        first free slot and sift it up. */
    method Insert(x: Option<T>)
      requires Valid() && count < heap.Length && x.Some?
      modifies this`count, heap
      ensures Valid()
      ensures count == old(count) + 1 && Contents() == old(Contents()) + multiset{x}
    {
      var i := count;
      ghost var before := heap[..];
      count := count + 1;
      heap[i] := x;
      assert heap[..] == before[i := x];
      InsertLast(ActiveOrder(), before, i, x);
      if i > 0 {
        ghost var inserted := heap[..];
        Up(i);
        ClearedFrame(inserted, heap[..], count);
      }
    }

    /** Removes and returns the root, or returns `None` (default) when empty. */
    method Pop() returns (r: Option<T>)
      requires Valid()
      modifies this`count, heap
      ensures Valid() && heap == old(heap)
      ensures r == old(Top())
      ensures old(count) == 0 ==> count == 0 && heap[..] == old(heap[..])
      ensures old(count) > 0 ==> count == old(count) - 1 && heap[count].None?
      ensures old(count) > 0 ==> r in old(Contents()) && Contents() == old(Contents()) - multiset{r}
      ensures r.Some? ==> IsLeast(ActiveOrder(), r.value, old(Contents()))
    {
      if count == 0 {
        return None;
      }
      ghost var before := heap[..];
      RemoveRoot(ActiveOrder(), before, count);
      r := heap[0];
      count := count - 1;
      var lastIndex := count;
      heap[0] := heap[lastIndex];
      heap[lastIndex] := None;
      assert heap[..] == before[0 := before[lastIndex]][lastIndex := None];
      if lastIndex != 0 {
        ghost var moved := heap[..];
        Down(0, count);
        ClearedFrame(moved, heap[..], count);
      }
      assert before[..lastIndex + 1][0] == r;
      RootIsLeast(ActiveOrder(), before, lastIndex + 1);
    }

    /** The root without removing it, or `None` (default) when empty. */
    method Peek() returns (r: Option<T>)
      requires Valid()
      ensures r == Top()
      ensures r.None? <==> count == 0
      ensures r.Some? ==> r in Contents() && IsLeast(ActiveOrder(), r.value, Contents())
    {
      if count == 0 {
        return None;
      }
      TopIsLeast();
      return heap[0];
    }

    /** Whether slot `i` sorts before slot `j`: the comparator decides when
        there is one, `CompareTo` otherwise. */
    predicate Less(i: nat, j: nat)
      reads this, heap
      requires i < heap.Length && j < heap.Length && heap[i].Some? && heap[j].Some?
      ensures Less(i, j) <==> Lt(ActiveOrder(), heap[i].value, heap[j].value)
    {
      if comparator.Some? then
        comparator.value(heap[i].value, heap[j].value) < 0
      else
        natural(heap[i].value, heap[j].value) < 0
    }

    method Swap(i: nat, j: nat)
      requires i < heap.Length && j < heap.Length
      modifies heap
      ensures heap[..] == Swapped(old(heap[..]), i, j)
    {
      var temp := heap[i];
      heap[i] := heap[j];
      heap[j] := temp;
    }

    /** Sifts the element at `j0` up until it is not before its parent. */
    method Up(j0: nat)
      requires count <= heap.Length && StrictWeakOrder(ActiveOrder())
      requires UpHole(ActiveOrder(), heap[..], count, j0)
      modifies heap
      ensures IsHeap(ActiveOrder(), heap[..], count)
      ensures multiset(heap[..count]) == old(multiset(heap[..count]))
      ensures heap[count..] == old(heap[count..])
    {
      var j := j0;
      while true
        invariant UpHole(ActiveOrder(), heap[..], count, j)
        invariant multiset(heap[..count]) == old(multiset(heap[..count]))
        invariant heap[count..] == old(heap[count..])
        decreases j
      {
        var i := Parent(j);
        if i == j || !Less(j, i) {
          UpDone(ActiveOrder(), heap[..], count, j);
          break;
        }
        UpStep(ActiveOrder(), heap[..], count, j);
        SwappedPrefixMultiset(heap[..], i, j, count);
        Swap(i, j);
        j := i;
      }
    }

    /** Sifts the element at `i0` down within the first `n` slots, always
        towards the lesser child (the right one when the two tie). */
    method Down(i0: nat, n: nat)
      requires n <= heap.Length && i0 < n && StrictWeakOrder(ActiveOrder())
      requires HeapFrom(ActiveOrder(), heap[..], n, i0 + 1)
      modifies heap
      ensures HeapFrom(ActiveOrder(), heap[..], n, i0)
      ensures multiset(heap[..n]) == old(multiset(heap[..n]))
      ensures heap[n..] == old(heap[n..])
    {
      var i := i0;
      while true
        invariant DownHole(ActiveOrder(), heap[..], n, i0, i)
        invariant multiset(heap[..n]) == old(multiset(heap[..n]))
        invariant heap[n..] == old(heap[n..])
        decreases n - i
      {
        var j1 := 2 * i + 1;
        if j1 >= n {
          DownLeaf(ActiveOrder(), heap[..], n, i0, i);
          break;
        }
        var j := j1;
        var j2 := j1 + 1;
        if j2 < n && !Less(j1, j2) {
          j := j2;
        }
        forall c | 0 < c < n && Parent(c) == i
          ensures !Lt(ActiveOrder(), heap[c].value, heap[j].value)
        {
          ParentOfChild(c, i);
        }
        if !Less(j, i) {
          DownStop(ActiveOrder(), heap[..], n, i0, i, j);
          break;
        }
        DownStep(ActiveOrder(), heap[..], n, i0, i, j);
        SwappedPrefixMultiset(heap[..], i, j, n);
        Swap(i, j);
        i := j;
      }
    }

    /** Turns the live prefix into a heap, sifting down every inner node from
        the last one to the root. */
    method Heapify()
      requires count <= heap.Length && AllSome(heap[..], count) && StrictWeakOrder(ActiveOrder())
      modifies heap
      ensures IsHeap(ActiveOrder(), heap[..], count)
      ensures multiset(heap[..count]) == old(multiset(heap[..count]))
      ensures heap[count..] == old(heap[count..])
    {
      var n: int := count;
      var i := n / 2 - 1;
      while i >= 0
        invariant -1 <= i <= n / 2 - 1
        invariant HeapFrom(ActiveOrder(), heap[..], n, i + 1)
        invariant multiset(heap[..count]) == old(multiset(heap[..count]))
        invariant heap[count..] == old(heap[count..])
      {
        Down(i, count);
        i := i - 1;
      }
    }

    /** Makes room for `minCap` elements. A negative `minCap` throws
        `ArgumentOutOfRangeException`; enough room already is a no-op;
        otherwise a larger array receives the live prefix. */
    method MaybeGrow(minCap: int) returns (r: Outcome)
      requires Valid() && IsInt32(minCap)
      modifies this
      ensures Valid() && count == old(count)
      ensures minCap < 0 ==> r == Fail(ArgumentOutOfRange) && heap == old(heap)
      ensures 0 <= minCap <= old(heap.Length) ==> r == Pass && heap == old(heap)
      ensures old(heap.Length) < minCap ==>
        && r == Pass && fresh(heap)
        && heap.Length == GrowCapacity(old(heap.Length), minCap)
        && heap[..count] == old(heap[..count])
    {
      if minCap < 0 {
        return Fail(ArgumentOutOfRange);
      }
      var oldCap := heap.Length;
      if minCap <= oldCap {
        return Pass;
      }
      var newCap := if oldCap < 64 then Wrap32((oldCap + 1) * 2) else Wrap32((oldCap / 2) * 3);
      if newCap < 0 {
        newCap := Int32Max;
      }
      if newCap < minCap {
        newCap := minCap;
      }
      ghost var before := heap[..];
      var newHeap := new Option<T>[newCap](_ => None);
      forall k | 0 <= k < count {
        newHeap[k] := heap[k];
      }
      heap := newHeap;
      assert heap[..count] == before[..count];
      HeapPrefixFrame(ActiveOrder(), before, heap[..], count);
      r := Pass;
    }
  }
}
