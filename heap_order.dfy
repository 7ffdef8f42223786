/**
 * The arithmetic and ordering facts the array-backed heap rests on:
 * C# 32-bit integers and truncating division, the strict weak order an
 * `IComparable`/`IComparer` is expected to induce, and the heap shape over
 * the live prefix of the backing array, stated on sequences so that the
 * sift-up and sift-down steps can be proved once, away from the array.
 */
module HeapOrder {
  import opened Wrappers

  // ---------------------------------------------------------------------
  // C# `int`
  // ---------------------------------------------------------------------

  const Int32Max: int := 0x7fff_ffff
  const Int32Min: int := -0x8000_0000

  predicate IsInt32(x: int) {
    Int32Min <= x <= Int32Max
  }

  /** The value a C# `int` expression takes when the exact result is `x`
      (unchecked two's-complement wrap-around). */
  function Wrap32(x: int): (r: int)
    ensures IsInt32(r)
    ensures (r - x) % 0x1_0000_0000 == 0
    ensures IsInt32(x) ==> r == x
  {
    (x - Int32Min) % 0x1_0000_0000 + Int32Min
  }

  /** C# `a / 2`, which truncates toward zero (Dafny's `/` is Euclidean
      and rounds down for a negative dividend). */
  function CsHalf(a: int): (q: int)
    ensures a >= 0 ==> a == 2 * q || a == 2 * q + 1
    ensures a < 0 ==> a == 2 * q || a == 2 * q - 1
  {
    if a >= 0 then a / 2 else -((-a) / 2)
  }

  /** The parent index `(k - 1) / 2` as C# computes it. At the root it is
      the root itself, because `-1 / 2 == 0` in C#. */
  function Parent(k: nat): (p: nat)
    ensures k == 0 ==> p == 0
    ensures k > 0 ==> p < k && (k == 2 * p + 1 || k == 2 * p + 2)
  {
    CsHalf(k - 1)
  }

  lemma ParentOfChild(c: nat, i: nat)
    requires c > 0
    ensures Parent(c) == i <==> c == 2 * i + 1 || c == 2 * i + 2
  {
  }

  // ---------------------------------------------------------------------
  // Orderings
  // ---------------------------------------------------------------------

  /** "a sorts strictly before b": a comparison result below zero. */
  predicate Lt<T>(cmp: (T, T) -> int, a: T, b: T) {
    cmp(a, b) < 0
  }

  /** What `CompareTo`/`Compare` must satisfy for a heap to yield its
      minimum: `Lt` is irreflexive-asymmetric, transitive, and
      incomparability is transitive (a strict weak order). */
  ghost predicate StrictWeakOrder<T(!new)>(cmp: (T, T) -> int) {
    && (forall a, b :: Lt(cmp, a, b) ==> !Lt(cmp, b, a))
    && (forall a, b, c :: Lt(cmp, a, b) && Lt(cmp, b, c) ==> Lt(cmp, a, c))
    && (forall a, b, c :: Lt(cmp, a, c) ==> Lt(cmp, a, b) || Lt(cmp, b, c))
  }

  /** `!Lt` (that is, "not before") is transitive under a strict weak order. */
  lemma NotLtTrans<T(!new)>(cmp: (T, T) -> int, a: T, b: T, c: T)
    requires StrictWeakOrder(cmp)
    requires !Lt(cmp, a, b) && !Lt(cmp, b, c)
    ensures !Lt(cmp, a, c)
  {
  }

  /** A comparator that reverses another (the test suite's `RevComp`). */
  function Reverse<T(!new)>(cmp: (T, T) -> int): (r: (T, T) -> int)
    ensures forall a, b :: Lt(r, a, b) <==> Lt(cmp, b, a)
  {
    (a, b) => cmp(b, a)
  }

  lemma ReverseIsStrictWeakOrder<T(!new)>(cmp: (T, T) -> int)
    requires StrictWeakOrder(cmp)
    ensures StrictWeakOrder(Reverse(cmp))
    ensures forall a, b :: Lt(Reverse(cmp), a, b) <==> Lt(cmp, b, a)
  {
    forall a, b
      ensures Lt(Reverse(cmp), a, b) <==> Lt(cmp, b, a)
    {
    }
  }

  /** `Int32.CompareTo` on mathematical integers. */
  function IntCompare(a: int, b: int): (r: int)
    ensures r < 0 <==> a < b
    ensures r == 0 <==> a == b
  {
    if a < b then -1 else if a > b then 1 else 0
  }

  lemma IntCompareIsStrictWeakOrder()
    ensures StrictWeakOrder(IntCompare)
  {
  }

  // ---------------------------------------------------------------------
  // Heap shape on the live prefix of the backing store
  // ---------------------------------------------------------------------

  /** Every live slot (index below `n`) holds an element. */
  ghost predicate AllSome<T>(s: seq<Option<T>>, n: nat) {
    n <= |s| && forall k :: 0 <= k < n ==> s[k].Some?
  }

  /** Every slot from `n` on is cleared. */
  ghost predicate Cleared<T>(s: seq<Option<T>>, n: nat) {
    n <= |s| && forall k :: n <= k < |s| ==> s[k].None?
  }

  /** Clearing survives any change confined to the first `n` slots. */
  lemma ClearedFrame<T>(s: seq<Option<T>>, t: seq<Option<T>>, n: nat)
    requires Cleared(s, n) && |t| == |s| && t[n..] == s[n..]
    ensures Cleared(t, n)
  {
    forall k | n <= k < |t|
      ensures t[k].None?
    {
      assert t[k] == t[n..][k - n];
    }
  }

  /** Slot `k` is not before its parent. */
  ghost predicate OrderedAt<T>(cmp: (T, T) -> int, s: seq<Option<T>>, k: nat)
    requires 0 < k < |s| && s[k].Some? && s[Parent(k)].Some?
  {
    !Lt(cmp, s[k].value, s[Parent(k)].value)
  }

  /** The heap property for every live slot whose parent is at `lo` or
      later; `HeapFrom(cmp, s, n, 0)` is the full heap property. */
  ghost predicate HeapFrom<T>(cmp: (T, T) -> int, s: seq<Option<T>>, n: nat, lo: nat) {
    AllSome(s, n) &&
    forall k {:trigger OrderedAt(cmp, s, k)} :: 0 < k < n && lo <= Parent(k) ==> OrderedAt(cmp, s, k)
  }

  ghost predicate IsHeap<T>(cmp: (T, T) -> int, s: seq<Option<T>>, n: nat) {
    HeapFrom(cmp, s, n, 0)
  }

  /** While sifting up from `j`: the heap property holds except between `j`
      and its parent, and `j`'s children are not before `j`'s parent. */
  ghost predicate UpHole<T>(cmp: (T, T) -> int, s: seq<Option<T>>, n: nat, j: nat) {
    AllSome(s, n) && j < n &&
    (forall k {:trigger OrderedAt(cmp, s, k)} :: 0 < k < n && k != j ==> OrderedAt(cmp, s, k)) &&
    (0 < j ==> forall c :: 0 < c < n && Parent(c) == j ==> !Lt(cmp, s[c].value, s[Parent(j)].value))
  }

  /** While sifting down from `lo`, currently at `i`: the heap property holds
      for every slot whose parent is at `lo` or later, except between `i` and
      its children, and `i`'s children are not before `i`'s parent. */
  ghost predicate DownHole<T>(cmp: (T, T) -> int, s: seq<Option<T>>, n: nat, lo: nat, i: nat) {
    AllSome(s, n) && lo <= i < n &&
    (forall k {:trigger OrderedAt(cmp, s, k)} :: 0 < k < n && lo <= Parent(k) && Parent(k) != i ==> OrderedAt(cmp, s, k)) &&
    (0 < i && lo <= Parent(i) ==>
      forall c :: 0 < c < n && Parent(c) == i ==> !Lt(cmp, s[c].value, s[Parent(i)].value))
  }

  /** `s` with the elements at `i` and `j` exchanged. */
  function Swapped<T>(s: seq<T>, i: nat, j: nat): (r: seq<T>)
    requires i < |s| && j < |s|
    ensures |r| == |s| && r[i] == s[j] && r[j] == s[i]
    ensures forall k :: 0 <= k < |s| && k != i && k != j ==> r[k] == s[k]
  {
    s[i := s[j]][j := s[i]]
  }

  lemma SwappedPrefixMultiset<T>(s: seq<T>, i: nat, j: nat, n: nat)
    requires i < n <= |s| && j < n
    ensures multiset(Swapped(s, i, j)[..n]) == multiset(s[..n])
    ensures Swapped(s, i, j)[n..] == s[n..]
  {
    assert Swapped(s, i, j)[..n] == s[..n][i := s[j]][j := s[i]];
  }

  // ---------------------------------------------------------------------
  // Sift-up
  // ---------------------------------------------------------------------

  /** One iteration of `Up`: swapping `j` with a parent it is before moves
      the hole to the parent. */
  lemma UpStep<T(!new)>(cmp: (T, T) -> int, s: seq<Option<T>>, n: nat, j: nat)
    requires StrictWeakOrder(cmp)
    requires UpHole(cmp, s, n, j) && 0 < j
    requires Lt(cmp, s[j].value, s[Parent(j)].value)
    ensures UpHole(cmp, Swapped(s, Parent(j), j), n, Parent(j))
  {
    var p := Parent(j);
    var t := Swapped(s, p, j);
    forall k | 0 < k < n && k != p
      ensures OrderedAt(cmp, t, k)
    {
      if k == j {
      } else if Parent(k) == j {
      } else if Parent(k) == p {
        assert OrderedAt(cmp, s, k);
      } else {
        assert OrderedAt(cmp, s, k);
      }
    }
    if 0 < p {
      forall c | 0 < c < n && Parent(c) == p
        ensures !Lt(cmp, t[c].value, t[Parent(p)].value)
      {
        assert OrderedAt(cmp, s, p);
        if c != j {
          assert OrderedAt(cmp, s, c);
          NotLtTrans(cmp, s[c].value, s[p].value, s[Parent(p)].value);
        }
      }
    }
  }

  /** `Up` stops at the root or where `j` is not before its parent; either
      way the heap property is restored. */
  lemma UpDone<T>(cmp: (T, T) -> int, s: seq<Option<T>>, n: nat, j: nat)
    requires UpHole(cmp, s, n, j)
    requires j == 0 || !Lt(cmp, s[j].value, s[Parent(j)].value)
    ensures IsHeap(cmp, s, n)
  {
  }

  // ---------------------------------------------------------------------
  // Sift-down
  // ---------------------------------------------------------------------

  /** One iteration of `Down`: `j` is a child of `i` that no child of `i`
      is before, and `j` is before `i`; swapping them moves the hole to `j`. */
  lemma DownStep<T(!new)>(cmp: (T, T) -> int, s: seq<Option<T>>, n: nat, lo: nat, i: nat, j: nat)
    requires StrictWeakOrder(cmp)
    requires DownHole(cmp, s, n, lo, i)
    requires 0 < j < n && Parent(j) == i
    requires forall c :: 0 < c < n && Parent(c) == i ==> !Lt(cmp, s[c].value, s[j].value)
    requires Lt(cmp, s[j].value, s[i].value)
    ensures DownHole(cmp, Swapped(s, i, j), n, lo, j)
  {
    var t := Swapped(s, i, j);
    forall k | 0 < k < n && lo <= Parent(k) && Parent(k) != j
      ensures OrderedAt(cmp, t, k)
    {
      if k == j {
      } else if Parent(k) == i {
      } else if k == i {
      } else {
        assert OrderedAt(cmp, s, k);
      }
    }
    forall c | 0 < c < n && Parent(c) == j
      ensures !Lt(cmp, t[c].value, t[Parent(j)].value)
    {
      assert OrderedAt(cmp, s, c);
    }
  }

  /** `Down` stops when `i` has no child inside the live prefix: the hole is closed. */
  lemma DownLeaf<T>(cmp: (T, T) -> int, s: seq<Option<T>>, n: nat, lo: nat, i: nat)
    requires DownHole(cmp, s, n, lo, i)
    requires n <= 2 * i + 1
    ensures HeapFrom(cmp, s, n, lo)
  {
  }

  /** ... or when its least child `j` is not before it; either way the heap
      property holds from `lo` on. */
  lemma DownStop<T(!new)>(cmp: (T, T) -> int, s: seq<Option<T>>, n: nat, lo: nat, i: nat, j: nat)
    requires StrictWeakOrder(cmp)
    requires DownHole(cmp, s, n, lo, i)
    requires 0 < j < n && Parent(j) == i
    requires forall c :: 0 < c < n && Parent(c) == i ==> !Lt(cmp, s[c].value, s[j].value)
    requires !Lt(cmp, s[j].value, s[i].value)
    ensures HeapFrom(cmp, s, n, lo)
  {
    forall c | 0 < c < n && Parent(c) == i
      ensures OrderedAt(cmp, s, c)
    {
      NotLtTrans(cmp, s[c].value, s[j].value, s[i].value);
    }
  }

  // ---------------------------------------------------------------------
  // The root is a minimum
  // ---------------------------------------------------------------------

  /** In a heap no live element is before the root: follow the parent chain
      from `k` up to the root. */
  lemma {:induction false} RootIsMinimum<T(!new)>(cmp: (T, T) -> int, s: seq<Option<T>>, n: nat, k: nat)
    requires StrictWeakOrder(cmp)
    requires IsHeap(cmp, s, n) && k < n
    ensures !Lt(cmp, s[k].value, s[0].value)
    decreases k
  {
    if k > 0 {
      assert OrderedAt(cmp, s, k);
      RootIsMinimum(cmp, s, n, Parent(k));
      NotLtTrans(cmp, s[k].value, s[Parent(k)].value, s[0].value);
    }
  }

  /** `v` is not after any element of `m` (and `m` holds no empty slot). */
  ghost predicate IsLeast<T>(cmp: (T, T) -> int, v: T, m: multiset<Option<T>>) {
    forall e :: e in m ==> e.Some? && !Lt(cmp, e.value, v)
  }

  /** The root of a non-empty heap is a least element of the live prefix. */
  lemma RootIsLeast<T(!new)>(cmp: (T, T) -> int, s: seq<Option<T>>, n: nat)
    requires StrictWeakOrder(cmp)
    requires IsHeap(cmp, s, n) && 0 < n
    ensures IsLeast(cmp, s[0].value, multiset(s[..n]))
  {
    forall e | e in multiset(s[..n])
      ensures e.Some? && !Lt(cmp, e.value, s[0].value)
    {
      var k :| 0 <= k < n && s[..n][k] == e;
      RootIsMinimum(cmp, s, n, k);
    }
  }

  /** Moving the last live element to the root and clearing its slot removes
      exactly one occurrence of the old root from the live prefix. */
  lemma PopPrefixMultiset<T>(s: seq<Option<T>>, n: nat)
    requires 0 < n <= |s|
    ensures multiset(s[0 := s[n - 1]][n - 1 := None][..n - 1]) == multiset(s[..n]) - multiset{s[0]}
  {
    var t := s[0 := s[n - 1]][n - 1 := None];
    if n == 1 {
      assert s[..n] == [s[0]];
    } else {
      assert t[..n - 1] == s[..n - 1][0 := s[n - 1]];
      assert s[..n] == s[..n - 1] + [s[n - 1]];
      assert s[0] in multiset(s[..n - 1]);
    }
  }

  /** Every live slot holds an element exactly when the multiset of the live
      prefix holds no empty slot. */
  lemma AllSomeContents<T>(s: seq<Option<T>>, n: nat)
    requires AllSome(s, n)
    ensures forall e :: e in multiset(s[..n]) ==> e.Some?
  {
    forall e | e in multiset(s[..n])
      ensures e.Some?
    {
      var k :| 0 <= k < n && s[..n][k] == e;
    }
  }

  /** `xs` as non-null references. */
  function Lift<T>(xs: seq<T>): (r: seq<Option<T>>)
    ensures |r| == |xs| && forall k :: 0 <= k < |xs| ==> r[k] == Some(xs[k])
  {
    if xs == [] then [] else Lift(xs[..|xs| - 1]) + [Some(xs[|xs| - 1])]
  }

  /** `p` is the lifting of the first `i` elements of `xs`. */
  ghost predicate LiftedPrefix<T>(p: seq<Option<T>>, xs: seq<T>, i: nat) {
    |p| == i <= |xs| && forall k :: 0 <= k < i ==> p[k] == Some(xs[k])
  }

  lemma LiftedPrefixSnoc<T>(p: seq<Option<T>>, xs: seq<T>, i: nat)
    requires LiftedPrefix(p, xs, i) && i < |xs|
    ensures LiftedPrefix(p + [Some(xs[i])], xs, i + 1)
  {
  }

  lemma LiftedPrefixAll<T>(p: seq<Option<T>>, xs: seq<T>)
    requires LiftedPrefix(p, xs, |xs|)
    ensures p == Lift(xs)
  {
  }

  /** Lifting keeps every element's multiplicity. */
  lemma {:induction false} LiftMultiplicity<T>(xs: seq<T>, v: T)
    ensures multiset(Lift(xs))[Some(v)] == multiset(xs)[v]
  {
    if xs != [] {
      var init := xs[..|xs| - 1];
      LiftMultiplicity(init, v);
      assert xs == init + [xs[|xs| - 1]];
    }
  }

  lemma LiftMultisetInjective<T>(xs: seq<T>, ys: seq<T>)
    requires multiset(Lift(xs)) == multiset(Lift(ys))
    ensures multiset(xs) == multiset(ys)
  {
    forall v
      ensures multiset(xs)[v] == multiset(ys)[v]
    {
      LiftMultiplicity(xs, v);
      LiftMultiplicity(ys, v);
    }
  }

  // ---------------------------------------------------------------------
  // Inserting at the end, removing the root
  // ---------------------------------------------------------------------

  /** Storing `x` in the first free slot of a heap leaves a sift-up hole at
      that slot and adds `x` to the live elements. */
  lemma InsertLast<T>(cmp: (T, T) -> int, s: seq<Option<T>>, n: nat, x: Option<T>)
    requires IsHeap(cmp, s, n) && Cleared(s, n) && n < |s| && x.Some?
    ensures UpHole(cmp, s[n := x], n + 1, n) && Cleared(s[n := x], n + 1)
    ensures multiset(s[n := x][..n + 1]) == multiset(s[..n]) + multiset{x}
    ensures s[n := x][n + 1..] == s[n + 1..]
  {
    var t := s[n := x];
    assert t[..n + 1] == s[..n] + [x];
    forall k | 0 < k < n + 1 && k != n
      ensures OrderedAt(cmp, t, k)
    {
      assert OrderedAt(cmp, s, k);
    }
  }

  /** Moving the last live element of a heap to the root and clearing its
      slot leaves a sift-down hole at the root. */
  lemma RemoveRoot<T>(cmp: (T, T) -> int, s: seq<Option<T>>, n: nat)
    requires IsHeap(cmp, s, n) && Cleared(s, n) && 0 < n
    ensures HeapFrom(cmp, s[0 := s[n - 1]][n - 1 := None], n - 1, 1)
    ensures Cleared(s[0 := s[n - 1]][n - 1 := None], n - 1)
    ensures multiset(s[0 := s[n - 1]][n - 1 := None][..n - 1]) == multiset(s[..n]) - multiset{s[0]}
    ensures s[0 := s[n - 1]][n - 1 := None][n..] == s[n..]
  {
    var t := s[0 := s[n - 1]][n - 1 := None];
    PopPrefixMultiset(s, n);
    forall k | 0 < k < n - 1 && 1 <= Parent(k)
      ensures OrderedAt(cmp, t, k)
    {
      assert OrderedAt(cmp, s, k);
    }
  }

  /** The heap property depends only on the live prefix. */
  lemma HeapPrefixFrame<T>(cmp: (T, T) -> int, s: seq<Option<T>>, t: seq<Option<T>>, n: nat)
    requires IsHeap(cmp, s, n) && n <= |t| && t[..n] == s[..n]
    ensures IsHeap(cmp, t, n)
  {
    forall k | 0 <= k < n
      ensures t[k] == s[k]
    {
      assert t[k] == t[..n][k];
    }
    forall k | 0 < k < n
      ensures OrderedAt(cmp, t, k)
    {
      assert OrderedAt(cmp, s, k);
    }
  }
}
