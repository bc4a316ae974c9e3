/**
 * The binary min-heap over an Ordered list: the list itself is the heap
 * array, ordered by the Ordered's comparison through Less and Swap, and
 * `container/heap`'s up and down moves keep it a heap. Elements enter
 * through the list's Push (at the front, the last heap position) and leave
 * through its Pop.
 */
module Heaps {
  import opened Ring
  import opened Lists
  import opened Ordering

  // ---------------------------------------------------------------------
  // The heap property
  // ---------------------------------------------------------------------

  /** The parent of heap position c > 0. */
  function Parent(c: int): (p: int)
    requires c > 0
    ensures 0 <= p < c
    ensures c == 2 * p + 1 || c == 2 * p + 2
  {
    (c - 1) / 2
  }

  /** Position c is not less than its parent. */
  ghost predicate Edge<T>(e: seq<T>, cmp: (T, T) -> int, c: int) {
    0 < c < |e| && !(cmp(e[c], e[Parent(c)]) < 0)
  }

  /** The first n positions of e form a heap: no element is less than its parent. */
  ghost predicate HeapPrefix<T>(e: seq<T>, cmp: (T, T) -> int, n: int) {
    n <= |e| && forall c {:trigger Edge(e, cmp, c)} :: 0 < c < n ==> Edge(e, cmp, c)
  }

  /** `container/heap`'s invariant over the whole list. */
  ghost predicate IsHeap<T>(e: seq<T>, cmp: (T, T) -> int) {
    HeapPrefix(e, cmp, |e|)
  }

  /** e with the elements at i and j exchanged, as Swap leaves the list. */
  function Swapped<T>(e: seq<T>, i: int, j: int): (r: seq<T>)
    requires 0 <= i < |e| && 0 <= j < |e|
    ensures |r| == |e| && multiset(r) == multiset(e)
    ensures r[i] == e[j] && r[j] == e[i]
    ensures forall k :: 0 <= k < |e| && k != i && k != j ==> r[k] == e[k]
  {
    e[i := e[j]][j := e[i]]
  }

  /** The root of a heap is not greater than any element. */
  lemma {:induction false} HeapRootMin<T(!new)>(e: seq<T>, cmp: (T, T) -> int, n: int, k: int)
    requires ValidCompare(cmp) && HeapPrefix(e, cmp, n) && 0 <= k < n
    ensures cmp(e[0], e[k]) <= 0
    decreases k
  {
    if k == 0 {
      CompareReflexive(cmp, e[0]);
    } else {
      var p := Parent(k);
      assert Edge(e, cmp, k);
      HeapRootMin(e, cmp, n, p);
      LeTrans(cmp, e[0], e[p], e[k]);
    }
  }

  /**
   * The heap example of `Ordered.Invert`'s documentation: 5, 3, 8 and 9
   * heapified give 3 at the root, and 9 under the inverted ordering.
   */
  lemma HeapDocExample(e: seq<int>)
    requires multiset(e) == multiset{5, 3, 8, 9}
    ensures IsHeap(e, IntCompare) ==> e[0] == 3
    ensures IsHeap(e, Inverse(IntCompare)) ==> e[0] == 9
  {
    assert |e| == 4;
    assert e[0] in multiset(e);
    IntCompareIsValid();
    InverseIsValid(IntCompare);
    if IsHeap(e, IntCompare) {
      assert 3 in multiset(e);
      var k :| 0 <= k < 4 && e[k] == 3;
      HeapRootMin(e, IntCompare, 4, k);
      forall m | 0 <= m < 4
        ensures e[0] <= e[m]
      {
        HeapRootMin(e, IntCompare, 4, m);
      }
    }
    if IsHeap(e, Inverse(IntCompare)) {
      assert 9 in multiset(e);
      var k :| 0 <= k < 4 && e[k] == 9;
      HeapRootMin(e, Inverse(IntCompare), 4, k);
      assert IntCompare(9, e[0]) <= 0;
    }
  }

  // ---------------------------------------------------------------------
  // up: moving an element towards the root
  // ---------------------------------------------------------------------

  /**
   * Everything below bound m is a heap except possibly the edge from j to
   * its parent, and j's children are not less than j's parent.
   */
  ghost predicate UpInv<T>(e: seq<T>, cmp: (T, T) -> int, m: int, j: int) {
    m <= |e| &&
    (forall c {:trigger Edge(e, cmp, c)} :: 0 < c < m && c != j ==> Edge(e, cmp, c)) &&
    (0 < j < m ==> forall c {:trigger e[c]} :: 0 < c < m && Parent(c) == j ==> !(cmp(e[c], e[Parent(j)]) < 0))
  }

  /** Swapping j with a parent it is less than moves the exception up to the parent. */
  lemma UpStep<T(!new)>(e: seq<T>, cmp: (T, T) -> int, m: int, j: int)
    requires ValidCompare(cmp) && UpInv(e, cmp, m, j) && 0 < j < m
    requires cmp(e[j], e[Parent(j)]) < 0
    ensures UpInv(Swapped(e, Parent(j), j), cmp, m, Parent(j))
  {
    var p := Parent(j);
    var e' := Swapped(e, p, j);
    assert cmp(e[p], e[j]) > 0;
    forall c | 0 < c < m && c != p
      ensures Edge(e', cmp, c)
    {
      if c == j {
        assert e'[c] == e[p] && e'[p] == e[j];
      } else if Parent(c) == j {
        assert e'[c] == e[c] && e'[j] == e[p];
      } else if Parent(c) == p {
        assert Edge(e, cmp, c);
        LeTrans(cmp, e[j], e[p], e[c]);
        assert e'[c] == e[c] && e'[p] == e[j];
      } else {
        assert Edge(e, cmp, c);
        assert e'[c] == e[c] && e'[Parent(c)] == e[Parent(c)];
      }
    }
    if 0 < p {
      forall c | 0 < c < m && Parent(c) == p
        ensures !(cmp(e'[c], e'[Parent(p)]) < 0)
      {
        assert Edge(e, cmp, p);
        if c != j {
          assert Edge(e, cmp, c);
          LeTrans(cmp, e[Parent(p)], e[p], e[c]);
        }
      }
    }
  }

  /** Where up stops, the prefix is a heap. */
  lemma UpDone<T>(e: seq<T>, cmp: (T, T) -> int, m: int, j: int)
    requires UpInv(e, cmp, m, j) && j < m
    requires j <= 0 || !(cmp(e[j], e[Parent(j)]) < 0)
    ensures HeapPrefix(e, cmp, m)
  {
    forall c | 0 < c < m
      ensures Edge(e, cmp, c)
    {
    }
  }

  // ---------------------------------------------------------------------
  // down: moving an element away from the root
  // ---------------------------------------------------------------------

  /** Positions down may touch when it starts at i0: i0 and those whose parent is at or after it. */
  predicate Reached(k: int, i0: int) {
    k == i0 || (k > 0 && Parent(k) >= i0)
  }

  /**
   * While moving the element at i down: every edge below n whose parent is
   * at or after i0, other than those from i, holds; and when i has moved
   * off i0, i's children are not less than i's parent.
   */
  ghost predicate DownInv<T>(e: seq<T>, cmp: (T, T) -> int, i0: int, n: int, i: int) {
    n <= |e| &&
    (forall c {:trigger Edge(e, cmp, c)} :: 0 < c < n && Parent(c) >= i0 && Parent(c) != i ==> Edge(e, cmp, c)) &&
    (0 <= i0 < i ==> forall c {:trigger e[c]} :: 0 < c < n && Parent(c) == i ==> !(cmp(e[c], e[Parent(i)]) < 0))
  }

  /** The child down picks: the right one only when it is less than the left one. */
  function LesserChild<T>(e: seq<T>, cmp: (T, T) -> int, i: int, n: int): (j: int)
    requires 0 <= i && 2 * i + 1 < n <= |e|
    ensures j > 0 && Parent(j) == i && j < n
  {
    if 2 * i + 2 < n && cmp(e[2 * i + 2], e[2 * i + 1]) < 0 then 2 * i + 2 else 2 * i + 1
  }

  /** No child of i is less than the child down picks. */
  lemma LesserChildIsLeast<T(!new)>(e: seq<T>, cmp: (T, T) -> int, i: int, n: int, c: int)
    requires ValidCompare(cmp) && 0 <= i && 2 * i + 1 < n <= |e|
    requires 0 < c < n && Parent(c) == i
    ensures !(cmp(e[c], e[LesserChild(e, cmp, i, n)]) < 0)
  {
    CompareReflexive(cmp, e[c]);
  }

  /** Swapping i with a lesser child it is greater than moves the hole down to that child. */
  lemma DownStep<T(!new)>(e: seq<T>, cmp: (T, T) -> int, i0: int, n: int, i: int)
    requires ValidCompare(cmp) && DownInv(e, cmp, i0, n, i) && 0 <= i0 <= i && 2 * i + 1 < n
    requires cmp(e[LesserChild(e, cmp, i, n)], e[i]) < 0
    ensures var j := LesserChild(e, cmp, i, n);
      DownInv(Swapped(e, i, j), cmp, i0, n, j)
  {
    var j := LesserChild(e, cmp, i, n);
    var e' := Swapped(e, i, j);
    assert cmp(e[i], e[j]) > 0;
    forall c | 0 < c < n && Parent(c) >= i0 && Parent(c) != j
      ensures Edge(e', cmp, c)
    {
      if c == i {
      } else if Parent(c) == i {
        LesserChildIsLeast(e, cmp, i, n, c);
      } else {
        assert Edge(e, cmp, c);
      }
    }
    forall c | 0 < c < n && Parent(c) == j
      ensures !(cmp(e'[c], e'[Parent(j)]) < 0)
    {
      assert Edge(e, cmp, c);
    }
  }

  /** Where down stops, every edge whose parent is at or after i0 holds. */
  lemma DownDone<T(!new)>(e: seq<T>, cmp: (T, T) -> int, i0: int, n: int, i: int)
    requires ValidCompare(cmp) && DownInv(e, cmp, i0, n, i) && 0 <= i0 <= i
    requires 2 * i + 1 >= n || !(cmp(e[LesserChild(e, cmp, i, n)], e[i]) < 0)
    ensures forall c {:trigger Edge(e, cmp, c)} :: 0 < c < n && Parent(c) >= i0 ==> Edge(e, cmp, c)
  {
    forall c | 0 < c < n && Parent(c) >= i0
      ensures Edge(e, cmp, c)
    {
      if Parent(c) == i {
        var j := LesserChild(e, cmp, i, n);
        LesserChildIsLeast(e, cmp, i, n, c);
        assert cmp(e[i], e[j]) <= 0;
        LeTrans(cmp, e[i], e[j], e[c]);
      }
    }
  }

  /** Everything down keeps while it runs from i0 with e0 as the starting list. */
  ghost predicate DownState<T>(e: seq<T>, e0: seq<T>, cmp: (T, T) -> int, i0: int, n: int, i: int, top: int) {
    |e| == |e0| && 0 <= i0 <= i && (i == i0 || (i < n && Reached(i, i0))) &&
    DownInv(e, cmp, i0, n, i) &&
    multiset(e) == multiset(e0) &&
    (forall k {:trigger e[k]} :: 0 <= k < |e0| && !(k < n && Reached(k, i0)) ==> e[k] == e0[k]) &&
    (i == i0 ==> e == e0) &&
    (i0 < i ==> 0 < top < n && Parent(top) == i0 && e[i0] == e0[top])
  }

  lemma DownStateStep<T(!new)>(e: seq<T>, e0: seq<T>, cmp: (T, T) -> int, i0: int, n: int, i: int, top: int)
    requires ValidCompare(cmp) && DownState(e, e0, cmp, i0, n, i, top) && 2 * i + 1 < n
    requires cmp(e[LesserChild(e, cmp, i, n)], e[i]) < 0
    ensures var j := LesserChild(e, cmp, i, n);
      DownState(Swapped(e, i, j), e0, cmp, i0, n, j, if i == i0 then j else top)
  {
    DownStep(e, cmp, i0, n, i);
  }

  // ---------------------------------------------------------------------
  // Restoring a heap after one element changed
  // ---------------------------------------------------------------------

  /** e is the heap prefix `before` with (at most) the element at i changed. */
  ghost predicate ChangedAt<T>(before: seq<T>, e: seq<T>, cmp: (T, T) -> int, i: int, n: int) {
    n <= |before| == |e| && HeapPrefix(before, cmp, n) && 0 <= i < n &&
    forall k {:trigger e[k]} :: 0 <= k < n && k != i ==> e[k] == before[k]
  }

  /** Down may start at i: every edge below it already holds. */
  lemma ChangedAtBelow<T>(before: seq<T>, e: seq<T>, cmp: (T, T) -> int, i: int, n: int)
    requires ChangedAt(before, e, cmp, i, n)
    ensures forall c {:trigger Edge(e, cmp, c)} :: 0 < c < n && Parent(c) > i ==> Edge(e, cmp, c)
  {
    forall c | 0 < c < n && Parent(c) > i
      ensures Edge(e, cmp, c)
    {
      assert Edge(before, cmp, c);
      assert e[c] == before[c] && e[Parent(c)] == before[Parent(c)];
    }
  }

  /** When down moved the element, the whole prefix is a heap again. */
  lemma ChangedAtMoved<T(!new)>(before: seq<T>, e: seq<T>, e': seq<T>, cmp: (T, T) -> int, i: int, n: int, top: int)
    requires ValidCompare(cmp) && ChangedAt(before, e, cmp, i, n) && |e'| == |e|
    requires forall c {:trigger Edge(e', cmp, c)} :: 0 < c < n && Parent(c) >= i ==> Edge(e', cmp, c)
    requires forall k {:trigger e'[k]} :: 0 <= k < |e'| && !(k < n && Reached(k, i)) ==> e'[k] == e[k]
    requires 0 < top < n && Parent(top) == i && e'[i] == e[top]
    ensures HeapPrefix(e', cmp, n)
  {
    forall c | 0 < c < n
      ensures Edge(e', cmp, c)
    {
      if Parent(c) < i {
        assert !Reached(Parent(c), i);
        assert Edge(before, cmp, c);
        if c == i {
          assert Edge(before, cmp, top);
          LeTrans(cmp, before[Parent(i)], before[i], before[top]);
          assert e'[Parent(i)] == before[Parent(i)];
        } else {
          assert !Reached(c, i);
          assert e'[c] == before[c] && e'[Parent(c)] == before[Parent(c)];
        }
      }
    }
  }

  /** When down left the element in place, up may start from it. */
  lemma ChangedAtStayed<T(!new)>(before: seq<T>, e: seq<T>, cmp: (T, T) -> int, i: int, n: int)
    requires ValidCompare(cmp) && ChangedAt(before, e, cmp, i, n)
    requires forall c {:trigger Edge(e, cmp, c)} :: 0 < c < n && Parent(c) >= i ==> Edge(e, cmp, c)
    ensures UpInv(e, cmp, n, i)
  {
    forall c | 0 < c < n && c != i
      ensures Edge(e, cmp, c)
    {
      if Parent(c) < i {
        assert Edge(before, cmp, c);
        assert e[c] == before[c] && e[Parent(c)] == before[Parent(c)];
      }
    }
    if 0 < i {
      forall c | 0 < c < n && Parent(c) == i
        ensures !(cmp(e[c], e[Parent(i)]) < 0)
      {
        assert Edge(before, cmp, c) && Edge(before, cmp, i);
        LeTrans(cmp, before[Parent(i)], before[i], before[c]);
        assert e[c] == before[c] && e[Parent(i)] == before[Parent(i)];
      }
    }
  }

  /** A heap prefix stays a heap when cut there. */
  lemma HeapPrefixTake<T>(e: seq<T>, cmp: (T, T) -> int, n: int)
    requires HeapPrefix(e, cmp, n) && 0 <= n
    ensures IsHeap(e[..n], cmp)
  {
    forall c | 0 < c < n
      ensures Edge(e[..n], cmp, c)
    {
      assert Edge(e, cmp, c);
    }
  }

  /** Exchanging i with the last element leaves the rest of the heap changed only at i. */
  lemma SwapLastChanges<T>(e: seq<T>, cmp: (T, T) -> int, i: int)
    requires IsHeap(e, cmp) && 0 <= i < |e| - 1
    ensures ChangedAt(e, Swapped(e, i, |e| - 1), cmp, i, |e| - 1)
  {
    var n := |e| - 1;
    forall c | 0 < c < n
      ensures Edge(e, cmp, c)
    {
      assert Edge(e, cmp, c);
    }
  }

  /** After the list's Push, up may start from the new last element. */
  lemma PushedUpInv<T>(e: seq<T>, e1: seq<T>, cmp: (T, T) -> int, v: T)
    requires IsHeap(e, cmp) && (e1 == e + [v] || e1 == e)
    ensures UpInv(e1, cmp, |e1|, |e1| - 1)
  {
    forall c | 0 < c < |e1| && c != |e1| - 1
      ensures Edge(e1, cmp, c)
    {
      assert Edge(e, cmp, c);
    }
  }

  /**
   * The state Pop leaves before the list's Pop: a heap on [0, n) and the
   * old root at n. Taking n off yields a heap, the root, and nothing lost.
   */
  lemma PoppedRoot<T(!new)>(e: seq<T>, e2: seq<T>, cmp: (T, T) -> int, n: int)
    requires ValidCompare(cmp) && IsHeap(e, cmp) && 0 <= n && |e| == |e2| == n + 1
    requires forall c {:trigger Edge(e2, cmp, c)} :: 0 < c < n && Parent(c) >= 0 ==> Edge(e2, cmp, c)
    requires e2[n] == e[0] && multiset(e2) == multiset(e)
    ensures IsHeap(e2[..n], cmp)
    ensures multiset(e2[..n]) + multiset{e2[n]} == multiset(e)
    ensures forall k :: 0 <= k < |e| ==> cmp(e2[n], e[k]) <= 0
  {
    HeapPrefixTake(e2, cmp, n);
    assert e2 == e2[..n] + [e2[n]];
    forall k | 0 <= k < |e|
      ensures cmp(e2[n], e[k]) <= 0
    {
      HeapRootMin(e, cmp, |e|, k);
    }
  }

  /** A heap on [0, n) with one more element at n: cutting at n loses only that element. */
  lemma TakenLast<T>(e: seq<T>, e2: seq<T>, cmp: (T, T) -> int, n: int)
    requires 0 <= n && |e2| == n + 1 && HeapPrefix(e2, cmp, n) && multiset(e2) == multiset(e)
    ensures IsHeap(e2[..n], cmp)
    ensures multiset(e2[..n]) + multiset{e2[n]} == multiset(e)
  {
    HeapPrefixTake(e2, cmp, n);
    assert e2 == e2[..n] + [e2[n]];
  }

  /** One element of a heap changed in place is a heap changed at that element. */
  lemma ChangedInPlace<T>(before: seq<T>, e: seq<T>, cmp: (T, T) -> int, i: int)
    requires IsHeap(before, cmp) && |e| == |before| && 0 <= i < |e|
    requires forall k :: 0 <= k < |e| && k != i ==> e[k] == before[k]
    ensures ChangedAt(before, e, cmp, i, |e|)
  {
  }

  // ---------------------------------------------------------------------
  // Heap
  // ---------------------------------------------------------------------

  /** `Heap`: an Ordered used through container/heap. */
  datatype Heap<!T(!new)> = Heap(ord: Ordered<T>)
  {
    ghost function Elements(): seq<T>
      reads ord.list, ord.list.buf
      requires ord.list.Valid()
    {
      ord.list.Elements()
    }

    /** Less on heap positions below n compares the elements there. */
    lemma LessIsElementCompare(a: int, b: int, n: int)
      requires ord.list.Valid() && n <= ord.list.len
      ensures 0 <= a < n && 0 <= b < n ==>
        (ord.Less(a, b) <==> ord.cmp(Elements()[a], Elements()[b]) < 0)
    {
    }

    /** One round of down at i: stop, or swap i with its lesser child j when j is less. */
    method DownOnce(i: int, n: int) returns (stop: bool, j: int)
      requires ord.list.Valid() && 0 <= i && n <= ord.list.len
      modifies ord.list.buf
      ensures ord.list.Valid()
      ensures stop ==> Elements() == old(Elements())
      ensures stop ==> 2 * i + 1 >= n || !(ord.cmp(Elements()[LesserChild(Elements(), ord.cmp, i, n)], Elements()[i]) < 0)
      ensures !stop ==> 2 * i + 1 < n && j == LesserChild(old(Elements()), ord.cmp, i, n)
      ensures !stop ==> ord.cmp(old(Elements())[j], old(Elements())[i]) < 0
      ensures !stop ==> Elements() == Swapped(old(Elements()), i, j)
    {
      ghost var e := Elements();
      var j1 := 2 * i + 1;
      if j1 >= n {
        return true, 0;
      }
      j := j1;
      var j2 := j1 + 1;
      if j2 < n && ord.Less(j2, j1) {
        j := j2;
      }
      LessIsElementCompare(j2, j1, n);
      assert j == LesserChild(e, ord.cmp, i, n);
      LessIsElementCompare(j, i, n);
      if !ord.Less(j, i) {
        return true, j;
      }
      ord.list.Swap(i, j);
      stop := false;
    }

    /** `up(h, j)`: swap j with its parent while it is less than the parent. */
    method Up(j0: int, ghost m: int)
      requires ord.list.Valid() && ValidCompare(ord.cmp)
      requires -1 <= j0 < m <= ord.list.len && UpInv(Elements(), ord.cmp, m, j0)
      modifies ord.list.buf
      ensures ord.list.Valid()
      ensures multiset(Elements()) == multiset(old(Elements()))
      ensures Elements()[m..] == old(Elements())[m..]
      ensures HeapPrefix(Elements(), ord.cmp, m)
    {
      var j := j0;
      var i := GoDiv(j - 1, 2);
      while i != j && ord.Less(j, i)
        invariant ord.list.Valid() && ord.list.len == |old(Elements())|
        invariant -1 <= j < m && UpInv(Elements(), ord.cmp, m, j)
        invariant i == GoDiv(j - 1, 2) && (0 < j ==> i == Parent(j))
        invariant multiset(Elements()) == multiset(old(Elements()))
        invariant Elements()[m..] == old(Elements())[m..]
        decreases j
      {
        UpSwap(j, m);
        j := i;
        i := GoDiv(j - 1, 2);
      }
      if 0 < j {
        ord.LessInRange(j, i);
      }
      UpDone(Elements(), ord.cmp, m, j);
    }

    /** One swap of up: j, less than its parent, trades places with it. */
    method UpSwap(j: int, ghost m: int)
      requires ord.list.Valid() && ValidCompare(ord.cmp)
      requires 0 < j < m <= ord.list.len && UpInv(Elements(), ord.cmp, m, j)
      requires ord.Less(j, Parent(j))
      modifies ord.list.buf
      ensures ord.list.Valid() && ord.list.len == old(ord.list.len)
      ensures UpInv(Elements(), ord.cmp, m, Parent(j))
      ensures multiset(Elements()) == multiset(old(Elements()))
      ensures Elements()[m..] == old(Elements())[m..]
    {
      ord.LessInRange(j, Parent(j));
      UpStep(Elements(), ord.cmp, m, j);
      ord.list.Swap(Parent(j), j);
    }

    /**
     * `down(h, i0, n)`: swap i with its lesser child while that child is less,
     * within the first n positions; reports whether the element moved.
     */
    method Down(i0: int, n: int) returns (moved: bool, ghost top: int)
      requires ord.list.Valid() && ValidCompare(ord.cmp)
      requires 0 <= i0 && n <= ord.list.len
      requires forall c {:trigger Edge(Elements(), ord.cmp, c)} :: 0 < c < n && Parent(c) > i0 ==> Edge(Elements(), ord.cmp, c)
      modifies ord.list.buf
      ensures ord.list.Valid()
      ensures multiset(Elements()) == multiset(old(Elements()))
      ensures forall c {:trigger Edge(Elements(), ord.cmp, c)} :: 0 < c < n && Parent(c) >= i0 ==> Edge(Elements(), ord.cmp, c)
      ensures forall k {:trigger Elements()[k]} :: 0 <= k < |Elements()| && !(k < n && Reached(k, i0)) ==>
        Elements()[k] == old(Elements())[k]
      ensures !moved ==> Elements() == old(Elements())
      ensures moved ==> 0 < top < n && Parent(top) == i0 && Elements()[i0] == old(Elements())[top]
    {
      ghost var e0 := Elements();
      var i := i0;
      top := 0;
      while true
        invariant ord.list.Valid() && ord.list.len == |e0|
        invariant DownState(Elements(), e0, ord.cmp, i0, n, i, top)
        decreases n - i
      {
        ghost var e := Elements();
        var stop, j := DownOnce(i, n);
        if stop {
          break;
        }
        DownStateStep(e, e0, ord.cmp, i0, n, i, top);
        if i == i0 {
          top := j;
        }
        i := j;
      }
      assert 2 * i + 1 >= n || !(ord.cmp(Elements()[LesserChild(Elements(), ord.cmp, i, n)], Elements()[i]) < 0);
      DownDone(Elements(), ord.cmp, i0, n, i);
      moved := i > i0;
    }

    /** `if !down(h, i, n) { up(h, i) }`: the repair Fix and Remove share. */
    method Restore(i: int, n: int, ghost before: seq<T>)
      requires ord.list.Valid() && ValidCompare(ord.cmp) && n <= ord.list.len
      requires ChangedAt(before, Elements(), ord.cmp, i, n)
      modifies ord.list.buf
      ensures ord.list.Valid()
      ensures multiset(Elements()) == multiset(old(Elements()))
      ensures HeapPrefix(Elements(), ord.cmp, n)
      ensures Elements()[n..] == old(Elements())[n..]
    {
      ghost var e := Elements();
      ChangedAtBelow(before, e, ord.cmp, i, n);
      var moved;
      ghost var top;
      moved, top := Down(i, n);
      if moved {
        ChangedAtMoved(before, e, Elements(), ord.cmp, i, n, top);
      } else {
        ChangedAtStayed(before, e, ord.cmp, i, n);
        Up(i, n);
      }
      assert Elements()[n..] == e[n..];
    }

    /** `Init`: heapify by moving down every element that has children, last first. */
    method Init()
      requires ord.list.Valid() && ValidCompare(ord.cmp)
      modifies ord.list.buf
      ensures ord.list.Valid()
      ensures multiset(Elements()) == multiset(old(Elements()))
      ensures IsHeap(Elements(), ord.cmp)
    {
      var n := ord.list.Len();
      var i := n / 2 - 1;
      while i >= 0
        invariant ord.list.Valid() && ord.list.len == n
        invariant -1 <= i
        invariant forall c {:trigger Edge(Elements(), ord.cmp, c)} :: 0 < c < n && Parent(c) > i ==> Edge(Elements(), ord.cmp, c)
        invariant multiset(Elements()) == multiset(old(Elements()))
      {
        var moved;
        ghost var top;
        moved, top := Down(i, n);
        i := i - 1;
      }
    }

    /** `Fix(i)`: re-establish the heap after the element at i changed. */
    method Fix(i: int, ghost before: seq<T>)
      requires ord.list.Valid() && ValidCompare(ord.cmp) && 0 <= i < ord.list.len
      requires IsHeap(before, ord.cmp) && |before| == ord.list.len
      requires forall k :: 0 <= k < |before| && k != i ==> Elements()[k] == before[k]
      modifies ord.list.buf
      ensures ord.list.Valid()
      ensures multiset(Elements()) == multiset(old(Elements()))
      ensures IsHeap(Elements(), ord.cmp)
    {
      ChangedInPlace(before, Elements(), ord.cmp, i);
      Restore(i, ord.list.Len(), before);
    }

    /** `Push(v)`: the list's Push, then up from the new last position. */
    method Push(v: T)
      requires ord.list.Valid() && ValidCompare(ord.cmp) && IsHeap(Elements(), ord.cmp)
      modifies ord.list, ord.list.buf
      ensures ord.list.Valid()
      ensures IsHeap(Elements(), ord.cmp)
      ensures multiset(Elements()) == multiset(old(Elements())) + multiset{v} || multiset(Elements()) == multiset(old(Elements()))
      ensures ord.list.policy.Default? || old(ord.list.Free()) > 0 ==>
        multiset(Elements()) == multiset(old(Elements())) + multiset{v}
    {
      ghost var e := Elements();
      ord.list.Push(v);
      ghost var e1 := Elements();
      PushedUpInv(e, e1, ord.cmp, v);
      Up(ord.list.Len() - 1, ord.list.Len());
      assert e1 == e + [v] ==> multiset(e1) == multiset(e) + multiset{v};
    }

    /** The first half of `Pop`: exchange the root with element n, then down over [0, n). */
    method RootToEnd(n: int)
      requires ord.list.Valid() && ValidCompare(ord.cmp) && IsHeap(Elements(), ord.cmp)
      requires n == ord.list.len - 1
      modifies ord.list.buf
      ensures ord.list.Valid() && ord.list.len == old(ord.list.len)
      ensures n < 0 ==> Elements() == old(Elements())
      ensures n >= 0 ==> IsHeap(Elements()[..n], ord.cmp)
      ensures n >= 0 ==> multiset(Elements()[..n]) + multiset{Elements()[n]} == multiset(old(Elements()))
      ensures n >= 0 ==> forall k :: 0 <= k < |old(Elements())| ==> ord.cmp(Elements()[n], old(Elements())[k]) <= 0
      ensures n >= 0 ==> Elements()[n] == old(Elements())[0]
    {
      ghost var e := Elements();
      ord.list.Swap(0, n);
      if n > 0 {
        assert Elements() == Swapped(e, 0, n);
        SwapLastChanges(e, ord.cmp, 0);
        ChangedAtBelow(e, Elements(), ord.cmp, 0, n);
      }
      var moved;
      ghost var top;
      moved, top := Down(0, n);
      if n >= 0 {
        PoppedRoot(e, Elements(), ord.cmp, n);
      }
    }

    /** `Pop()`: the root moved to the last position, then taken off with the list's Pop. */
    method Pop() returns (v: T)
      requires ord.list.Valid() && ValidCompare(ord.cmp) && IsHeap(Elements(), ord.cmp)
      modifies ord.list, ord.list.buf
      ensures ord.list.Valid()
      ensures IsHeap(Elements(), ord.cmp)
      ensures old(ord.list.len) == 0 ==> v == ord.list.zero && Elements() == old(Elements())
      ensures old(ord.list.len) > 0 ==> multiset(Elements()) + multiset{v} == multiset(old(Elements()))
      ensures old(ord.list.len) > 0 ==> forall k :: 0 <= k < |old(Elements())| ==> ord.cmp(v, old(Elements())[k]) <= 0
      ensures old(ord.list.len) > 0 ==> v == old(Elements())[0]
    {
      var n := ord.list.Len() - 1;
      RootToEnd(n);
      v := ord.list.Pop();
    }

    /** The first half of `Remove`: exchange element i with element n, then repair [0, n). */
    method ToEnd(i: int, n: int)
      requires ord.list.Valid() && ValidCompare(ord.cmp) && IsHeap(Elements(), ord.cmp)
      requires 0 <= i <= n && n == ord.list.len - 1
      modifies ord.list.buf
      ensures ord.list.Valid() && ord.list.len == old(ord.list.len)
      ensures IsHeap(Elements()[..n], ord.cmp) && Elements()[n] == old(Elements())[i]
      ensures multiset(Elements()[..n]) + multiset{Elements()[n]} == multiset(old(Elements()))
    {
      ghost var e := Elements();
      if n != i {
        ord.list.Swap(i, n);
        assert Elements() == Swapped(e, i, n);
        SwapLastChanges(e, ord.cmp, i);
        Restore(i, n, e);
        assert Elements()[n] == Elements()[n..][0];
      } else {
        assert HeapPrefix(e, ord.cmp, n);
      }
      TakenLast(e, Elements(), ord.cmp, n);
    }

    /** `Remove(i)`: element i moved to the last position, then taken off with the list's Pop. */
    method Remove(i: int) returns (v: T)
      requires ord.list.Valid() && ValidCompare(ord.cmp) && IsHeap(Elements(), ord.cmp)
      requires 0 <= i < ord.list.len
      modifies ord.list, ord.list.buf
      ensures ord.list.Valid()
      ensures IsHeap(Elements(), ord.cmp)
      ensures v == old(Elements())[i]
      ensures multiset(Elements()) + multiset{v} == multiset(old(Elements()))
    {
      var n := ord.list.Len() - 1;
      ToEnd(i, n);
      v := ord.list.Pop();
    }
  }

  /** `Ordered.Heap()`: a heap over the Ordered's list, initialised. */
  method OrderedHeap<T(!new)>(o: Ordered<T>) returns (h: Heap<T>)
    requires o.list.Valid() && ValidCompare(o.cmp)
    modifies o.list.buf
    ensures h.ord == o && o.list.Valid()
    ensures multiset(h.Elements()) == multiset(old(o.list.Elements()))
    ensures IsHeap(h.Elements(), o.cmp)
  {
    h := Heap(o);
    h.Init();
  }

  /** `List.Heap(cmp)`: the list ordered by cmp, as an initialised heap. */
  method ListHeap<T(!new)>(l: List<T>, cmp: (T, T) -> int) returns (h: Heap<T>)
    requires l.Valid() && ValidCompare(cmp)
    modifies l.buf
    ensures h.ord.list == l && h.ord.cmp == cmp && l.Valid()
    ensures multiset(l.Elements()) == multiset(old(l.Elements()))
    ensures IsHeap(l.Elements(), cmp)
  {
    h := OrderedHeap(Ordered(l, cmp));
  }

  /** `NewHeap(cmp)`: a heap over a new empty list; being empty, it needs no Init. */
  method NewHeap<T(!new)>(cmp: (T, T) -> int, zero: T) returns (h: Heap<T>)
    ensures fresh(h.ord.list) && h.ord.list.Valid() && h.ord.cmp == cmp
    ensures h.Elements() == [] && IsHeap(h.Elements(), cmp)
  {
    var o := NewOrdered(cmp, zero);
    h := Heap(o);
  }
}
