/**
 * The ordered view of a List: a list paired with a comparison function,
 * with the sort.Interface methods (Len, Less, Swap), sorting, the sortedness
 * check and binary search.
 *
 * A CompareFunc answers a negative number, zero or a positive number as its
 * first operand is less than, equivalent to or greater than its second.
 */
module Ordering {
  import opened Ring
  import opened Lists

  // ---------------------------------------------------------------------
  // Comparison functions
  // ---------------------------------------------------------------------

  /**
   * The comparison is a strict weak ordering: x < y exactly when y > x, and
   * "not greater than" is transitive. Sorting is only promised for these.
   */
  ghost predicate ValidCompare<T(!new)>(cmp: (T, T) -> int) {
    (forall x, y :: cmp(x, y) < 0 <==> cmp(y, x) > 0) &&
    (forall x, y, z :: Chain(cmp, x, y, z) ==> cmp(x, z) <= 0)
  }

  /** x, y, z in order, each not greater than the next. */
  predicate Chain<T>(cmp: (T, T) -> int, x: T, y: T, z: T) {
    cmp(x, y) <= 0 && cmp(y, z) <= 0
  }

  /** Transitivity of "not greater than", one instance at a time. */
  lemma LeTrans<T(!new)>(cmp: (T, T) -> int, x: T, y: T, z: T)
    requires ValidCompare(cmp)
    ensures cmp(x, y) <= 0 && cmp(y, z) <= 0 ==> cmp(x, z) <= 0
  {
    assert Chain(cmp, x, y, z) ==> cmp(x, z) <= 0;
  }

  /** `CompareFunc.Inverse`: the comparison with its operands swapped. */
  function Inverse<T>(cmp: (T, T) -> int): (r: (T, T) -> int)
  {
    (x, y) => cmp(y, x)
  }

  /** Inverting a strict weak ordering gives one, and it reverses every answer. */
  lemma InverseIsValid<T(!new)>(cmp: (T, T) -> int)
    requires ValidCompare(cmp)
    ensures ValidCompare(Inverse(cmp))
    ensures forall x, y :: Inverse(cmp)(x, y) < 0 <==> cmp(x, y) > 0
    ensures forall x, y :: Inverse(cmp)(x, y) == 0 <==> cmp(x, y) == 0
  {
    var inv := Inverse(cmp);
    forall x, y, z | Chain(inv, x, y, z)
      ensures inv(x, z) <= 0
    {
      LeTrans(cmp, z, y, x);
    }
  }

  /** Inverting twice gives back the original answers. */
  lemma InverseInverse<T>(cmp: (T, T) -> int, x: T, y: T)
    ensures Inverse(Inverse(cmp))(x, y) == cmp(x, y)
  {
  }

  /** A strict weak ordering finds every value equivalent to itself. */
  lemma CompareReflexive<T(!new)>(cmp: (T, T) -> int, x: T)
    requires ValidCompare(cmp)
    ensures cmp(x, x) == 0
  {
    assert cmp(x, x) < 0 <==> cmp(x, x) > 0;
  }

  /** The standard comparison of integers (`cmp.Compare`). */
  function IntCompare(x: int, y: int): (r: int)
    ensures r < 0 <==> x < y
    ensures r == 0 <==> x == y
    ensures r > 0 <==> x > y
  {
    if x < y then -1 else if x > y then 1 else 0
  }

  lemma IntCompareIsValid()
    ensures ValidCompare(IntCompare)
  {
  }

  // ---------------------------------------------------------------------
  // Sortedness
  // ---------------------------------------------------------------------

  /** Sorted as `IsSorted` checks it: no element is less than the one before it. */
  ghost predicate Sorted<T>(s: seq<T>, cmp: (T, T) -> int) {
    forall i :: 0 < i < |s| ==> !(cmp(s[i], s[i - 1]) < 0)
  }

  /** Ascending: every element is not greater than every later one. */
  ghost predicate Ascending<T>(s: seq<T>, cmp: (T, T) -> int) {
    forall i, j :: 0 <= i < j < |s| ==> cmp(s[i], s[j]) <= 0
  }

  /** For a strict weak ordering the adjacent check decides the pairwise order. */
  lemma {:induction false} SortedIffAscending<T(!new)>(s: seq<T>, cmp: (T, T) -> int)
    requires ValidCompare(cmp)
    ensures Sorted(s, cmp) <==> Ascending(s, cmp)
  {
    if Sorted(s, cmp) {
      forall i, j | 0 <= i < j < |s|
        ensures cmp(s[i], s[j]) <= 0
      {
        SortedPrefixAscending(s, cmp, i, j);
      }
    }
    if Ascending(s, cmp) {
      forall i | 0 < i < |s|
        ensures !(cmp(s[i], s[i - 1]) < 0)
      {
        assert cmp(s[i - 1], s[i]) <= 0;
      }
    }
  }

  lemma {:induction false} SortedPrefixAscending<T(!new)>(s: seq<T>, cmp: (T, T) -> int, i: int, j: int)
    requires ValidCompare(cmp) && Sorted(s, cmp) && 0 <= i < j < |s|
    ensures cmp(s[i], s[j]) <= 0
    decreases j - i
  {
    assert cmp(s[j - 1], s[j]) <= 0 by {
      assert !(cmp(s[j], s[j - 1]) < 0);
    }
    if i < j - 1 {
      SortedPrefixAscending(s, cmp, i, j - 1);
      LeTrans(cmp, s[i], s[j - 1], s[j]);
    }
  }

  // ---------------------------------------------------------------------
  // Stable insertion sort, as a function
  // ---------------------------------------------------------------------

  /**
   * x inserted into s from the right: it moves left past every element it
   * is less than, and stops at the first one it is not less than.
   */
  function Insert<T>(s: seq<T>, x: T, cmp: (T, T) -> int): (r: seq<T>)
    ensures |r| == |s| + 1
    ensures multiset(r) == multiset(s) + multiset{x}
    decreases |s|
  {
    if |s| == 0 || !(cmp(x, s[|s| - 1]) < 0) then s + [x]
    else
      assert s == s[..|s| - 1] + [s[|s| - 1]];
      Insert(s[..|s| - 1], x, cmp) + [s[|s| - 1]]
  }

  /** The result of the stable sort: the elements inserted one at a time, back first. */
  function StableSorted<T>(e: seq<T>, cmp: (T, T) -> int): (r: seq<T>)
    ensures multiset(r) == multiset(e)
    decreases |e|
  {
    if |e| == 0 then []
    else
      assert e == e[..|e| - 1] + [e[|e| - 1]];
      Insert(StableSorted(e[..|e| - 1], cmp), e[|e| - 1], cmp)
  }

  /** Inserting into an ascending sequence keeps it ascending. */
  lemma {:induction false} InsertAscending<T(!new)>(s: seq<T>, x: T, cmp: (T, T) -> int)
    requires ValidCompare(cmp) && Ascending(s, cmp)
    ensures Ascending(Insert(s, x, cmp), cmp)
    decreases |s|
  {
    if |s| == 0 || !(cmp(x, s[|s| - 1]) < 0) {
      var r := s + [x];
      forall i, j | 0 <= i < j < |r|
        ensures cmp(r[i], r[j]) <= 0
      {
        if j == |s| {
          assert cmp(s[|s| - 1], x) <= 0;
          if i < |s| - 1 {
            LeTrans(cmp, s[i], s[|s| - 1], x);
          }
        }
      }
    } else {
      var p, y := s[..|s| - 1], s[|s| - 1];
      InsertAscending(p, x, cmp);
      var q := Insert(p, x, cmp);
      assert forall k :: 0 <= k < |p| ==> p[k] == s[k];
      InsertBelow(p, x, y, cmp);
      var r := q + [y];
      assert r == Insert(s, x, cmp);
      forall i, j | 0 <= i < j < |r|
        ensures cmp(r[i], r[j]) <= 0
      {
        if j == |q| {
          assert r[i] == q[i];
        }
      }
    }
  }

  /** Every element of Insert(p, x) stays at or below a bound that p and x respect. */
  lemma {:induction false} InsertBelow<T>(p: seq<T>, x: T, y: T, cmp: (T, T) -> int)
    requires forall k :: 0 <= k < |p| ==> cmp(p[k], y) <= 0
    requires cmp(x, y) <= 0
    ensures forall k :: 0 <= k < |p| + 1 ==> cmp(Insert(p, x, cmp)[k], y) <= 0
    decreases |p|
  {
    if |p| > 0 && cmp(x, p[|p| - 1]) < 0 {
      InsertBelow(p[..|p| - 1], x, y, cmp);
    }
  }

  /** The stable sort produces an ascending sequence. */
  lemma {:induction false} StableSortedAscending<T(!new)>(e: seq<T>, cmp: (T, T) -> int)
    requires ValidCompare(cmp)
    ensures Ascending(StableSorted(e, cmp), cmp)
    decreases |e|
  {
    if |e| > 0 {
      StableSortedAscending(e[..|e| - 1], cmp);
      InsertAscending(StableSorted(e[..|e| - 1], cmp), e[|e| - 1], cmp);
    }
  }

  /** The elements of s equivalent to z, in their order in s. */
  function Equivalents<T>(s: seq<T>, cmp: (T, T) -> int, z: T): (r: seq<T>)
    ensures forall k :: 0 <= k < |r| ==> cmp(r[k], z) == 0
    ensures |r| <= |s|
    decreases |s|
  {
    if |s| == 0 then []
    else
      Equivalents(s[..|s| - 1], cmp, z) + (if cmp(s[|s| - 1], z) == 0 then [s[|s| - 1]] else [])
  }

  lemma EquivalentsAppend<T>(s: seq<T>, y: T, cmp: (T, T) -> int, z: T)
    ensures Equivalents(s + [y], cmp, z) ==
      Equivalents(s, cmp, z) + (if cmp(y, z) == 0 then [y] else [])
  {
    assert (s + [y])[..|s|] == s;
  }

  /** Insertion puts x after every element equivalent to it. */
  lemma {:induction false} InsertEquivalents<T(!new)>(s: seq<T>, x: T, cmp: (T, T) -> int, z: T)
    requires ValidCompare(cmp)
    ensures Equivalents(Insert(s, x, cmp), cmp, z) ==
      Equivalents(s, cmp, z) + (if cmp(x, z) == 0 then [x] else [])
    decreases |s|
  {
    if |s| == 0 || !(cmp(x, s[|s| - 1]) < 0) {
      EquivalentsAppend(s, x, cmp, z);
    } else {
      var p, y := s[..|s| - 1], s[|s| - 1];
      assert s == p + [y];
      InsertEquivalents(p, x, cmp, z);
      EquivalentsAppend(Insert(p, x, cmp), y, cmp, z);
      EquivalentsAppend(p, y, cmp, z);
      if cmp(x, z) == 0 {
        assert cmp(z, x) == 0;
        LeTrans(cmp, y, z, x);
        assert cmp(y, x) > 0;
      }
    }
  }

  /** Stability: equivalent elements keep their relative order. */
  lemma {:induction false} StableSortedIsStable<T(!new)>(e: seq<T>, cmp: (T, T) -> int, z: T)
    requires ValidCompare(cmp)
    ensures Equivalents(StableSorted(e, cmp), cmp, z) == Equivalents(e, cmp, z)
    decreases |e|
  {
    if |e| > 0 {
      var p, x := e[..|e| - 1], e[|e| - 1];
      StableSortedIsStable(p, cmp, z);
      InsertEquivalents(StableSorted(p, cmp), x, cmp, z);
    }
  }

  /** A non-empty sequence is its prefix plus its last element. */
  lemma SplitLast<T>(s: seq<T>)
    requires |s| > 0
    ensures s == s[..|s| - 1] + [s[|s| - 1]]
  {
  }

  /** A sorted sequence is left as it is (for any comparison). */
  lemma {:induction false} StableSortedOfSorted<T>(e: seq<T>, cmp: (T, T) -> int)
    requires Sorted(e, cmp)
    ensures StableSorted(e, cmp) == e
    decreases |e|
  {
    if |e| > 0 {
      var p := e[..|e| - 1];
      assert Sorted(p, cmp);
      StableSortedOfSorted(p, cmp);
      SplitLast(e);
    }
  }

  /** Sorting twice is sorting once. */
  lemma StableSortedIdempotent<T(!new)>(e: seq<T>, cmp: (T, T) -> int)
    requires ValidCompare(cmp)
    ensures StableSorted(StableSorted(e, cmp), cmp) == StableSorted(e, cmp)
  {
    StableSortedAscending(e, cmp);
    SortedIffAscending(StableSorted(e, cmp), cmp);
    StableSortedOfSorted(StableSorted(e, cmp), cmp);
  }

  // ---------------------------------------------------------------------
  // Binary search (sort.Find)
  // ---------------------------------------------------------------------

  /**
   * The halving search of `sort.Find` over e[lo..hi], with the probe f
   * applied to the element at the middle position: a positive answer
   * continues right of it, any other answer at or left of it.
   */
  function Search<T>(e: seq<T>, f: T -> int, lo: int, hi: int): (r: int)
    requires 0 <= lo <= hi <= |e|
    ensures lo <= r <= hi
    decreases hi - lo
  {
    if lo < hi then
      var h := (lo + hi) / 2;
      if f(e[h]) > 0 then Search(e, f, h + 1, hi) else Search(e, f, lo, h)
    else lo
  }

  /** The answer of `sort.Find(len(e), ...)`: the position and whether the probe hit zero there. */
  function FindIn<T>(e: seq<T>, f: T -> int): (r: (int, bool))
    ensures 0 <= r.0 <= |e|
    ensures r.1 <==> r.0 < |e| && f(e[r.0]) == 0
  {
    var i := Search(e, f, 0, |e|);
    (i, i < |e| && f(e[i]) == 0)
  }

  /** Position r splits e where f stops being positive: positive just before r, not positive at r. */
  ghost predicate OnBoundary<T>(e: seq<T>, f: T -> int, r: int)
  {
    0 <= r <= |e| && (r == 0 || f(e[r - 1]) > 0) && (r == |e| || f(e[r]) <= 0)
  }

  /** A positive probe at the middle continues the search right of it. */
  lemma SearchRight<T>(e: seq<T>, f: T -> int, lo: int, hi: int)
    requires 0 <= lo < hi <= |e| && f(e[(lo + hi) / 2]) > 0
    ensures Search(e, f, lo, hi) == Search(e, f, (lo + hi) / 2 + 1, hi)
  {
  }

  /** Any other answer at the middle continues the search up to it. */
  lemma SearchLeft<T>(e: seq<T>, f: T -> int, lo: int, hi: int)
    requires 0 <= lo < hi <= |e| && f(e[(lo + hi) / 2]) <= 0
    ensures Search(e, f, lo, hi) == Search(e, f, lo, (lo + hi) / 2)
  {
  }

  /**
   * Whatever the probe, the search stops on a boundary: the probe is
   * positive just before the answer and not positive at it.
   */
  lemma {:induction false} SearchBoundary<T>(e: seq<T>, f: T -> int, lo: int, hi: int)
    requires 0 <= lo <= hi <= |e|
    requires lo == 0 || f(e[lo - 1]) > 0
    requires hi == |e| || f(e[hi]) <= 0
    ensures OnBoundary(e, f, Search(e, f, lo, hi))
    decreases hi - lo
  {
    if lo < hi {
      var h := (lo + hi) / 2;
      if f(e[h]) > 0 {
        SearchRight(e, f, lo, hi);
        SearchBoundary(e, f, h + 1, hi);
      } else {
        SearchLeft(e, f, lo, hi);
        SearchBoundary(e, f, lo, h);
      }
    }
  }

  /**
   * With an ascending sequence and the probe x => cmp(v, x), the boundary
   * is the first element not less than v: everything before it is less.
   */
  lemma FindInIsLowerBound<T(!new)>(e: seq<T>, cmp: (T, T) -> int, v: T)
    requires ValidCompare(cmp) && Ascending(e, cmp)
    ensures var (i, found) := FindIn(e, Probe(cmp, v));
      (forall k :: 0 <= k < i ==> cmp(e[k], v) < 0) &&
      (i < |e| ==> cmp(e[i], v) >= 0) &&
      (found <==> i < |e| && cmp(e[i], v) == 0)
  {
    var f := Probe(cmp, v);
    SearchBoundary(e, f, 0, |e|);
    var i := Search(e, f, 0, |e|);
    forall k | 0 <= k < i
      ensures cmp(e[k], v) < 0
    {
      assert cmp(v, e[i - 1]) > 0;
      if k < i - 1 {
        assert cmp(e[k], e[i - 1]) <= 0;
      } else {
        CompareReflexive(cmp, e[k]);
      }
      LeTrans(cmp, v, e[k], e[i - 1]);
    }
    if i < |e| {
      assert cmp(v, e[i]) <= 0;
    }
  }

  /** Contains through the corrected search holds exactly when an equivalent element is present. */
  lemma FindInDecidesMembership<T(!new)>(e: seq<T>, cmp: (T, T) -> int, v: T)
    requires ValidCompare(cmp) && Ascending(e, cmp)
    ensures FindIn(e, Probe(cmp, v)).1 <==> exists k :: 0 <= k < |e| && cmp(e[k], v) == 0
  {
    FindInIsLowerBound(e, cmp, v);
    var (i, found) := FindIn(e, Probe(cmp, v));
    if k :| 0 <= k < |e| && cmp(e[k], v) == 0 {
      assert i <= k;
      assert cmp(v, e[k]) <= 0;
      if i < k {
        assert cmp(e[i], e[k]) <= 0;
        LeTrans(cmp, e[i], e[k], v);
      }
      assert cmp(e[i], v) <= 0;
    }
  }

  /** The probe `sort.Find` expects: the target compared with the element. */
  function Probe<T>(cmp: (T, T) -> int, v: T): (f: T -> int)
  {
    x => cmp(v, x)
  }

  /** The probe `Find` passes as written: the element compared with the target. */
  function ProbeAsWritten<T>(cmp: (T, T) -> int, v: T): (f: T -> int)
  {
    x => cmp(x, v)
  }

  /**
   * With its operands reversed the probe is negative on the small elements
   * and the search runs left: 3 in [1, 2, 3] is reported at 0, not found.
   */
  lemma FindAsWrittenMissesPresentValue()
    ensures FindIn([1, 2, 3], ProbeAsWritten(IntCompare, 3)) == (0, false)
    ensures FindIn([1, 2, 3], Probe(IntCompare, 3)) == (2, true)
  {
    var e := [1, 2, 3];
    var f, g := ProbeAsWritten(IntCompare, 3), Probe(IntCompare, 3);
    assert IntCompare(2, 3) == -1 && IntCompare(1, 3) == -1;
    assert f(e[1]) == -1 && f(e[0]) == -1;
    assert Search(e, f, 0, 3) == Search(e, f, 0, 1) == Search(e, f, 0, 0) == 0;
    assert IntCompare(3, 2) == 1 && IntCompare(3, 3) == 0;
    assert g(e[1]) == 1 && g(e[2]) == 0;
    assert Search(e, g, 0, 3) == Search(e, g, 2, 3) == Search(e, g, 2, 2) == 2;
  }

  /** For an ascending sequence the written probe is never positive before v's equivalents begin. */
  lemma ProbeAsWrittenIsInverted<T(!new)>(cmp: (T, T) -> int, v: T, x: T)
    requires ValidCompare(cmp)
    ensures ProbeAsWritten(cmp, v)(x) > 0 <==> Probe(cmp, v)(x) < 0
  {
  }

  // ---------------------------------------------------------------------
  // Ordered
  // ---------------------------------------------------------------------

  /** `Ordered`: a List together with its comparison; `List.Ordered(cmp)` builds one. */
  datatype Ordered<!T(!new)> = Ordered(list: List<T>, cmp: (T, T) -> int)
  {
    /** `Invert`: the same list under the opposite ordering. */
    function Invert(): (o: Ordered<T>)
      ensures o.list == list
      ensures forall x, y :: o.cmp(x, y) == cmp(y, x)
    {
      Ordered(list, Inverse(cmp))
    }

    /** `Less(i, j)`: element i compares below element j (positions as in At). */
    function Less(i: int, j: int): (r: bool)
      reads list, list.buf
      requires list.Valid()
    {
      cmp(list.At(i), list.At(j)) < 0
    }

    /** `Compare(i, j)`: the comparison of element i with element j. */
    function Compare(i: int, j: int): (r: int)
      reads list, list.buf
      requires list.Valid()
    {
      cmp(list.At(i), list.At(j))
    }

    /** Between positions of the list, Less compares the elements there. */
    lemma LessInRange(i: int, j: int)
      requires list.Valid() && 0 <= i < list.len && 0 <= j < list.len
      ensures Less(i, j) <==> cmp(list.Elements()[i], list.Elements()[j]) < 0
    {
    }

    /** Less is Compare below zero; an inverted Ordered answers Less with the operands swapped. */
    lemma LessIsCompareBelowZero(i: int, j: int)
      requires list.Valid()
      ensures Less(i, j) <==> Compare(i, j) < 0
      ensures Invert().Less(i, j) <==> Less(j, i)
    {
    }

    /** Under a strict weak ordering Compare is antisymmetric, and on an empty list Less is false. */
    lemma CompareAntisymmetric(i: int, j: int)
      requires list.Valid() && ValidCompare(cmp)
      ensures Compare(i, j) < 0 <==> Compare(j, i) > 0
      ensures Compare(i, i) == 0
      ensures list.len == 0 ==> !Less(i, j) && Compare(i, j) == 0
    {
      CompareReflexive(cmp, list.At(i));
      CompareReflexive(cmp, list.zero);
    }

    /** `Sort`: the elements rearranged into ascending order. */
    method Sort()
      requires list.Valid()
      modifies list.buf
      ensures list.Valid()
      ensures multiset(list.Elements()) == multiset(old(list.Elements()))
      ensures ValidCompare(cmp) ==> Ascending(list.Elements(), cmp)
    {
      ghost var e := list.Elements();
      SortStable();
      if ValidCompare(cmp) {
        StableSortedAscending(e, cmp);
      }
    }

    /** `SortStable`: insertion sort through Less and Swap. */
    method SortStable()
      requires list.Valid()
      modifies list.buf
      ensures list.Valid()
      ensures list.Elements() == StableSorted(old(list.Elements()), cmp)
    {
      ghost var e := list.Elements();
      var n := list.Len();
      var k := 0;
      assert e[..0] == [] && e[0..] == e;
      while k < n
        invariant list.Valid() && list.len == n == |e|
        invariant 0 <= k <= n
        invariant list.Elements() == StableSorted(e[..k], cmp) + e[k..]
      {
        SortPass(e, k);
        k := k + 1;
      }
      assert e[..n] == e && e[n..] == [];
    }

    /** Pass k of SortStable: e[..k] is sorted already and e[k] joins it. */
    method SortPass(ghost e: seq<T>, k: int)
      requires list.Valid() && list.len == |e| && 0 <= k < |e|
      requires list.Elements() == StableSorted(e[..k], cmp) + e[k..]
      modifies list.buf
      ensures list.Valid()
      ensures list.Elements() == StableSorted(e[..k + 1], cmp) + e[k + 1..]
    {
      InsertFrom(e, StableSorted(e[..k], cmp), k);
      StableSortedStep(e, k, cmp);
    }

    /** `IsSorted`: whether no element is less than the one before it. */
    method IsSorted() returns (r: bool)
      requires list.Valid()
      ensures r <==> Sorted(list.Elements(), cmp)
    {
      var i := list.Len() - 1;
      while i > 0
        invariant i < list.len
        invariant forall k :: 0 < k < list.len && i < k ==> !(cmp(list.Elements()[k], list.Elements()[k - 1]) < 0)
      {
        if Less(i, i - 1) {
          return false;
        }
        i := i - 1;
      }
      return true;
    }

    /** `Find(v)`: binary search for the first element not less than v. */
    method Find(v: T) returns (i: int, found: bool)
      requires list.Valid()
      ensures (i, found) == FindIn(list.Elements(), Probe(cmp, v))
    {
      i, found := SortFind(list, Probe(cmp, v));
    }

    /** `Find` as written, with the probe's operands reversed. */
    method FindAsWritten(v: T) returns (i: int, found: bool)
      requires list.Valid()
      ensures (i, found) == FindIn(list.Elements(), ProbeAsWritten(cmp, v))
    {
      i, found := SortFind(list, ProbeAsWritten(cmp, v));
    }

    /** `Contains(v)`: whether Find lands on an element equivalent to v. */
    method Contains(v: T) returns (r: bool)
      requires list.Valid()
      ensures var (i, found) := FindIn(list.Elements(), Probe(cmp, v));
        r <==> found && cmp(list.Elements()[i], v) == 0
      ensures ValidCompare(cmp) && Ascending(list.Elements(), cmp) ==>
        (r <==> exists k :: 0 <= k < list.len && cmp(list.Elements()[k], v) == 0)
    {
      var i, found := Find(v);
      r := found && cmp(list.At(i), v) == 0;
      if ValidCompare(cmp) && Ascending(list.Elements(), cmp) {
        FindInDecidesMembership(list.Elements(), cmp, v);
        if found {
          assert cmp(v, list.Elements()[i]) == 0;
        }
      }
    }

    /**
     * One pass of the insertion sort: element k moves left by swaps while
     * it is less than its neighbour, into the sorted prefix s.
     */
    method InsertFrom(ghost e: seq<T>, ghost s: seq<T>, k: int)
      requires list.Valid() && list.len == |e| && 0 <= k < |e| && |s| == k
      requires list.Elements() == s + e[k..]
      modifies list.buf
      ensures list.Valid()
      ensures list.Elements() == Insert(s, e[k], cmp) + e[k + 1..]
    {
      ghost var x := e[k];
      ghost var rest := e[k + 1..];
      assert s[..k] == s && s[k..] == [];
      assert e[k..] == [x] + rest;
      assert list.Elements() == s[..k] + [x] + s[k..] + rest;
      var j := k;
      while j > 0 && Less(j, j - 1)
        invariant list.Valid() && list.len == |e|
        invariant 0 <= j <= k
        invariant list.Elements() == s[..j] + [x] + s[j..] + rest
        invariant Insert(s, x, cmp) == Insert(s[..j], x, cmp) + s[j..]
      {
        SwapDown(s, x, rest, j);
        j := j - 1;
      }
      if j > 0 {
        LessInRange(j, j - 1);
        assert list.Elements()[j] == x && list.Elements()[j - 1] == s[j - 1];
      }
      InsertStop(s, x, j, cmp);
    }

    /** One swap of InsertFrom: x, below its left neighbour, trades places with it. */
    method SwapDown(ghost s: seq<T>, ghost x: T, ghost rest: seq<T>, j: int)
      requires list.Valid() && 0 < j <= |s|
      requires list.Elements() == s[..j] + [x] + s[j..] + rest
      requires Less(j, j - 1)
      modifies list.buf
      ensures list.Valid() && list.len == old(list.len)
      ensures list.Elements() == s[..j - 1] + [x] + s[j - 1..] + rest
      ensures Insert(s[..j], x, cmp) + s[j..] == Insert(s[..j - 1], x, cmp) + s[j - 1..]
    {
      LessInRange(j, j - 1);
      assert list.Elements()[j] == x && list.Elements()[j - 1] == s[j - 1];
      InsertStep(s, x, j, cmp);
      list.Swap(j, j - 1);
      SwapAdjacent(s, x, j, rest);
    }
  }

  /** `NewOrdered(cmp)`: an Ordered over a new empty list. */
  method NewOrdered<T(!new)>(cmp: (T, T) -> int, zero: T) returns (o: Ordered<T>)
    ensures fresh(o.list) && o.list.Valid() && o.list.Elements() == [] && o.cmp == cmp
  {
    var l := new List.Empty(zero, Default, false);
    o := Ordered(l, cmp);
  }

  /** One more element of e goes into the sorted prefix by Insert. */
  lemma StableSortedStep<T>(e: seq<T>, k: int, cmp: (T, T) -> int)
    requires 0 <= k < |e|
    ensures StableSorted(e[..k + 1], cmp) == Insert(StableSorted(e[..k], cmp), e[k], cmp)
  {
    assert e[..k + 1][..k] == e[..k];
  }

  /** A comparison below the neighbour moves the insertion point one place left. */
  lemma InsertStep<T>(s: seq<T>, x: T, j: int, cmp: (T, T) -> int)
    requires 0 < j <= |s| && cmp(x, s[j - 1]) < 0
    ensures Insert(s[..j], x, cmp) + s[j..] == Insert(s[..j - 1], x, cmp) + s[j - 1..]
  {
    assert s[..j][..j - 1] == s[..j - 1];
    assert s[j - 1..] == [s[j - 1]] + s[j..];
  }

  /** Where the swapping stops, x is in the place Insert gives it. */
  lemma InsertStop<T>(s: seq<T>, x: T, j: int, cmp: (T, T) -> int)
    requires 0 <= j <= |s| && (j == 0 || !(cmp(x, s[j - 1]) < 0))
    ensures Insert(s[..j], x, cmp) + s[j..] == s[..j] + [x] + s[j..]
  {
  }

  /** Swapping x with its left neighbour. */
  lemma SwapAdjacent<T>(s: seq<T>, x: T, j: int, rest: seq<T>)
    requires 0 < j <= |s|
    ensures var a := s[..j] + [x] + s[j..] + rest;
      a[j := a[j - 1]][j - 1 := a[j]] == s[..j - 1] + [x] + s[j - 1..] + rest
  {
    var a := s[..j] + [x] + s[j..] + rest;
    var b := s[..j - 1] + [x] + s[j - 1..] + rest;
    assert |a| == |b|;
    forall k | 0 <= k < |a|
      ensures a[j := a[j - 1]][j - 1 := a[j]][k] == b[k]
    {
    }
  }

  /** `sort.Find(l.Len(), i => f(l.At(i)))`: the halving search over the list. */
  method SortFind<T>(l: List<T>, f: T -> int) returns (i: int, found: bool)
    requires l.Valid()
    ensures (i, found) == FindIn(l.Elements(), f)
  {
    ghost var e := l.Elements();
    var lo, hi := 0, l.Len();
    while lo < hi
      invariant 0 <= lo <= hi <= |e| && l.Valid() && l.Elements() == e
      invariant Search(e, f, lo, hi) == Search(e, f, 0, |e|)
      decreases hi - lo
    {
      lo, hi := Halve(l, f, lo, hi);
    }
    i := lo;
    found := false;
    if i < l.Len() {
      var probe := ProbeAt(l, f, i);
      found := probe == 0;
    }
  }

  /** One step of sort.Find: probe the middle and keep the half the answer lies in. */
  method Halve<T>(l: List<T>, f: T -> int, lo: int, hi: int) returns (lo': int, hi': int)
    requires l.Valid() && 0 <= lo < hi <= l.len
    ensures lo <= lo' <= hi' <= hi && hi' - lo' < hi - lo
    ensures Search(l.Elements(), f, lo', hi') == Search(l.Elements(), f, lo, hi)
  {
    var h := (lo + hi) / 2;
    var probe := ProbeAt(l, f, h);
    if probe > 0 {
      SearchRight(l.Elements(), f, lo, hi);
      lo', hi' := h + 1, hi;
    } else {
      SearchLeft(l.Elements(), f, lo, hi);
      lo', hi' := lo, h;
    }
  }

  /** The probe sort.Find applies at index h: f(l.At(h)). */
  method ProbeAt<T>(l: List<T>, f: T -> int, h: int) returns (r: int)
    requires l.Valid() && 0 <= h < l.len
    ensures r == f(l.Elements()[h])
  {
    r := f(l.At(h));
  }
}
