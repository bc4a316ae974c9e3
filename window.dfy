/**
 * The logical content of a ring window and the sequence edits the list
 * performs on it. Every List mutation is specified as one of these edits;
 * the lemmas here prove that each branch of `Replace` (reallocate, shift the
 * back part, shift the front part) produces exactly the edit.
 */
module Windows {
  import opened Ring
  import opened RingOps

  /** The list held by slice s with window (back, len): element k sits at abs(k). */
  function Window<T>(s: seq<T>, back: int, len: int): (r: seq<T>)
    requires View(|s|, len, back).Valid()
    ensures |r| == len
  {
    seq(len, k requires 0 <= k < len => s[View(|s|, len, back).Abs(k)])
  }

  /** Element k of the window is the slot k places after back, around the ring. */
  lemma WindowAt<T>(s: seq<T>, back: int, len: int, k: int)
    requires View(|s|, len, back).Valid() && 0 <= k < len
    ensures Window(s, back, len)[k] == s[Wrap(|s|, back + k)]
  {
  }

  /**
   * What `Replace(i, j, vs...)` promises: None (ErrInvalidRange, list
   * unchanged) unless 0 <= i <= j <= len, and otherwise the list
   * old[0:i] ++ vs ++ old[j:len].
   */
  function ReplaceEdit<T>(e: seq<T>, i: int, j: int, vs: seq<T>): (r: Option<seq<T>>)
    ensures r.Some? <==> 0 <= i <= j <= |e|
    ensures r.Some? ==> |r.value| == i + |vs| + (|e| - j)
    ensures r.Some? ==> forall k :: 0 <= k < i ==> r.value[k] == e[k]
    ensures r.Some? ==> forall k :: 0 <= k < |vs| ==> r.value[i + k] == vs[k]
    ensures r.Some? ==> forall k :: j <= k < |e| ==> r.value[i + |vs| + k - j] == e[k]
  {
    if 0 <= i <= j <= |e| then Some(e[..i] + vs + e[j..]) else None
  }

  datatype Option<T> = None | Some(value: T)

  /** Replacing nothing with nothing is the identity. */
  lemma ReplaceNothingIsIdentity<T>(e: seq<T>, i: int)
    requires 0 <= i <= |e|
    ensures ReplaceEdit(e, i, i, []) == Some(e)
  {
    assert e[..i] + [] + e[i..] == e;
  }

  /** Deleting a range and inserting its old contents again gives the list back. */
  lemma ReplaceWithOwnRangeIsIdentity<T>(e: seq<T>, i: int, j: int)
    requires 0 <= i <= j <= |e|
    ensures ReplaceEdit(e, i, j, e[i..j]) == Some(e)
  {
    assert e[..i] + e[i..j] + e[j..] == e;
  }

  /** Element k of e[..i] + vs + e[j..], by the part it falls in. */
  lemma ReplacedAt<T>(e: seq<T>, vs: seq<T>, i: int, j: int, k: int)
    requires 0 <= i <= j <= |e| && 0 <= k < i + |vs| + (|e| - j)
    ensures k < i ==> (e[..i] + vs + e[j..])[k] == e[k]
    ensures i <= k < i + |vs| ==> (e[..i] + vs + e[j..])[k] == vs[k - i]
    ensures i + |vs| <= k ==> (e[..i] + vs + e[j..])[k] == e[j + (k - i - |vs|)]
  {
  }

  /**
   * Position k of the window of s3 from slot nb holds position k of the
   * replaced list, given the slot of s3 it reads in each of the three parts.
   */
  lemma ReplacedWindowAt<T>(s: seq<T>, s3: seq<T>, vs: seq<T>, back: int, len: int, nb: int, i: int, j: int, k: int)
    requires View(|s|, len, back).Valid() && |s3| == |s| && View(|s3|, i + |vs| + (len - j), nb).Valid()
    requires 0 <= i <= j <= len && 0 <= k < i + |vs| + (len - j)
    requires k < i ==> s3[Wrap(|s|, nb + k)] == s[Wrap(|s|, back + k)]
    requires i <= k < i + |vs| ==> s3[Wrap(|s|, nb + k)] == vs[k - i]
    requires i + |vs| <= k ==> s3[Wrap(|s|, nb + k)] == s[Wrap(|s|, back + (j + (k - i - |vs|)))]
    ensures Window(s3, nb, i + |vs| + (len - j))[k] == (Window(s, back, len)[..i] + vs + Window(s, back, len)[j..])[k]
  {
    WindowAt(s3, nb, i + |vs| + (len - j), k);
    ReplacedAt(Window(s, back, len), vs, i, j, k);
    if k < i {
      WindowAt(s, back, len, k);
    } else if i + |vs| <= k {
      WindowAt(s, back, len, j + (k - i - |vs|));
    }
  }

  /** The distance around the ring from slot Wrap(a) to slot Wrap(b), when b - a is known up to one turn. */
  lemma OffsetFrom(l: int, a: int, b: int, r: int)
    requires l > 0 && -l < a < 2 * l && -l < b < 2 * l && 0 <= r < l
    requires b - a == r || b - a == r - l || b - a == r + l || b - a == r - 2 * l
    ensures Offset(l, Wrap(l, a), Wrap(l, b)) == r
  {
  }

  lemma NothingWritten<T>(src: seq<T>, s: seq<T>, f: int, d: int)
    ensures Written(src, s, s, f, d, 0)
  {
  }

  // ---------------------------------------------------------------------
  // Replace, branch 1: reallocation into a new slice
  // ---------------------------------------------------------------------

  /** fixAbs(-frontEls) is the slot of the first front element, j. */
  lemma FixAbsOfFront(v: View, j: int)
    requires v.Valid() && 0 <= j < v.len
    ensures v.FixAbs(-(v.len - j)) == Wrap(v.slen, v.back + j)
  {
    FixIsEuclideanMod(v.len, -(v.len - j));
    ModUnique(-(v.len - j), v.len, -1, j);
  }

  lemma ReallocSlots<T>(s: seq<T>, t0: seq<T>, t1: seq<T>, t2: seq<T>, t3: seq<T>, vs: seq<T>,
                        back: int, len: int, i: int, j: int, f3: int, k: int)
    requires View(|s|, len, back).Valid() && 0 <= i <= j <= len
    requires i + |vs| + (len - j) <= |t0|
    requires Written(s, t0, t1, back, 0, i)
    requires Written(vs, t1, t2, 0, i, |vs|)
    requires len - j > 0 ==> f3 == Wrap(|s|, back + j)
    requires Written(s, t2, t3, f3, i + |vs|, len - j)
    requires 0 <= k < i + |vs| + (len - j)
    ensures k < i ==> t3[k] == s[Wrap(|s|, back + k)]
    ensures i <= k < i + |vs| ==> t3[k] == vs[k - i]
    ensures i + |vs| <= k ==> t3[k] == s[Wrap(|s|, back + (j + (k - i - |vs|)))]
  {
    var c, ls := |t0|, |vs|;
    if k < i + ls {
      assert len - j > 0 ==> Offset(c, i + ls, k) == c - (i + ls) + k;
      assert t3[k] == t2[k];
      if k < i {
        assert ls > 0 ==> Offset(c, i, k) == c - i + k;
        assert t2[k] == t1[k];
        assert Offset(c, 0, k) == k;
      } else {
        assert Offset(c, i, k) == k - i;
      }
    } else {
      assert Offset(c, i + ls, k) == k - i - ls;
    }
  }

  lemma ReplaceReallocCorrect<T>(s: seq<T>, t0: seq<T>, t1: seq<T>, t2: seq<T>, t3: seq<T>, vs: seq<T>,
                           back: int, len: int, i: int, j: int, f3: int)
    requires View(|s|, len, back).Valid() && 0 <= i <= j <= len
    requires i + |vs| + (len - j) <= |t0|
    requires Written(s, t0, t1, back, 0, i)
    requires Written(vs, t1, t2, 0, i, |vs|)
    requires len - j > 0 ==> f3 == Wrap(|s|, back + j)
    requires Written(s, t2, t3, f3, i + |vs|, len - j)
    ensures View(|t3|, i + |vs| + (len - j), 0).Valid()
    ensures Window(t3, 0, i + |vs| + (len - j)) == Window(s, back, len)[..i] + vs + Window(s, back, len)[j..]
  {
    var n, ls := i + |vs| + (len - j), |vs|;
    var w := Window(t3, 0, n);
    var e := Window(s, back, len);
    var want := e[..i] + vs + e[j..];
    forall k | 0 <= k < n ensures w[k] == want[k] {
      ReallocSlots(s, t0, t1, t2, t3, vs, back, len, i, j, f3, k);
      WindowAt(t3, 0, n, k);
      if k < i {
        WindowAt(s, back, len, k);
        assert want[k] == e[k];
      } else if k < i + ls {
        assert want[k] == vs[k - i];
      } else {
        WindowAt(s, back, len, j + (k - i - ls));
        assert want[k] == e[j + (k - i - ls)];
      }
    }
  }

  // ---------------------------------------------------------------------
  // Replace, branch 2: in place, moving the back part (i < frontEls)
  // ---------------------------------------------------------------------

  /**
   * Facts shared by the three slot lemmas of the back branch: s1 is s after
   * moving the i back elements by the balloon b (n1 of them, none when the
   * move is a no-op), s2 is s1 with the b freed slots zeroed (when b > 0),
   * s3 is s2 with vs written after the moved part.
   */
  ghost predicate ShiftBackStages<T>(s: seq<T>, s1: seq<T>, s2: seq<T>, s3: seq<T>, zs: seq<T>, vs: seq<T>,
                                     back: int, len: int, i: int, j: int, n1: int, nb: int)
  {
    |s| > 0 && 0 <= back < |s| && 0 <= i <= j <= len <= |s|
    && i < len - j && i + |vs| + (len - j) <= |s|
    && -|s| < back + ((j - i) - |vs|) < 2 * |s|
    && nb == Wrap(|s|, back + ((j - i) - |vs|))
    && (n1 == 0 || n1 == i)
    && (n1 == 0 ==> i == 0 || (j - i) - |vs| == 0)
    && (n1 > 0 ==> Written(s, s, s1, back, nb, n1)) && (n1 == 0 ==> s1 == s)
    && (0 < (j - i) - |vs| ==> Written(zs, s1, s2, 0, back, (j - i) - |vs|))
    && ((j - i) - |vs| <= 0 ==> s2 == s1)
    && Written(vs, s2, s3, 0, Wrap(|s|, nb + i), |vs|)
  }

  /** The ring distances ShiftBackKept needs, from the numbers alone. */
  lemma BackKeptOffsets(l: int, back: int, len: int, i: int, j: int, ls: int, nb: int, k: int)
    requires 0 <= back < l && 0 <= i <= j <= len <= l && i < len - j && 0 <= ls && i + ls + (len - j) <= l
    requires -l < back + ((j - i) - ls) < 2 * l && nb == Wrap(l, back + ((j - i) - ls))
    requires 0 <= k < i
    ensures Offset(l, Wrap(l, nb + i), Wrap(l, nb + k)) == k - i + l
    ensures 0 < (j - i) - ls ==> Offset(l, back, Wrap(l, nb + k)) == (j - i) - ls + k
    ensures Offset(l, nb, Wrap(l, nb + k)) == k
  {
    OffsetFrom(l, nb + i, nb + k, k - i + l);
    if 0 < (j - i) - ls {
      OffsetFrom(l, back, nb + k, (j - i) - ls + k);
    }
    OffsetOfWrap(l, nb, k);
  }

  lemma ShiftBackKept<T>(s: seq<T>, s1: seq<T>, s2: seq<T>, s3: seq<T>, zs: seq<T>, vs: seq<T>,
                         back: int, len: int, i: int, j: int, n1: int, nb: int, k: int)
    requires ShiftBackStages(s, s1, s2, s3, zs, vs, back, len, i, j, n1, nb)
    requires 0 <= k < i
    ensures s3[Wrap(|s|, nb + k)] == s[Wrap(|s|, back + k)]
  {
    var l, ls, b := |s|, |vs|, (j - i) - |vs|;
    var p := Wrap(l, nb + k);
    BackKeptOffsets(l, back, len, i, j, ls, nb, k);
    assert s3[p] == s2[p];
    if 0 < b {
      assert s2[p] == s1[p];
    }
    if n1 > 0 {
      assert s1[p] == s[Wrap(l, back + k)];
    }
  }

  lemma ShiftBackInserted<T>(s: seq<T>, s1: seq<T>, s2: seq<T>, s3: seq<T>, zs: seq<T>, vs: seq<T>,
                             back: int, len: int, i: int, j: int, n1: int, nb: int, k: int)
    requires ShiftBackStages(s, s1, s2, s3, zs, vs, back, len, i, j, n1, nb)
    requires i <= k < i + |vs|
    ensures s3[Wrap(|s|, nb + k)] == vs[k - i]
  {
    OffsetFrom(|s|, nb + i, nb + k, k - i);
  }

  /** The ring distances ShiftBackFront needs, from the numbers alone. */
  lemma BackFrontOffsets(l: int, back: int, len: int, i: int, j: int, ls: int, nb: int, k: int)
    requires 0 <= back < l && 0 <= i <= j <= len <= l && i < len - j && 0 <= ls && i + ls + (len - j) <= l
    requires -l < back + ((j - i) - ls) < 2 * l && nb == Wrap(l, back + ((j - i) - ls))
    requires i + ls <= k < i + ls + (len - j)
    ensures Offset(l, Wrap(l, nb + i), Wrap(l, nb + k)) == k - i
    ensures 0 < (j - i) - ls ==> Offset(l, back, Wrap(l, nb + k)) == (j - i) - ls + k
    ensures Offset(l, nb, Wrap(l, nb + k)) == k
    ensures Wrap(l, nb + k) == Wrap(l, back + (j + (k - i - ls)))
  {
    OffsetFrom(l, nb + i, nb + k, k - i);
    if 0 < (j - i) - ls {
      OffsetFrom(l, back, nb + k, (j - i) - ls + k);
    }
    OffsetOfWrap(l, nb, k);
  }

  lemma ShiftBackFront<T>(s: seq<T>, s1: seq<T>, s2: seq<T>, s3: seq<T>, zs: seq<T>, vs: seq<T>,
                          back: int, len: int, i: int, j: int, n1: int, nb: int, k: int)
    requires ShiftBackStages(s, s1, s2, s3, zs, vs, back, len, i, j, n1, nb)
    requires i + |vs| <= k < i + |vs| + (len - j)
    ensures s3[Wrap(|s|, nb + k)] == s[Wrap(|s|, back + (j + (k - i - |vs|)))]
  {
    var l, ls, b := |s|, |vs|, (j - i) - |vs|;
    var p := Wrap(l, nb + k);
    BackFrontOffsets(l, back, len, i, j, ls, nb, k);
    assert s3[p] == s2[p];
    if 0 < b {
      assert s2[p] == s1[p];
    }
    if n1 > 0 {
      assert s1[p] == s[p];
    }
  }

  /** One position of the window ReplaceShiftBackCorrect describes. */
  lemma ReplaceShiftBackAt<T>(s: seq<T>, s1: seq<T>, s2: seq<T>, s3: seq<T>, zs: seq<T>, vs: seq<T>,
                         back: int, len: int, i: int, j: int, n1: int, nb: int, k: int)
    requires ShiftBackStages(s, s1, s2, s3, zs, vs, back, len, i, j, n1, nb)
    requires 0 <= k < i + |vs| + (len - j)
    ensures Window(s3, nb, i + |vs| + (len - j))[k]
            == (Window(s, back, len)[..i] + vs + Window(s, back, len)[j..])[k]
  {
    if k < i {
      ShiftBackKept(s, s1, s2, s3, zs, vs, back, len, i, j, n1, nb, k);
    } else if k < i + |vs| {
      ShiftBackInserted(s, s1, s2, s3, zs, vs, back, len, i, j, n1, nb, k);
    } else {
      ShiftBackFront(s, s1, s2, s3, zs, vs, back, len, i, j, n1, nb, k);
    }
    ReplacedWindowAt(s, s3, vs, back, len, nb, i, j, k);
  }

  lemma ReplaceShiftBackCorrect<T>(s: seq<T>, s1: seq<T>, s2: seq<T>, s3: seq<T>, zs: seq<T>, vs: seq<T>,
                             back: int, len: int, i: int, j: int, n1: int, nb: int)
    requires ShiftBackStages(s, s1, s2, s3, zs, vs, back, len, i, j, n1, nb)
    ensures View(|s3|, i + |vs| + (len - j), nb).Valid()
    ensures Window(s3, nb, i + |vs| + (len - j)) == Window(s, back, len)[..i] + vs + Window(s, back, len)[j..]
  {
    var n := i + |vs| + (len - j);
    var w := Window(s3, nb, n);
    var e := Window(s, back, len);
    var want := e[..i] + vs + e[j..];
    forall k | 0 <= k < n ensures w[k] == want[k] {
      ReplaceShiftBackAt(s, s1, s2, s3, zs, vs, back, len, i, j, n1, nb, k);
    }
  }

  /**
   * Removed elements are zeroed: every slot that held an element of the
   * window (back, len) and holds none of the window (nb, n) holds zero.
   */
  ghost predicate VacatedZero<T>(a: seq<T>, zero: T, back: int, len: int, nb: int, n: int) {
    0 <= back < |a| && 0 <= nb < |a| ==>
      forall p {:trigger Offset(|a|, back, p), Offset(|a|, nb, p)} ::
        0 <= p < |a| && Offset(|a|, back, p) < len && n <= Offset(|a|, nb, p) ==> a[p] == zero
  }

  /** A slot the back branch gives up is one of the b cleared at the old back, and vs is not written over it. */
  lemma ShiftBackVacatedAt<T>(s: seq<T>, s1: seq<T>, s2: seq<T>, s3: seq<T>, zs: seq<T>, vs: seq<T>, zero: T,
                              back: int, len: int, i: int, j: int, n1: int, nb: int, p: int)
    requires ShiftBackStages(s, s1, s2, s3, zs, vs, back, len, i, j, n1, nb)
    requires forall k :: 0 <= k < |zs| ==> zs[k] == zero
    requires 0 <= p < |s| && Offset(|s|, back, p) < len && i + |vs| + (len - j) <= Offset(|s|, nb, p)
    ensures s3[p] == zero
  {
    var l, b, o := |s|, (j - i) - |vs|, Offset(|s|, back, p);
    assert p == Wrap(l, back + o);
    if b <= o {
      OffsetFrom(l, back + b, back + o, o - b);
      assert false;
    }
    OffsetFrom(l, nb + i, back + o, o - b - i + l);
    assert s3[p] == s2[p];
  }

  /** The back branch zeroes exactly what it gives up. */
  lemma ShiftBackVacated<T>(s: seq<T>, s1: seq<T>, s2: seq<T>, s3: seq<T>, zs: seq<T>, vs: seq<T>, zero: T,
                            back: int, len: int, i: int, j: int, n1: int, nb: int)
    requires ShiftBackStages(s, s1, s2, s3, zs, vs, back, len, i, j, n1, nb)
    requires forall k :: 0 <= k < |zs| ==> zs[k] == zero
    ensures VacatedZero(s3, zero, back, len, nb, i + |vs| + (len - j))
  {
    forall p | 0 <= p < |s3| && Offset(|s3|, back, p) < len && i + |vs| + (len - j) <= Offset(|s3|, nb, p)
      ensures s3[p] == zero
    {
      ShiftBackVacatedAt(s, s1, s2, s3, zs, vs, zero, back, len, i, j, n1, nb, p);
    }
  }

  // ---------------------------------------------------------------------
  // Replace, branch 3: in place, moving the front part (frontEls <= i)
  // ---------------------------------------------------------------------

  /**
   * Facts shared by the three slot lemmas of the front branch: s1 is s after
   * moving the len-j front elements by minus the balloon (n1 of them, none
   * when the move is a no-op), s2 is s1 with the b freed slots after the new
   * front zeroed (when b > 0), s3 is s2 with vs written from position i.
   */
  ghost predicate ShiftFrontStages<T>(s: seq<T>, s1: seq<T>, s2: seq<T>, s3: seq<T>, zs: seq<T>, vs: seq<T>,
                                      back: int, len: int, i: int, j: int, n1: int)
  {
    |s| > 0 && 0 <= back < |s| && 0 <= i <= j <= len <= |s|
    && len - j <= i && i + |vs| + (len - j) <= |s|
    && (n1 == 0 || n1 == len - j)
    && (n1 == 0 ==> len - j == 0 || (j - i) - |vs| == 0)
    && (n1 > 0 ==> Written(s, s, s1, Wrap(|s|, back + j), Wrap(|s|, back + i + |vs|), n1)) && (n1 == 0 ==> s1 == s)
    && (0 < (j - i) - |vs| ==> Written(zs, s1, s2, 0, Wrap(|s|, back + len - ((j - i) - |vs|)), (j - i) - |vs|))
    && ((j - i) - |vs| <= 0 ==> s2 == s1)
    && Written(vs, s2, s3, 0, Wrap(|s|, back + i), |vs|)
  }

  /** The ring distances ShiftFrontKept needs, from the numbers alone. */
  lemma FrontKeptOffsets(l: int, back: int, len: int, i: int, j: int, ls: int, k: int)
    requires 0 <= back < l && 0 <= i <= j <= len <= l && len - j <= i && 0 <= ls && i + ls + (len - j) <= l
    requires 0 <= k < i
    ensures Offset(l, Wrap(l, back + i), Wrap(l, back + k)) == k - i + l
    ensures 0 < (j - i) - ls ==>
      Offset(l, Wrap(l, back + len - ((j - i) - ls)), Wrap(l, back + k)) == k - len + ((j - i) - ls) + l
    ensures Offset(l, Wrap(l, back + i + ls), Wrap(l, back + k)) == k - i - ls + l
  {
    OffsetFrom(l, back + i, back + k, k - i + l);
    if 0 < (j - i) - ls {
      OffsetFrom(l, back + len - ((j - i) - ls), back + k, k - len + ((j - i) - ls) + l);
    }
    OffsetFrom(l, back + i + ls, back + k, k - i - ls + l);
  }

  lemma ShiftFrontKept<T>(s: seq<T>, s1: seq<T>, s2: seq<T>, s3: seq<T>, zs: seq<T>, vs: seq<T>,
                          back: int, len: int, i: int, j: int, n1: int, k: int)
    requires ShiftFrontStages(s, s1, s2, s3, zs, vs, back, len, i, j, n1)
    requires 0 <= k < i
    ensures s3[Wrap(|s|, back + k)] == s[Wrap(|s|, back + k)]
  {
    var l, ls, b := |s|, |vs|, (j - i) - |vs|;
    var p := Wrap(l, back + k);
    FrontKeptOffsets(l, back, len, i, j, ls, k);
    assert s3[p] == s2[p];
    if 0 < b {
      assert s2[p] == s1[p];
    }
    if n1 > 0 {
      assert s1[p] == s[p];
    }
  }

  lemma ShiftFrontInserted<T>(s: seq<T>, s1: seq<T>, s2: seq<T>, s3: seq<T>, zs: seq<T>, vs: seq<T>,
                              back: int, len: int, i: int, j: int, n1: int, k: int)
    requires ShiftFrontStages(s, s1, s2, s3, zs, vs, back, len, i, j, n1)
    requires i <= k < i + |vs|
    ensures s3[Wrap(|s|, back + k)] == vs[k - i]
  {
    OffsetFrom(|s|, back + i, back + k, k - i);
  }

  /** The ring distances ShiftFrontMoved needs, from the numbers alone. */
  lemma FrontMovedOffsets(l: int, back: int, len: int, i: int, j: int, ls: int, k: int)
    requires 0 <= back < l && 0 <= i <= j <= len <= l && len - j <= i && 0 <= ls && i + ls + (len - j) <= l
    requires i + ls <= k < i + ls + (len - j)
    ensures Offset(l, Wrap(l, back + i), Wrap(l, back + k)) == k - i
    ensures 0 < (j - i) - ls ==>
      Offset(l, Wrap(l, back + len - ((j - i) - ls)), Wrap(l, back + k)) == k - len + ((j - i) - ls) + l
    ensures Offset(l, Wrap(l, back + i + ls), Wrap(l, back + k)) == k - i - ls
  {
    OffsetFrom(l, back + i, back + k, k - i);
    if 0 < (j - i) - ls {
      OffsetFrom(l, back + len - ((j - i) - ls), back + k, k - len + ((j - i) - ls) + l);
    }
    OffsetFrom(l, back + i + ls, back + k, k - i - ls);
  }

  /** Where the element now at ring position k of ShiftFrontMoved came from. */
  lemma FrontMovedSource(l: int, back: int, len: int, i: int, j: int, ls: int, k: int)
    requires 0 <= back < l && 0 <= i <= j <= len <= l && len - j <= i && 0 <= ls && i + ls + (len - j) <= l
    requires i + ls <= k < i + ls + (len - j)
    ensures Wrap(l, Wrap(l, back + j) + (k - i - ls)) == Wrap(l, back + (j + (k - i - ls)))
  {
  }

  lemma ShiftFrontMoved<T>(s: seq<T>, s1: seq<T>, s2: seq<T>, s3: seq<T>, zs: seq<T>, vs: seq<T>,
                           back: int, len: int, i: int, j: int, n1: int, k: int)
    requires ShiftFrontStages(s, s1, s2, s3, zs, vs, back, len, i, j, n1)
    requires i + |vs| <= k < i + |vs| + (len - j)
    ensures s3[Wrap(|s|, back + k)] == s[Wrap(|s|, back + (j + (k - i - |vs|)))]
  {
    var l, ls, b := |s|, |vs|, (j - i) - |vs|;
    var p := Wrap(l, back + k);
    FrontMovedOffsets(l, back, len, i, j, ls, k);
    FrontMovedSource(l, back, len, i, j, ls, k);
    assert s3[p] == s2[p];
    if 0 < b {
      assert s2[p] == s1[p];
    }
    if n1 > 0 {
      assert s1[p] == s[Wrap(l, Wrap(l, back + j) + (k - i - ls))];
    } else {
      assert b == 0;
    }
  }

  /** One position of the window ReplaceShiftFrontCorrect describes. */
  lemma ReplaceShiftFrontAt<T>(s: seq<T>, s1: seq<T>, s2: seq<T>, s3: seq<T>, zs: seq<T>, vs: seq<T>,
                         back: int, len: int, i: int, j: int, n1: int, k: int)
    requires ShiftFrontStages(s, s1, s2, s3, zs, vs, back, len, i, j, n1)
    requires 0 <= k < i + |vs| + (len - j)
    ensures Window(s3, back, i + |vs| + (len - j))[k]
            == (Window(s, back, len)[..i] + vs + Window(s, back, len)[j..])[k]
  {
    if k < i {
      ShiftFrontKept(s, s1, s2, s3, zs, vs, back, len, i, j, n1, k);
    } else if k < i + |vs| {
      ShiftFrontInserted(s, s1, s2, s3, zs, vs, back, len, i, j, n1, k);
    } else {
      ShiftFrontMoved(s, s1, s2, s3, zs, vs, back, len, i, j, n1, k);
    }
    ReplacedWindowAt(s, s3, vs, back, len, back, i, j, k);
  }

  lemma ReplaceShiftFrontCorrect<T>(s: seq<T>, s1: seq<T>, s2: seq<T>, s3: seq<T>, zs: seq<T>, vs: seq<T>,
                              back: int, len: int, i: int, j: int, n1: int)
    requires ShiftFrontStages(s, s1, s2, s3, zs, vs, back, len, i, j, n1)
    ensures View(|s3|, i + |vs| + (len - j), back).Valid()
    ensures Window(s3, back, i + |vs| + (len - j)) == Window(s, back, len)[..i] + vs + Window(s, back, len)[j..]
  {
    var n := i + |vs| + (len - j);
    var w := Window(s3, back, n);
    var e := Window(s, back, len);
    var want := e[..i] + vs + e[j..];
    forall k | 0 <= k < n ensures w[k] == want[k] {
      ReplaceShiftFrontAt(s, s1, s2, s3, zs, vs, back, len, i, j, n1, k);
    }
  }

  /** A slot the front branch gives up is one of the b cleared after the new front, and vs is not written over it. */
  lemma ShiftFrontVacatedAt<T>(s: seq<T>, s1: seq<T>, s2: seq<T>, s3: seq<T>, zs: seq<T>, vs: seq<T>, zero: T,
                               back: int, len: int, i: int, j: int, n1: int, p: int)
    requires ShiftFrontStages(s, s1, s2, s3, zs, vs, back, len, i, j, n1)
    requires forall k :: 0 <= k < |zs| ==> zs[k] == zero
    requires 0 <= p < |s| && i + |vs| + (len - j) <= Offset(|s|, back, p) < len
    ensures s3[p] == zero
  {
    var l, b, o := |s|, (j - i) - |vs|, Offset(|s|, back, p);
    assert p == Wrap(l, back + o);
    OffsetFrom(l, back + len - b, back + o, o - (len - b));
    OffsetFrom(l, back + i, back + o, o - i);
    assert s3[p] == s2[p];
  }

  /** The front branch zeroes exactly what it gives up. */
  lemma ShiftFrontVacated<T>(s: seq<T>, s1: seq<T>, s2: seq<T>, s3: seq<T>, zs: seq<T>, vs: seq<T>, zero: T,
                             back: int, len: int, i: int, j: int, n1: int)
    requires ShiftFrontStages(s, s1, s2, s3, zs, vs, back, len, i, j, n1)
    requires forall k :: 0 <= k < |zs| ==> zs[k] == zero
    ensures VacatedZero(s3, zero, back, len, back, i + |vs| + (len - j))
  {
    forall p | 0 <= p < |s3| && Offset(|s3|, back, p) < len && i + |vs| + (len - j) <= Offset(|s3|, back, p)
      ensures s3[p] == zero
    {
      ShiftFrontVacatedAt(s, s1, s2, s3, zs, vs, zero, back, len, i, j, n1, p);
    }
  }

  /** ReplaceShiftFrontCorrect and ShiftFrontVacated from one proof of the stages. */
  lemma ReplaceShiftFrontDone<T>(s: seq<T>, s1: seq<T>, s2: seq<T>, s3: seq<T>, zs: seq<T>, vs: seq<T>, zero: T,
                                 back: int, len: int, i: int, j: int, n1: int)
    requires ShiftFrontStages(s, s1, s2, s3, zs, vs, back, len, i, j, n1)
    requires forall k :: 0 <= k < |zs| ==> zs[k] == zero
    ensures View(|s3|, i + |vs| + (len - j), back).Valid()
    ensures Window(s3, back, i + |vs| + (len - j)) == Window(s, back, len)[..i] + vs + Window(s, back, len)[j..]
    ensures VacatedZero(s3, zero, back, len, back, i + |vs| + (len - j))
  {
    ReplaceShiftFrontCorrect(s, s1, s2, s3, zs, vs, back, len, i, j, n1);
    ShiftFrontVacated(s, s1, s2, s3, zs, vs, zero, back, len, i, j, n1);
  }

  /** ReplaceShiftBackCorrect and ShiftBackVacated from one proof of the stages. */
  lemma ReplaceShiftBackDone<T>(s: seq<T>, s1: seq<T>, s2: seq<T>, s3: seq<T>, zs: seq<T>, vs: seq<T>, zero: T,
                                back: int, len: int, i: int, j: int, n1: int, nb: int)
    requires ShiftBackStages(s, s1, s2, s3, zs, vs, back, len, i, j, n1, nb)
    requires forall k :: 0 <= k < |zs| ==> zs[k] == zero
    ensures View(|s3|, i + |vs| + (len - j), nb).Valid()
    ensures Window(s3, nb, i + |vs| + (len - j)) == Window(s, back, len)[..i] + vs + Window(s, back, len)[j..]
    ensures VacatedZero(s3, zero, back, len, nb, i + |vs| + (len - j))
  {
    ReplaceShiftBackCorrect(s, s1, s2, s3, zs, vs, back, len, i, j, n1, nb);
    ShiftBackVacated(s, s1, s2, s3, zs, vs, zero, back, len, i, j, n1, nb);
  }

  // ---------------------------------------------------------------------
  // Copying elements out of the window
  // ---------------------------------------------------------------------

  /** A copy of c elements from list position i, written from slot d on: slot d+k holds element i+k. */
  lemma WrittenFromWindow<T>(s: seq<T>, before: seq<T>, after: seq<T>, back: int, len: int, i: int, d: int, c: int, k: int)
    requires View(|s|, len, back).Valid() && 0 <= i && 0 <= k < c && i + c <= len
    requires 0 <= d < |before| && c <= |before|
    requires Written(s, before, after, Wrap(|s|, back + i), d, c)
    ensures after[Wrap(|before|, d + k)] == Window(s, back, len)[i + k]
  {
    OffsetOfWrap(|before|, d, k);
    WindowAt(s, back, len, i + k);
  }

  /** Copying the whole window to slot 0 of a slice long enough gives a window at back 0. */
  lemma WindowCopiedOut<T>(s: seq<T>, before: seq<T>, after: seq<T>, back: int, len: int)
    requires View(|s|, len, back).Valid() && len <= |before|
    requires Written(s, before, after, back, 0, len)
    ensures View(|after|, len, 0).Valid()
    ensures Window(after, 0, len) == Window(s, back, len)
  {
    forall k | 0 <= k < len ensures Window(after, 0, len)[k] == Window(s, back, len)[k] {
      WrittenFromWindow(s, before, after, back, len, 0, 0, len, k);
    }
  }

  /**
   * CopyTo's two chunks: first the elements from i up to the end of the
   * list, then, wrapping around the list, the elements from position 0.
   * Slot k of the destination ends up with element (i+k) mod len.
   */
  ghost predicate CopyToChunks<T>(s: seq<T>, back: int, len: int, i: int, m: int, d0: seq<T>, d1: seq<T>, d2: seq<T>) {
    View(|s|, len, back).Valid() && 0 <= i < len && 0 < m <= len && m <= |d0|
    && Written(s, d0, d1, Wrap(|s|, back + i), 0, Min(m, len - i))
    && (Min(m, len - i) < m ==> Written(s, d1, d2, back, Min(m, len - i), m - Min(m, len - i)))
    && (Min(m, len - i) == m ==> d2 == d1)
  }

  lemma CopyToCopied<T>(s: seq<T>, back: int, len: int, i: int, m: int, d0: seq<T>, d1: seq<T>, d2: seq<T>, k: int)
    requires CopyToChunks(s, back, len, i, m, d0, d1, d2) && 0 <= k < m
    ensures |d2| == |d0|
    ensures d2[k] == Window(s, back, len)[Fix(len, i + k)]
  {
    var c1 := Min(m, len - i);
    var l := |d0|;
    if k < c1 {
      WrittenFromWindow(s, d0, d1, back, len, i, 0, c1, k);
      assert Fix(len, i + k) == i + k;
      if c1 < m {
        assert Offset(l, c1, k) >= m - c1;
        assert d2[k] == d1[k];
      }
    } else {
      assert back == Wrap(|s|, back + 0);
      WrittenFromWindow(s, d1, d2, back, len, 0, c1, m - c1, k - c1);
      assert Wrap(l, c1 + (k - c1)) == k;
      assert c1 == len - i && Fix(len, i + k) == k - c1;
    }
  }

  lemma CopyToKept<T>(s: seq<T>, back: int, len: int, i: int, m: int, d0: seq<T>, d1: seq<T>, d2: seq<T>, k: int)
    requires CopyToChunks(s, back, len, i, m, d0, d1, d2) && m <= k < |d0|
    ensures |d2| == |d0| && d2[k] == d0[k]
  {
    var c1 := Min(m, len - i);
    assert d1[k] == d0[k];
    if c1 < m {
      assert Offset(|d0|, c1, k) >= m - c1;
    }
  }

  lemma CopyToSlots<T>(s: seq<T>, back: int, len: int, i: int, m: int, d0: seq<T>, d1: seq<T>, d2: seq<T>)
    requires CopyToChunks(s, back, len, i, m, d0, d1, d2)
    ensures |d2| == |d0|
    ensures forall k :: 0 <= k < m ==> d2[k] == Window(s, back, len)[Fix(len, i + k)]
    ensures forall k :: m <= k < |d0| ==> d2[k] == d0[k]
  {
    forall k | 0 <= k < m
      ensures d2[k] == Window(s, back, len)[Fix(len, i + k)]
    {
      CopyToCopied(s, back, len, i, m, d0, d1, d2, k);
    }
    forall k | m <= k < |d0| ensures d2[k] == d0[k] {
      CopyToKept(s, back, len, i, m, d0, d1, d2, k);
    }
  }
}
