/**
 * Ring-aware slice primitives: copying between two slices treated as
 * circular (`wrapCopy`), shifting a circular range inside one slice
 * (`selfWrapCopy`) and zeroing a circular range (`wrapClear`).
 *
 * Each primitive is a method over an array, proved against a function on
 * sequences that says what the array holds afterwards. Where the Go code
 * does something other than its doc-comment says, a second function models
 * the code as written and a lemma exhibits the difference.
 */
module RingOps {
  import opened Ring

  function Min(a: int, b: int): int { if a <= b then a else b }

  function Min3(a: int, b: int, c: int): int { Min(Min(a, b), c) }

  // ---------------------------------------------------------------------
  // wrapCopy
  // ---------------------------------------------------------------------

  /** How many elements `wrapCopy` copies between slices of lengths l1, l2. */
  function CopyCount(l1: int, l2: int, n: int): (c: int)
    ensures c == 0 <==> l1 <= 0 || l2 <= 0 || n < 1
    ensures c > 0 ==> c <= n && c <= l1 && c <= l2
    ensures c > 0 ==> c == n || c == l1 || c == l2
  {
    if l1 <= 0 || l2 <= 0 || n < 1 then 0 else Min3(n, l1, l2)
  }

  /**
   * `dst` after copying CopyCount(|src|, |dst|, n) elements of `src`, read
   * circularly from position si, into `dst` circularly from position di.
   */
  function CopiedInto<T>(src: seq<T>, dst: seq<T>, si: int, di: int, n: int): (r: seq<T>)
    ensures |r| == |dst|
  {
    var c := CopyCount(|src|, |dst|, n);
    if c == 0 then dst
    else
      var f1, f2 := Fix(|src|, si), Fix(|dst|, di);
      seq(|dst|, p requires 0 <= p < |dst| =>
        if Offset(|dst|, f2, p) < c then src[Wrap(|src|, f1 + Offset(|dst|, f2, p))] else dst[p])
  }

  /**
   * Slot-wise effect of a copy, shift or clear: after is before with the c
   * slots starting at slot d (walking around the ring) taken from src,
   * starting at src slot f; every other slot keeps its value.
   */
  ghost predicate Written<T>(src: seq<T>, before: seq<T>, after: seq<T>, f: int, d: int, c: int) {
    |after| == |before| && 0 <= c <= |src| && c <= |before|
    && (c > 0 ==> 0 <= f < |src| && 0 <= d < |before|)
    && forall p {:trigger after[p]} :: 0 <= p < |before| ==>
         after[p] == (if c > 0 && Offset(|before|, d, p) < c
                      then src[Wrap(|src|, f + Offset(|before|, d, p))] else before[p])
  }

  /** A Written fact only depends on f and d when something is written. */
  lemma WrittenRebase<T>(src: seq<T>, before: seq<T>, after: seq<T>, f: int, d: int, c: int, f': int, d': int)
    requires Written(src, before, after, f, d, c)
    requires c > 0 ==> f == f' && d == d'
    ensures Written(src, before, after, f', d', c)
  {
  }

  /** The copy function, slot by slot. */
  lemma CopiedIntoWritten<T>(src: seq<T>, dst: seq<T>, si: int, di: int, n: int)
    ensures Written(src, dst, CopiedInto(src, dst, si, di, n),
                    Fix(|src|, si), Fix(|dst|, di), CopyCount(|src|, |dst|, n))
  {
  }

  /** Reading the copy back: the k-th destination slot holds the k-th source slot, the rest is untouched. */
  lemma CopiedIntoAt<T>(src: seq<T>, dst: seq<T>, si: int, di: int, n: int, k: int)
    requires 0 <= k < CopyCount(|src|, |dst|, n)
    ensures CopiedInto(src, dst, si, di, n)[Wrap(|dst|, Fix(|dst|, di) + k)]
         == src[Wrap(|src|, Fix(|src|, si) + k)]
  {
    OffsetOfWrap(|dst|, Fix(|dst|, di), k);
  }

  /** Slots outside the copied window keep their values. */
  lemma CopiedIntoElsewhere<T>(src: seq<T>, dst: seq<T>, si: int, di: int, n: int, p: int)
    requires 0 <= p < |dst|
    requires CopyCount(|src|, |dst|, n) <= Offset(|dst|, Fix(|dst|, di), p)
    ensures CopiedInto(src, dst, si, di, n)[p] == dst[p]
  {
  }

  /** d with the slots [at, at + count) overwritten by src[from..from + count). */
  function ChunkWritten<T>(d: seq<T>, src: seq<T>, from: int, at: int, count: int): (r: seq<T>)
    requires 0 <= from && from + count <= |src| && 0 <= at && at + count <= |d|
    ensures |r| == |d|
  {
    seq(|d|, p requires 0 <= p < |d| => if at <= p < at + count then src[from + p - at] else d[p])
  }

  /** dst with its first `done` circular slots from f2 filled from src, circularly from f1. */
  function CopyPrefix<T>(src: seq<T>, dst: seq<T>, f1: int, f2: int, done: int): (r: seq<T>)
    requires 0 <= f1 < |src| && 0 <= f2 < |dst| && 0 <= done <= |src| && done <= |dst|
    ensures |r| == |dst|
  {
    seq(|dst|, p requires 0 <= p < |dst| =>
      if Offset(|dst|, f2, p) < done then src[Wrap(|src|, f1 + Offset(|dst|, f2, p))] else dst[p])
  }

  /** One chunk of the copy loop extends the copied prefix by the chunk. */
  lemma CopyPrefixStep<T>(src: seq<T>, dst: seq<T>, f1: int, f2: int, done: int, chunk: int)
    requires 0 <= f1 < |src| && 0 <= f2 < |dst|
    requires 0 <= done && 0 <= chunk && done + chunk <= |src| && done + chunk <= |dst|
    requires Wrap(|src|, f1 + done) + chunk <= |src| && Wrap(|dst|, f2 + done) + chunk <= |dst|
    ensures ChunkWritten(CopyPrefix(src, dst, f1, f2, done), src,
                         Wrap(|src|, f1 + done), Wrap(|dst|, f2 + done), chunk)
         == CopyPrefix(src, dst, f1, f2, done + chunk)
    ensures Fix(|src|, Wrap(|src|, f1 + done) + chunk) == Wrap(|src|, f1 + done + chunk)
    ensures Fix(|dst|, Wrap(|dst|, f2 + done) + chunk) == Wrap(|dst|, f2 + done + chunk)
  {
    var i1, i2 := Wrap(|src|, f1 + done), Wrap(|dst|, f2 + done);
    var lhs := ChunkWritten(CopyPrefix(src, dst, f1, f2, done), src, i1, i2, chunk);
    var rhs := CopyPrefix(src, dst, f1, f2, done + chunk);
    forall p | 0 <= p < |dst| ensures lhs[p] == rhs[p] {
      if i2 <= p < i2 + chunk {
        assert Offset(|dst|, f2, p) == done + (p - i2);
      }
    }
  }

  /** Go's built-in `copy(dst[at:at+count], src[from:from+count])`. */
  method CopyChunk<T>(src: seq<T>, dst: array<T>, from: int, at: int, count: int)
    requires 0 <= from && from + count <= |src| && 0 <= at && at + count <= dst.Length
    modifies dst
    ensures dst[..] == ChunkWritten(old(dst[..]), src, from, at, count)
  {
    forall k | 0 <= k < count {
      dst[at + k] := src[from + k];
    }
  }

  lemma CopyPrefixIsCopiedInto<T>(src: seq<T>, dst: seq<T>, si: int, di: int, n: int)
    requires CopyCount(|src|, |dst|, n) > 0
    ensures CopyPrefix(src, dst, Fix(|src|, si), Fix(|dst|, di), CopyCount(|src|, |dst|, n))
         == CopiedInto(src, dst, si, di, n)
  {
  }

  /**
   * `wrapCopy(s1, s2, i1, i2, n)` as its doc-comment describes it: copy from
   * s1 (here `src`) into s2 (here `dst`), chunk by chunk so that no chunk
   * crosses the end of either slice. Returns the number copied.
   */
  method WrapCopy<T>(src: seq<T>, dst: array<T>, si: int, di: int, n: int) returns (copied: int)
    modifies dst
    ensures copied == CopyCount(|src|, dst.Length, n)
    ensures Written(src, old(dst[..]), dst[..], Fix(|src|, si), Fix(dst.Length, di), copied)
  {
    var l1, l2 := |src|, dst.Length;
    if l1 == 0 || l2 == 0 || n < 1 {
      assert dst[..] == old(dst[..]);
      return 0;
    }
    var i1, i2 := Fix(l1, si), Fix(l2, di);
    copied := Min3(n, l1, l2);
    ghost var before := dst[..];
    CopyChunks(src, dst, i1, i2, copied);
    CopyPrefixIsCopiedInto(src, before, si, di, n);
    CopiedIntoWritten(src, before, si, di, n);
    WrittenRebase(src, old(dst[..]), dst[..], i1, i2, copied, Fix(|src|, si), Fix(dst.Length, di));
  }

  /** The chunk loop of wrapCopy: `count` elements, no chunk crossing the end of either slice. */
  method CopyChunks<T>(src: seq<T>, dst: array<T>, f1: int, f2: int, count: int)
    requires 0 <= f1 < |src| && 0 <= f2 < dst.Length && 0 <= count <= |src| && count <= dst.Length
    modifies dst
    ensures dst[..] == CopyPrefix(src, old(dst[..]), f1, f2, count)
  {
    var l1, l2 := |src|, dst.Length;
    var i1, i2 := f1, f2;
    ghost var before := dst[..];
    var left := count;
    ghost var done := 0;
    while 0 < left
      invariant 0 <= left <= count && done == count - left
      invariant i1 == Wrap(l1, f1 + done) && i2 == Wrap(l2, f2 + done)
      invariant dst[..] == CopyPrefix(src, before, f1, f2, done)
    {
      var chunk := Min3(left, l1 - i1, l2 - i2);
      CopyChunk(src, dst, i1, i2, chunk);
      CopyPrefixStep(src, before, f1, f2, done, chunk);
      i1 := Fix(l1, i1 + chunk);
      i2 := Fix(l2, i2 + chunk);
      left := left - chunk;
      done := done + chunk;
    }
  }

  /**
   * `wrapCopy` as the code is written: `copy(s1[...], s2[...])` writes into
   * s1 and reads from s2, so it returns the new s1 and leaves s2 as it was.
   */
  function WrapCopyAsWritten<T>(s1: seq<T>, s2: seq<T>, i1: int, i2: int, n: int): (r: (seq<T>, seq<T>))
    ensures r.1 == s2
  {
    (CopiedInto(s2, s1, i2, i1, n), s2)
  }

  /** Copying [1] into [2] as written overwrites the source and leaves the target. */
  lemma WrapCopyAsWrittenCopiesBackwards()
    ensures WrapCopyAsWritten([1], [2], 0, 0, 1) == ([2], [2])
    ensures CopiedInto([1], [2], 0, 0, 1) == [1]
  {
    assert CopiedInto([2], [1], 0, 0, 1)[0] == 2;
    assert CopiedInto([2], [1], 0, 0, 1) == [2];
    assert CopiedInto([1], [2], 0, 0, 1)[0] == 1;
  }

  // ---------------------------------------------------------------------
  // selfWrapCopy
  // ---------------------------------------------------------------------

  /** The inputs for which `selfWrapCopy` does nothing. */
  predicate ShiftIsNop(l: int, n: int, m: int) {
    l == 0 || n < 1 || l <= n || l <= m || m == 0
  }

  function AbsInt(x: int): int { if x < 0 then -x else x }

  /** When a non-empty move fits in the slice, it is a no-op exactly when the distance is 0. */
  lemma ShiftIsNopExactly(l: int, n: int, m: int)
    requires 0 < n && n + AbsInt(m) <= l
    ensures ShiftIsNop(l, n, m) <==> m == 0
  {
  }

  /**
   * The slice after moving the circular range [i, i+n) by m positions
   * (right when m > 0, left when m < 0), as one simultaneous move: every
   * destination slot gets the value its source slot held before.
   */
  function Shifted<T>(s: seq<T>, i: int, n: int, m: int): (r: seq<T>)
    ensures |r| == |s|
  {
    if ShiftIsNop(|s|, n, m) then s
    else
      var l := |s|;
      var f := Fix(l, i);
      var d := Fix(l, f + m);
      seq(l, p requires 0 <= p < l =>
        if Offset(l, d, p) < n then s[Wrap(l, f + Offset(l, d, p))] else s[p])
  }

  /** After the shift, the k-th slot of the target range holds the k-th slot of the source range. */
  lemma ShiftedAt<T>(s: seq<T>, i: int, n: int, m: int, k: int)
    requires !ShiftIsNop(|s|, n, m) && 0 <= k < n
    ensures Shifted(s, i, n, m)[Wrap(|s|, Fix(|s|, Fix(|s|, i) + m) + k)]
         == s[Wrap(|s|, Fix(|s|, i) + k)]
  {
    OffsetOfWrap(|s|, Fix(|s|, Fix(|s|, i) + m), k);
  }

  /** before with the target slots whose offset from d lies in [lo, hi) already moved. */
  function ShiftPart<T>(before: seq<T>, f: int, d: int, lo: int, hi: int): (r: seq<T>)
    requires 0 <= f < |before| && 0 <= d < |before| && 0 <= lo && hi <= |before|
    ensures |r| == |before|
  {
    var l := |before|;
    seq(l, p requires 0 <= p < l =>
      if lo <= Offset(l, d, p) < hi then before[Wrap(l, f + Offset(l, d, p))] else before[p])
  }

  /** Moving left one element at a time, front to back, never reads a slot already written. */
  lemma ShiftLeftStep<T>(before: seq<T>, f: int, m: int, n: int, k: int)
    requires 0 <= f < |before| && m < 0 && n + -m <= |before| && 0 <= k < n
    ensures ShiftPart(before, f, Wrap(|before|, f + m), 0, k)[Wrap(|before|, f + k)]
         == before[Wrap(|before|, f + k)]
    ensures ShiftPart(before, f, Wrap(|before|, f + m), 0, k)
              [Wrap(|before|, Wrap(|before|, f + m) + k) := before[Wrap(|before|, f + k)]]
         == ShiftPart(before, f, Wrap(|before|, f + m), 0, k + 1)
  {
    var l, d := |before|, Wrap(|before|, f + m);
    assert Offset(l, d, Wrap(l, f + k)) >= k;
    OffsetOfWrap(l, d, k);
  }

  /** Moving right one element at a time, back to front, never reads a slot already written. */
  lemma ShiftRightStep<T>(before: seq<T>, f: int, m: int, n: int, k: int)
    requires 0 <= f < |before| && 0 < m && n + m <= |before| && 0 <= k < n
    ensures ShiftPart(before, f, Wrap(|before|, f + m), k + 1, n)[Wrap(|before|, f + k)]
         == before[Wrap(|before|, f + k)]
    ensures ShiftPart(before, f, Wrap(|before|, f + m), k + 1, n)
              [Wrap(|before|, Wrap(|before|, f + m) + k) := before[Wrap(|before|, f + k)]]
         == ShiftPart(before, f, Wrap(|before|, f + m), k, n)
  {
    var l, d := |before|, Wrap(|before|, f + m);
    assert !(k < Offset(l, d, Wrap(l, f + k)) < n);
    OffsetOfWrap(l, d, k);
  }

  /**
   * `selfWrapCopy(s, i, n, m)`: an overlapping move inside one slice,
   * memmove-style. Elements are moved one at a time, front to back for a
   * left move and back to front for a right move, which is correct whenever
   * the range and the distance fit in the slice (n + |m| <= len(s)), the only
   * way the list uses it.
   */
  method SelfWrapCopy<T>(s: array<T>, i: int, n: int, m: int)
    modifies s
    ensures !ShiftIsNop(s.Length, n, m) && n + AbsInt(m) <= s.Length ==>
      Written(old(s[..]), old(s[..]), s[..], Fix(s.Length, i), Fix(s.Length, Fix(s.Length, i) + m), n)
    ensures ShiftIsNop(s.Length, n, m) ==> s[..] == old(s[..])
  {
    var l := s.Length;
    if ShiftIsNop(l, n, m) || n + AbsInt(m) > l {
      return;
    }
    var f := Fix(l, i);
    WrapIsFix(l, f + m);
    ShiftMove(s, f, Fix(l, f + m), m, n);
    WrittenRebase(old(s[..]), old(s[..]), s[..], f, Fix(l, f + m), n,
                  Fix(s.Length, i), Fix(s.Length, Fix(s.Length, i) + m));
  }

  /** The move itself, for a range and a distance that fit: left moves go front to back, right moves back to front. */
  method ShiftMove<T>(s: array<T>, f: int, d: int, m: int, n: int)
    requires 0 <= f < s.Length && m != 0 && 0 < n && n + AbsInt(m) <= s.Length && d == Wrap(s.Length, f + m)
    modifies s
    ensures Written(old(s[..]), old(s[..]), s[..], f, d, n)
  {
    ghost var before := s[..];
    if m < 0 {
      ShiftLeft(s, f, d, m, n);
    } else {
      ShiftRight(s, f, d, m, n);
    }
    ShiftPartWritten(before, s[..], f, d, n);
  }

  /** The left move of selfWrapCopy: one element at a time, front to back. */
  method ShiftLeft<T>(s: array<T>, f: int, d: int, m: int, n: int)
    requires 0 <= f < s.Length && m < 0 && 0 < n && n + -m <= s.Length && d == Wrap(s.Length, f + m)
    modifies s
    ensures s[..] == ShiftPart(old(s[..]), f, d, 0, n)
  {
    var l := s.Length;
    ghost var before := s[..];
    var k := 0;
    while k < n
      invariant 0 <= k <= n
      invariant s[..] == ShiftPart(before, f, d, 0, k)
    {
      ShiftLeftStep(before, f, m, n, k);
      s[Wrap(l, d + k)] := s[Wrap(l, f + k)];
      k := k + 1;
    }
  }

  /** The right move of selfWrapCopy: one element at a time, back to front. */
  method ShiftRight<T>(s: array<T>, f: int, d: int, m: int, n: int)
    requires 0 <= f < s.Length && 0 < m && 0 < n && n + m <= s.Length && d == Wrap(s.Length, f + m)
    modifies s
    ensures s[..] == ShiftPart(old(s[..]), f, d, 0, n)
  {
    var l := s.Length;
    ghost var before := s[..];
    var k := n;
    while 0 < k
      invariant 0 <= k <= n
      invariant s[..] == ShiftPart(before, f, d, k, n)
    {
      k := k - 1;
      ShiftRightStep(before, f, m, n, k);
      s[Wrap(l, d + k)] := s[Wrap(l, f + k)];
    }
  }

  lemma ShiftPartWritten<T>(before: seq<T>, after: seq<T>, f: int, d: int, n: int)
    requires 0 <= f < |before| && 0 <= d < |before| && 0 < n <= |before|
    requires after == ShiftPart(before, f, d, 0, n)
    ensures Written(before, before, after, f, d, n)
  {
  }


  /**
   * The chunk loop of `wrapCopy(s, s, i1, i2, left)` as written, on one
   * slice: each round is Go's `copy(s[i1:i1+c], s[i2:i2+c])`, a memmove
   * from slot i2 to slot i1 of the slice as the earlier rounds left it.
   */
  function SelfCopyLoopAsWritten<T>(s: seq<T>, i1: int, i2: int, left: int): (r: seq<T>)
    requires 0 <= i1 < |s| && 0 <= i2 < |s|
    ensures |r| == |s|
    decreases left
  {
    if left <= 0 then s
    else
      var l := |s|;
      var c := Min3(left, l - i1, l - i2);
      SelfCopyLoopAsWritten(ChunkWritten(s, s, i2, i1, c), Fix(l, i1 + c), Fix(l, i2 + c), left - c)
  }

  /**
   * The right-part-first loop of `selfWrapCopy` as written. j and tj are
   * the ends of the source and target runs before this round's update, and
   * copied is what the previous round copied. Each round is Go's
   * `copy(s[tj-c:], s[j-c:j])`, which copies min(len(s) - (tj-c), c)
   * elements and panics when j > len(s).
   */
  function SelfWrapCopyRightAsWritten<T>(s: seq<T>, j: int, tj: int, n: int, copied: int): Outcome<T>
    requires 0 < |s| && 1 <= j && 1 <= tj && 0 <= copied <= j && copied <= tj
    decreases n
  {
    if n <= 0 then Done(s)
    else
      var l := |s|;
      var tj' := if tj - copied < 1 then tj - copied + l else tj - copied;
      var j' := if j - copied < 1 then j - copied + l else j - copied;
      var c := Min3(j', tj', n);
      if l < j' || l < tj' - c then SlicePanic
      else
        var k := Min(l - (tj' - c), c);
        SelfWrapCopyRightAsWritten(ChunkWritten(s, s, j' - c, tj' - c, k), j', tj', n - c, c)
  }

  /**
   * `selfWrapCopy(s, i, n, m)` as written: the order of the moves is chosen
   * by `targetI < i` rather than by the direction of m; the left-part-first
   * branch calls `wrapCopy(s, s, i, targetI, n)`, which as written copies
   * from the target run into the source run; and the right-part-first loop
   * starts from a source end i+n that may lie past the slice, and counts a
   * round as `copied` elements even when its target was cut at the end of
   * the slice.
   */
  function SelfWrapCopyAsWritten<T>(s: seq<T>, i: int, n: int, m: int): Outcome<T>
  {
    var l := |s|;
    if ShiftIsNop(l, n, m) then Done(s)
    else
      var f := Fix(l, i);
      var t := Fix(l, f + m);
      if t < f then Done(SelfCopyLoopAsWritten(s, f, t, n))
      else SelfWrapCopyRightAsWritten(s, f + n, t + n, n, 0)
  }

  /**
   * Moving [5, 9) right by 3 in a slice of 10 holding 0..9: as written only
   * slots 8 and 9 get 5 and 6, where slots 0 and 1 should get 7 and 8.
   */
  lemma SelfWrapCopyAsWrittenStopsAtEnd()
    ensures SelfWrapCopyAsWritten([0, 1, 2, 3, 4, 5, 6, 7, 8, 9], 5, 4, 3)
         == Done([0, 1, 2, 3, 4, 5, 6, 7, 5, 6])
    ensures Shifted([0, 1, 2, 3, 4, 5, 6, 7, 8, 9], 5, 4, 3)[0] == 7
    ensures Shifted([0, 1, 2, 3, 4, 5, 6, 7, 8, 9], 5, 4, 3)[1] == 8
  {
    var s := [0, 1, 2, 3, 4, 5, 6, 7, 8, 9];
    var r := ChunkWritten(s, s, 5, 8, 2);
    assert r == [0, 1, 2, 3, 4, 5, 6, 7, 5, 6];
    assert SelfWrapCopyAsWritten(s, 5, 4, 3) == SelfWrapCopyRightAsWritten(r, 9, 12, 0, 4);
    assert Offset(10, 8, 0) == 2 && Offset(10, 8, 1) == 3;
  }

  /**
   * Moving [5, 7) left by 2 in a slice of 10 holding 0..9: as written slots
   * 5 and 6 get 3 and 4, where slots 3 and 4 should get 5 and 6.
   */
  lemma SelfWrapCopyAsWrittenCopiesBackwards()
    ensures SelfWrapCopyAsWritten([0, 1, 2, 3, 4, 5, 6, 7, 8, 9], 5, 2, -2)
         == Done([0, 1, 2, 3, 4, 3, 4, 7, 8, 9])
    ensures Shifted([0, 1, 2, 3, 4, 5, 6, 7, 8, 9], 5, 2, -2)[3] == 5
    ensures Shifted([0, 1, 2, 3, 4, 5, 6, 7, 8, 9], 5, 2, -2)[4] == 6
  {
    var s := [0, 1, 2, 3, 4, 5, 6, 7, 8, 9];
    var r := ChunkWritten(s, s, 3, 5, 2);
    assert r == [0, 1, 2, 3, 4, 3, 4, 7, 8, 9];
    assert SelfCopyLoopAsWritten(s, 5, 3, 2) == SelfCopyLoopAsWritten(r, 7, 5, 0);
    assert Offset(10, 3, 3) == 0 && Offset(10, 3, 4) == 1;
  }

  /** Moving [8, 12) right by 1 in a slice of 10 slices s[8:12] and panics as written. */
  lemma SelfWrapCopyAsWrittenPanicsWhenWrapping()
    ensures SelfWrapCopyAsWritten([0, 1, 2, 3, 4, 5, 6, 7, 8, 9], 8, 4, 1) == SlicePanic
  {
  }

  /**
   * A right move that does not reach the end of the slice is done right as
   * written: one round copies the whole run.
   */
  lemma SelfWrapCopyAsWrittenAgreesWithoutWrap<T>(s: seq<T>, i: int, n: int, m: int)
    requires 0 < n && 0 < m && 0 <= i && i + n + m <= |s|
    ensures SelfWrapCopyAsWritten(s, i, n, m) == Done(Shifted(s, i, n, m))
  {
    var l, d := |s|, i + m;
    var r := ChunkWritten(s, s, i, d, n);
    assert SelfWrapCopyAsWritten(s, i, n, m) == SelfWrapCopyRightAsWritten(r, i + n, d + n, 0, n);
    forall p | 0 <= p < l ensures r[p] == Shifted(s, i, n, m)[p] {
      if d <= p {
        assert Offset(l, d, p) == p - d;
      } else {
        assert Offset(l, d, p) == p + l - d;
      }
    }
  }

  // ---------------------------------------------------------------------
  // wrapClear
  // ---------------------------------------------------------------------

  /** What `wrapClear(s, i, n)` returns for a slice of length l. */
  function ClearCount(l: int, n: int): (c: int)
    requires l >= 0
    ensures 0 <= c <= l
    ensures l == 0 || n == 0 ==> c == 0
    ensures l > 0 && AbsInt(n) >= l ==> c == l
    ensures AbsInt(n) < l ==> c == AbsInt(n)
  {
    if l == 0 || n == 0 then 0 else if AbsInt(n) >= l then l else AbsInt(n)
  }

  /** n copies of the zero value: what wrapClear writes. */
  function Zeros<T>(n: int, zero: T): (r: seq<T>)
    requires n >= 0
    ensures |r| == n && forall k :: 0 <= k < n ==> r[k] == zero
  {
    seq(n, _ => zero)
  }

  /** The slot where the cleared range begins: i, or i - |n| for negative n. */
  function ClearStart(l: int, i: int, n: int): int
    requires l >= 0
  {
    Fix(l, if n < 0 then i + n else i)
  }

  /**
   * The slice after `wrapClear(s, i, n)`: the |n| circular slots from i
   * (before i when n < 0) set to zero; every slot when |n| >= len(s).
   */
  function Cleared<T>(s: seq<T>, zero: T, i: int, n: int): (r: seq<T>)
    ensures |r| == |s|
  {
    var l := |s|;
    if l == 0 || n == 0 then s
    else if AbsInt(n) >= l then seq(l, _ => zero)
    else
      var start := ClearStart(l, i, n);
      seq(l, p requires 0 <= p < l => if Offset(l, start, p) < AbsInt(n) then zero else s[p])
  }

  /** Exactly the counted slots are zero afterwards, and only they may change. */
  lemma ClearedExactly<T>(s: seq<T>, zero: T, i: int, n: int, k: int)
    requires |s| > 0 && 0 <= k < |s|
    ensures k < ClearCount(|s|, n) ==>
      Cleared(s, zero, i, n)[Wrap(|s|, ClearStart(|s|, i, n) + k)] == zero
    ensures ClearCount(|s|, n) <= k ==>
      Cleared(s, zero, i, n)[Wrap(|s|, ClearStart(|s|, i, n) + k)] == s[Wrap(|s|, ClearStart(|s|, i, n) + k)]
  {
    OffsetOfWrap(|s|, ClearStart(|s|, i, n), k);
  }
  /** The clear function, slot by slot. */
  lemma ClearedWritten<T>(s: seq<T>, zero: T, i: int, n: int)
    ensures Written(Zeros(ClearCount(|s|, n), zero), s, Cleared(s, zero, i, n), 0, ClearStart(|s|, i, n), ClearCount(|s|, n))
  {
    var l, c := |s|, ClearCount(|s|, n);
    if c > 0 {
      var r := Cleared(s, zero, i, n);
      var st := ClearStart(l, i, n);
      forall p | 0 <= p < l
        ensures r[p] == (if Offset(l, st, p) < c then Zeros(c, zero)[Wrap(c, Offset(l, st, p))] else s[p])
      {
      }
    }
  }


  /**
   * `wrapClear` as its doc-comment describes it. The corrected loop moves
   * i past the chunk just cleared (not past everything cleared so far).
   */
  method WrapClear<T>(s: array<T>, zero: T, i: int, n: int) returns (cleared: int)
    modifies s
    ensures cleared == ClearCount(s.Length, n)
    ensures Written(Zeros(cleared, zero), old(s[..]), s[..], 0, ClearStart(s.Length, i, n), cleared)
  {
    var l := s.Length;
    if l == 0 || n == 0 {
      return 0;
    }
    var i', n' := i, n;
    if n' < 0 {
      i' := i' + n';
      n' := -n';
    }
    if l <= n' {
      ClearAll(s, zero);
      cleared := l;
      assert forall p :: 0 <= p < l ==> Offset(l, ClearStart(l, i, n), p) < cleared;
      return;
    }
    ClearFrom(s, zero, Fix(l, i'), n');
    cleared := n';
  }

  method ClearAll<T>(s: array<T>, zero: T)
    modifies s
    ensures forall p :: 0 <= p < s.Length ==> s[p] == zero
  {
    forall p | 0 <= p < s.Length {
      s[p] := zero;
    }
  }

  /** The loop of wrapClear: clear count slots from slot f, one chunk per side of the end. */
  method ClearFrom<T>(s: array<T>, zero: T, f: int, count: int)
    requires 0 <= f < s.Length && 0 < count < s.Length
    modifies s
    ensures Written(Zeros(count, zero), old(s[..]), s[..], 0, f, count)
  {
    var l := s.Length;
    ghost var before := s[..];
    var start := f;
    var left := count;
    while 0 < left
      invariant 0 <= left <= count
      invariant start == Wrap(l, f + (count - left))
      invariant forall p :: 0 <= p < l ==>
        s[p] == if Offset(l, f, p) < count - left then zero else before[p]
    {
      var j := Min(start + left, l);
      ghost var done := count - left;
      forall p | start <= p < j {
        s[p] := zero;
      }
      assert forall p :: start <= p < j ==> Offset(l, f, p) == done + (p - start);
      left := left - (j - start);
      start := Fix(l, j);
    }
  }


  /**
   * Outcome of running a loop of the source as written: the slice it leaves,
   * or a Go slice-bounds panic. Slices are modelled with capacity equal to
   * length, as `make` gives them, so slicing past len(s) panics.
   */
  datatype Outcome<T> = Done(s: seq<T>) | SlicePanic

  /** s with the slots [a, b) set to zero. */
  function ZeroRange<T>(s: seq<T>, zero: T, a: int, b: int): (r: seq<T>)
    ensures |r| == |s|
  {
    seq(|s|, p requires 0 <= p < |s| => if a <= p < b then zero else s[p])
  }

  /**
   * The loop of `wrapClear` as written: both i and left are advanced by
   * the running total `cleared`; `s[i:j]` with j < i panics in Go.
   */
  function WrapClearLoopAsWritten<T>(s: seq<T>, zero: T, i: int, cleared: int, left: int): Outcome<T>
    requires |s| > 0 && 0 <= cleared
    decreases left, if cleared == 0 then 1 else 0
  {
    if left <= 0 then Done(s)
    else
      var i' := Fix(|s|, i + cleared);
      var left' := left - cleared;
      var j := Min(i' + left', |s|);
      if j < i' then SlicePanic
      else WrapClearLoopAsWritten(ZeroRange(s, zero, i', j), zero, i', cleared + (j - i'), left')
  }

  /** `wrapClear` as written, for a non-trivial count (0 < n < len(s)). */
  function WrapClearAsWritten<T>(s: seq<T>, zero: T, i: int, n: int): Outcome<T>
    requires 0 < n < |s|
  {
    WrapClearLoopAsWritten(s, zero, i, 0, n)
  }

  /** Clearing 3 slots from slot 4 of a 5-slot slice panics as written. */
  lemma WrapClearAsWrittenPanicsWhenWrapping()
    ensures WrapClearAsWritten([1, 1, 1, 1, 1], 0, 4, 3) == SlicePanic
  {
    var s := [1, 1, 1, 1, 1];
    var s1 := ZeroRange(s, 0, 4, 5);
    assert WrapClearLoopAsWritten(s, 0, 4, 0, 3) == WrapClearLoopAsWritten(s1, 0, 4, 1, 3);
    var s2 := ZeroRange(s1, 0, 0, 2);
    assert WrapClearLoopAsWritten(s1, 0, 4, 1, 3) == WrapClearLoopAsWritten(s2, 0, 0, 3, 2);
  }

  /** When the range does not cross the end of the slice, the written loop is right. */
  lemma WrapClearAsWrittenAgreesWithoutWrap<T>(s: seq<T>, zero: T, i: int, n: int)
    requires 0 < n < |s| && 0 <= i && i + n <= |s|
    ensures WrapClearAsWritten(s, zero, i, n) == Done(Cleared(s, zero, i, n))
  {
    var l := |s|;
    var s1 := ZeroRange(s, zero, i, i + n);
    assert WrapClearLoopAsWritten(s, zero, i, 0, n) == WrapClearLoopAsWritten(s1, zero, i, n, n);
    var i2 := Fix(l, i + n);
    assert WrapClearLoopAsWritten(s1, zero, i, n, n)
        == WrapClearLoopAsWritten(ZeroRange(s1, zero, i2, i2), zero, i2, n, 0);
    assert ZeroRange(s1, zero, i2, i2) == s1;
    assert s1 == Cleared(s, zero, i, n);
  }
}
