/**
 * The list container: a backing slice used as a ring, with the live
 * elements in the window (back, len). Element 0 is the back of the list,
 * element len-1 its front; Push and Pop work at the front.
 *
 * The Go zero value of T is the list's `zero`; the AllocFunc is an
 * AllocPolicy; a FreeFunc is modelled by `hasFreeFunc` and the ghost log
 * `freed` of the slices handed to it.
 */
module Lists {
  import opened Ring
  import opened RingOps
  import opened Windows

  /** The package errors, plus AllocFailed for an error an AllocFunc returns itself. */
  datatype Error = InvalidPosition | InvalidRange | InvalidAmount | InvalidAllocation | AllocFailed

  /** What an AllocFunc answers: a slice of the given length, or an error of its own. */
  datatype AllocAnswer = Slice(size: int) | Failed

  /** The AllocFunc field: nil (AllocDefault is used) or a caller's function. */
  datatype AllocPolicy = Default | Custom(f: (int, int) -> AllocAnswer)

  /** What `alloc(min, max)` ends with: a slice length, or the error it returns. */
  datatype Sized = Sized(size: int) | Refused(err: Error)

  /**
   * `alloc(min, max)`: ask the policy, then refuse a slice shorter than min
   * or, when max >= 0, longer than max.
   */
  function AllocResult(p: AllocPolicy, min: int, max: int): (r: Sized)
    ensures r.Sized? ==> min <= r.size && (max < 0 || r.size <= max)
    ensures r.Refused? ==> r.err == AllocFailed || r.err == InvalidAllocation
  {
    var a := match p
      case Default => Slice(AllocDefaultSize(min, max))
      case Custom(f) => f(min, max);
    AllocSizeOkExact(if a.Slice? then a.size else 0, min, max);
    if a.Failed? then Refused(AllocFailed)
    else if !AllocSizeOk(a.size, min, max) then Refused(InvalidAllocation)
    else Sized(a.size)
  }

  /** With no AllocFunc, alloc succeeds whenever its bounds are consistent. */
  lemma DefaultAllocSucceeds(min: int, max: int)
    requires 0 <= min && (max < 0 || min <= max)
    ensures AllocResult(Default, min, max).Sized?
  {
    AllocDefaultMeetsContract(min, max);
    AllocSizeOkExact(AllocDefaultSize(min, max), min, max);
  }

  /** The checks of NewN, in its order: the back position first, then the length. */
  function NewNError(slen: int, back: int, length: int): (r: Option<Error>)
    requires slen >= 0
    ensures r.None? <==> View(slen, length, back).Valid()
    ensures r == Some(InvalidPosition) <==> !(0 <= back && (back < slen || back == slen == 0))
    ensures r == Some(InvalidAmount) <==>
              0 <= back && (back < slen || back == slen == 0) && !(0 <= length <= slen)
  {
    if slen < back || back < 0 || (slen != 0 && slen == back) then Some(InvalidPosition)
    else if slen < length || length < 0 then Some(InvalidAmount)
    else None
  }

  /** The list rotated left by t: element t becomes the back. */
  function Rotated<T>(e: seq<T>, t: int): (r: seq<T>)
    requires 0 <= t <= |e|
    ensures |r| == |e|
    ensures forall k :: 0 <= k < |e| - t ==> r[k] == e[t + k]
    ensures forall k :: |e| - t <= k < |e| ==> r[k] == e[k - (|e| - t)]
  {
    e[t..] + e[..t]
  }

  /**
   * What a move to a new slice does with the old one (before: its contents
   * before the move, after: after it). With a FreeFunc, the slots the list
   * used are zeroed and the old slice is handed to it; without one, the old
   * slice is left as it was and nothing is handed over.
   */
  ghost predicate HandedOver<T>(hasFreeFunc: bool, freedBefore: seq<seq<T>>, freedAfter: seq<seq<T>>,
                                before: seq<T>, after: seq<T>, zero: T, back: int, len: int)
  {
    (hasFreeFunc ==> freedAfter == freedBefore + [after] && 0 <= len && Written(Zeros(len, zero), before, after, 0, back, len))
    && (!hasFreeFunc ==> freedAfter == freedBefore && after == before)
  }

  class List<T> {
    /** The backing slice `s`; its length is `slen`. */
    var buf: array<T>
    var back: int
    var len: int
    /** The zero value of T, written into slots the list stops using. */
    const zero: T
    const policy: AllocPolicy
    const hasFreeFunc: bool
    /** The slices handed to FreeFunc, as they were when handed over. */
    ghost var freed: seq<seq<T>>

    function View(): Ring.View
      reads this
    {
      Ring.View(buf.Length, len, back)
    }

    ghost predicate Valid()
      reads this
    {
      View().Valid()
    }

    /** The list, back to front. */
    function Elements(): (r: seq<T>)
      reads this, buf
      requires Valid()
      ensures |r| == len
    {
      Window(buf[..], back, len)
    }

    /** `New(s, useValues)`: the list takes s over, holding all of it or nothing. */
    constructor New(s: array<T>, useValues: bool, zero: T, policy: AllocPolicy, hasFreeFunc: bool)
      ensures Valid() && buf == s && back == 0
      ensures Elements() == if useValues then s[..] else []
      ensures this.zero == zero && this.policy == policy && this.hasFreeFunc == hasFreeFunc
      ensures freed == []
    {
      buf := s;
      back := 0;
      len := if useValues then s.Length else 0;
      this.zero := zero;
      this.policy := policy;
      this.hasFreeFunc := hasFreeFunc;
      freed := [];
      new;
      if useValues {
        assert forall k :: 0 <= k < s.Length ==> Elements()[k] == s[k];
      }
    }

    /** The zero List: no slice, no elements. */
    constructor Empty(zero: T, policy: AllocPolicy, hasFreeFunc: bool)
      ensures Valid() && buf.Length == 0 && Elements() == []
      ensures this.zero == zero && this.policy == policy && this.hasFreeFunc == hasFreeFunc
      ensures freed == []
    {
      buf := new T[0];
      back, len := 0, 0;
      this.zero := zero;
      this.policy := policy;
      this.hasFreeFunc := hasFreeFunc;
      freed := [];
    }

    /** `NewN(s, back, length)` once its checks passed. */
    constructor FromWindow(s: array<T>, back: int, length: int, zero: T, policy: AllocPolicy, hasFreeFunc: bool)
      requires NewNError(s.Length, back, length).None?
      ensures Valid() && buf == s && this.back == back && len == length
      ensures Elements() == Window(s[..], back, length)
      ensures this.zero == zero && this.policy == policy && this.hasFreeFunc == hasFreeFunc
      ensures freed == []
    {
      buf := s;
      this.back := back;
      len := length;
      this.zero := zero;
      this.policy := policy;
      this.hasFreeFunc := hasFreeFunc;
      freed := [];
    }

    /** `Cap`: the length of the backing slice. */
    function Cap(): (r: int)
      reads this
      requires Valid()
      ensures r == buf.Length && len <= r
    {
      buf.Length
    }

    /** `Len`: the number of elements. */
    function Len(): (r: int)
      reads this, buf
      requires Valid()
      ensures r == |Elements()| && 0 <= r
    {
      len
    }

    /** `Free`: how many elements fit before a new slice is needed. */
    function Free(): (r: int)
      reads this
      requires Valid()
      ensures 0 <= r && len + r == buf.Length
    {
      buf.Length - len
    }

    /** `Val(i)`: element i and true when 0 <= i < Len, else the zero value and false. */
    function Val(i: int): (r: (T, bool))
      reads this, buf
      requires Valid()
      ensures r.1 <==> 0 <= i < len
      ensures r.1 ==> r.0 == Elements()[i]
      ensures !r.1 ==> r.0 == zero
    {
      if View().ElBound(i) then (buf[View().Abs(i)], true) else (zero, false)
    }

    /**
     * `At(i)`: element i with i taken modulo Len, so At(-1) is the front;
     * the zero value on an empty list. Uses fixAbs as its comment defines it.
     */
    function At(i: int): (r: T)
      reads this, buf
      requires Valid()
      ensures len == 0 ==> r == zero
      ensures len > 0 ==> 0 <= Fix(len, i) < len && r == Elements()[Fix(len, i)]
    {
      if len == 0 then zero else buf[View().FixAbs(i)]
    }

    /** `Back`: the element at the back (At(0)). */
    function Back(): (r: T)
      reads this, buf
      requires Valid()
      ensures len == 0 ==> r == zero
      ensures len > 0 ==> r == Elements()[0]
    {
      At(0)
    }

    /** `Front`: the element at the front (At(-1)). */
    function Front(): (r: T)
      reads this, buf
      requires Valid()
      ensures len == 0 ==> r == zero
      ensures len > 0 ==> r == Elements()[len - 1]
    {
      At(-1)
    }

    /** At wraps in both directions: shifting the position by Len changes nothing. */
    lemma {:induction false} AtWraps(i: int, q: int)
      requires Valid()
      ensures At(i + q * len) == At(i)
      ensures len > 0 ==> At(i) == Elements()[i % len]
    {
      if len > 0 {
        FixShift(len, i, q);
        FixIsEuclideanMod(len, i);
      }
    }

    /**
     * `SwapOK(i, j)`, with the position check the doc-comment describes: an
     * error when either position is out of range, false when i == j, and
     * otherwise the two elements exchanged.
     */
    method SwapOK(i: int, j: int) returns (ok: bool, err: Option<Error>)
      requires Valid()
      modifies buf
      ensures Valid()
      ensures !(0 <= i < len && 0 <= j < len) ==> !ok && err == Some(InvalidPosition)
      ensures 0 <= i < len && 0 <= j < len ==> err.None? && (ok <==> i != j)
      ensures ok ==> Elements() == old(Elements())[i := old(Elements())[j]][j := old(Elements())[i]]
      ensures !ok ==> Elements() == old(Elements())
    {
      if SwapGuardRejects(View(), i, j) {
        return false, Some(InvalidPosition);
      }
      if i == j {
        return false, None;
      }
      var a, b := View().Abs(i), View().Abs(j);
      AbsInjective(View(), i, j);
      ghost var e := Elements();
      buf[a], buf[b] := buf[b], buf[a];
      assert forall k :: 0 <= k < len ==> Elements()[k] == e[i := e[j]][j := e[i]][k] by {
        forall k | 0 <= k < len ensures Elements()[k] == e[i := e[j]][j := e[i]][k] {
          AbsInjective(View(), k, i);
          AbsInjective(View(), k, j);
        }
      }
      ok, err := true, None;
    }

    /**
     * `Clear`: zero every live slot, empty the list and return how many
     * elements it held.
     */
    method Clear() returns (cleared: int)
      requires Valid()
      modifies this, buf
      ensures Valid() && Elements() == [] && back == 0
      ensures buf == old(buf) && freed == old(freed)
      ensures cleared == old(len)
      ensures Written(Zeros(cleared, zero), old(buf[..]), buf[..], 0, old(back), cleared)
    {
      cleared := WrapClear(buf, zero, back, len);
      back, len := 0, 0;
    }

    /**
     * `alloc(min, max)`: a fresh slice of the length the policy chose, once
     * the length passed alloc's checks. Its slots hold the zero value.
     */
    method Alloc(min: int, max: int) returns (a: array?<T>, err: Option<Error>)
      requires 0 <= min
      ensures AllocResult(policy, min, max).Refused? ==> a == null && err == Some(AllocResult(policy, min, max).err)
      ensures AllocResult(policy, min, max).Sized? ==>
        err.None? && a != null && fresh(a) && a.Length == AllocResult(policy, min, max).size
        && forall p :: 0 <= p < a.Length ==> a[p] == zero
    {
      var r := AllocResult(policy, min, max);
      if r.Refused? {
        return null, Some(r.err);
      }
      a := new T[r.size](_ => zero);
      err := None;
    }

    /**
     * `free(newSlice)`: when a FreeFunc is set, zero the live slots of the
     * old slice and hand it over; then switch to the new slice. The window
     * is left for the caller to set.
     */
    method Release(newBuf: array<T>)
      requires Valid() && newBuf != buf
      modifies this, buf
      ensures buf == newBuf && back == old(back) && len == old(len)
      ensures !hasFreeFunc ==> freed == old(freed) && old(buf)[..] == old(buf[..])
      ensures hasFreeFunc ==> freed == old(freed) + [old(buf)[..]]
      ensures hasFreeFunc ==>
        Written(Zeros(old(len), zero), old(buf[..]), old(buf)[..], 0, old(back), old(len))
      ensures newBuf[..] == old(newBuf[..])
    {
      if hasFreeFunc {
        var c := WrapClear(buf, zero, back, len);
        freed := freed + [buf[..]];
      }
      buf := newBuf;
    }
    /**
     * What `grow(min, max)` is for: when Free() lies outside [min, max]
     * (max < 0: no upper bound), move the list to a new slice with room for
     * len+min to len+max elements, starting at slot 0.
     */
    method EnsureFree(min: int, max: int) returns (err: Option<Error>)
      requires Valid() && 0 <= min && (max < 0 || min <= max)
      modifies this, buf
      ensures Valid() && Elements() == old(Elements())
      ensures err.None? ==> min <= Free() && (max < 0 || Free() <= max)
      ensures err.Some? ==> buf == old(buf) && back == old(back) && freed == old(freed)
      ensures err.Some? ==>
        AllocResult(policy, old(len) + min, if max < 0 then -1 else old(len) + max) == Refused(err.value)
      ensures policy.Default? ==> err.None?
      ensures min <= old(Free()) && (max < 0 || old(Free()) <= max) ==>
        err.None? && buf == old(buf) && back == old(back) && freed == old(freed)
      ensures buf != old(buf) ==> fresh(buf) && back == 0
      ensures buf != old(buf) ==> HandedOver(hasFreeFunc, old(freed), freed, old(buf[..]), old(buf)[..], zero, old(back), old(len))
    {
      var free := buf.Length - len;
      if min <= free && (max < 0 || free <= max) {
        return None;
      }
      var hi := if max < 0 then -1 else len + max;
      if policy.Default? {
        DefaultAllocSucceeds(len + min, hi);
      }
      var a, e := Alloc(len + min, hi);
      if e.Some? {
        return e;
      }
      MoveTo(a);
      err := None;
    }

    /** The end of grow: the window copied to a from slot 0, the old slice released. */
    method MoveTo(a: array<T>)
      requires Valid() && a != buf && len <= a.Length
      modifies this, buf, a
      ensures Valid() && Elements() == old(Elements())
      ensures buf == a && back == 0 && len == old(len)
      ensures HandedOver(hasFreeFunc, old(freed), freed, old(buf[..]), old(buf)[..], zero, old(back), old(len))
    {
      MoveWindow(buf[..], back, len, a);
      Release(a);
      back := 0;
    }

    /** `Grow(n)`: room for at least n more elements, or ErrInvalidAmount when n < 0. */
    method Grow(n: int) returns (err: Option<Error>)
      requires Valid()
      modifies this, buf
      ensures Valid() && Elements() == old(Elements())
      ensures n < 0 ==> err == Some(InvalidAmount) && buf == old(buf) && back == old(back)
      ensures err.None? ==> n <= Free()
      ensures err.Some? ==> buf == old(buf) && back == old(back) && freed == old(freed)
      ensures policy.Default? ==> (err.None? <==> 0 <= n)
      ensures 0 <= n <= old(Free()) ==> err.None? && buf == old(buf) && back == old(back) && freed == old(freed)
      ensures buf != old(buf) ==> fresh(buf) && back == 0
      ensures buf != old(buf) ==> HandedOver(hasFreeFunc, old(freed), freed, old(buf[..]), old(buf)[..], zero, old(back), old(len))
    {
      if n < 0 {
        return Some(InvalidAmount);
      }
      err := EnsureFree(n, -1);
    }

    /**
     * `GrowRange(min, max)`: Free() within [min, max] afterwards, or
     * ErrInvalidAmount when the range is not one.
     */
    method GrowRange(min: int, max: int) returns (err: Option<Error>)
      requires Valid()
      modifies this, buf
      ensures Valid() && Elements() == old(Elements())
      ensures !(0 <= min <= max) ==> err == Some(InvalidAmount) && buf == old(buf) && back == old(back)
      ensures err.None? ==> min <= Free() <= max
      ensures err.Some? ==> buf == old(buf) && back == old(back) && freed == old(freed)
      ensures policy.Default? ==> (err.None? <==> 0 <= min <= max)
      ensures 0 <= min <= old(Free()) <= max ==>
        err.None? && buf == old(buf) && back == old(back) && freed == old(freed)
      ensures buf != old(buf) ==> fresh(buf) && back == 0
      ensures buf != old(buf) ==> HandedOver(hasFreeFunc, old(freed), freed, old(buf[..]), old(buf)[..], zero, old(back), old(len))
    {
      if min < 0 || max < min {
        return Some(InvalidAmount);
      }
      err := EnsureFree(min, max);
    }

    /**
     * `CopyTo(dst, i, n)`: copy up to n elements (no more than dst holds)
     * starting at element i, wrapping around the list, into dst from 0.
     */
    method CopyTo(dst: array<T>, i: int, n: int) returns (err: Option<Error>)
      requires Valid() && dst != buf
      modifies dst
      ensures err.None? <==> 0 <= i < len && 0 <= n <= len
      ensures err.Some? ==> err == Some(InvalidRange) && dst[..] == old(dst[..])
      ensures err.None? ==>
        forall k :: 0 <= k < Min(n, dst.Length) ==> dst[k] == Elements()[Fix(len, i + k)]
      ensures err.None? ==>
        forall k :: Min(n, dst.Length) <= k < dst.Length ==> dst[k] == old(dst[k])
    {
      if !View().XBound(i, n) {
        return Some(InvalidRange);
      }
      if n == 0 || dst.Length == 0 {
        return None;
      }
      CopyWindowTo(buf[..], back, len, dst, i, Min(n, dst.Length));
      err := None;
    }

    /**
     * `Replace(i, j, vs...)`: the elements in [i, j) become vs. When the
     * result does not fit the slice it moves to a new one of at least the
     * needed length (the only way it can fail, with the allocator's error);
     * otherwise it is rearranged in place, moving whichever side of the
     * range is shorter.
     */
    method Replace(i: int, j: int, vs: seq<T>) returns (err: Option<Error>)
      requires Valid()
      modifies this, buf
      ensures Valid() && (buf == old(buf) || fresh(buf))
      ensures err == Some(InvalidRange) <==> !(0 <= i <= j <= old(len))
      ensures err.None? ==> ReplaceEdit(old(Elements()), i, j, vs).Some?
      ensures err.None? ==> Elements() == ReplaceEdit(old(Elements()), i, j, vs).value
      ensures err.Some? ==> Elements() == old(Elements()) && buf == old(buf) && freed == old(freed)
      ensures err.Some? && err != Some(InvalidRange) ==>
        AllocResult(policy, old(len) - (j - i) + |vs|, -1) == Refused(err.value)
      ensures 0 <= i <= j <= old(len) && old(len) - (j - i) + |vs| <= old(buf.Length) ==>
        err.None? && buf == old(buf) && freed == old(freed)
      ensures policy.Default? ==> (err.None? <==> 0 <= i <= j <= old(len))
      ensures err.None? && buf == old(buf) ==> VacatedZero(buf[..], zero, old(back), old(len), back, len)
      ensures buf != old(buf) ==> HandedOver(hasFreeFunc, old(freed), freed, old(buf[..]), old(buf)[..], zero, old(back), old(len))
    {
      if !View().RngBound(i, j) {
        return Some(InvalidRange);
      }
      var n := Min(len - i, j - i);
      var ls := |vs|;
      if n < 1 && ls == 0 {
        ReplaceNothingIsIdentity(Elements(), i);
        return None;
      }
      var frontEls := len - i - n;
      var needCap := i + ls + frontEls;
      if buf.Length < needCap {
        err := ReplaceByMoving(i, j, vs);
      } else {
        ReplaceInPlace(i, j, vs);
        err := None;
      }
    }

    /** Replace when the result does not fit: move to a new slice from the allocator. */
    method ReplaceByMoving(i: int, j: int, vs: seq<T>) returns (err: Option<Error>)
      requires Valid() && 0 <= i <= j <= len
      modifies this, buf
      ensures Valid() && (buf == old(buf) || fresh(buf))
      ensures err.None? ==> Elements() == ReplaceEdit(old(Elements()), i, j, vs).value
      ensures err.Some? ==> Elements() == old(Elements()) && buf == old(buf) && freed == old(freed)
      ensures err.Some? ==> AllocResult(policy, old(len) - (j - i) + |vs|, -1) == Refused(err.value)
      ensures policy.Default? ==> err.None?
      ensures buf != old(buf) ==> HandedOver(hasFreeFunc, old(freed), freed, old(buf[..]), old(buf)[..], zero, old(back), old(len))
    {
      var needCap := i + |vs| + (len - j);
      if policy.Default? {
        DefaultAllocSucceeds(needCap, -1);
      }
      var a, e := Alloc(needCap, -1);
      if e.Some? {
        return e;
      }
      ReallocReplace(buf[..], back, len, i, j, vs, a);
      Release(a);
      back, len := 0, needCap;
      err := None;
    }

    /** Replace when the result fits: rearrange the slice, moving the shorter side. */
    method ReplaceInPlace(i: int, j: int, vs: seq<T>)
      requires Valid() && 0 <= i <= j <= len && i + |vs| + (len - j) <= buf.Length && 0 < buf.Length
      modifies this, buf
      ensures Valid() && buf == old(buf) && freed == old(freed)
      ensures Elements() == old(Elements())[..i] + vs + old(Elements())[j..]
      ensures VacatedZero(buf[..], zero, old(back), old(len), back, len)
    {
      if i < len - j {
        ReplaceMovingBack(i, j, vs);
      } else {
        ReplaceMovingFront(i, j, vs);
      }
    }

    /** The in-place branch that moves the elements before i, and back with them. */
    method ReplaceMovingBack(i: int, j: int, vs: seq<T>)
      requires Valid() && 0 <= i <= j <= len && i < len - j && i + |vs| + (len - j) <= buf.Length
      modifies this, buf
      ensures Valid() && buf == old(buf) && freed == old(freed)
      ensures Elements() == old(Elements())[..i] + vs + old(Elements())[j..]
      ensures VacatedZero(buf[..], zero, old(back), old(len), back, len)
    {
      ghost var e := Elements();
      var nb := Fix(buf.Length, back + ((j - i) - |vs|));
      ShiftBackReplace(buf, zero, back, len, i, j, vs, e, nb);
      back, len := nb, i + |vs| + (len - j);
    }

    /** The in-place branch that moves the elements from j on; back stays. */
    method ReplaceMovingFront(i: int, j: int, vs: seq<T>)
      requires Valid() && 0 <= i <= j <= len && len - j <= i && i + |vs| + (len - j) <= buf.Length && 0 < buf.Length
      modifies this, buf
      ensures Valid() && buf == old(buf) && freed == old(freed)
      ensures Elements() == old(Elements())[..i] + vs + old(Elements())[j..]
      ensures VacatedZero(buf[..], zero, old(back), old(len), back, len)
    {
      ghost var e := Elements();
      ShiftFrontReplace(buf, zero, back, len, i, j, vs, e);
      len := i + |vs| + (len - j);
    }

    /** `Insert(i, vs...)`: vs placed before element i; ErrInvalidPosition unless 0 <= i <= Len. */
    method Insert(i: int, vs: seq<T>) returns (err: Option<Error>)
      requires Valid()
      modifies this, buf
      ensures Valid() && (buf == old(buf) || fresh(buf))
      ensures !(0 <= i <= old(len)) ==> err == Some(InvalidPosition)
      ensures err.None? ==> 0 <= i <= old(len) && Elements() == old(Elements())[..i] + vs + old(Elements())[i..]
      ensures err.Some? ==> Elements() == old(Elements()) && buf == old(buf)
      ensures policy.Default? ==> (err.None? <==> 0 <= i <= old(len))
      ensures buf != old(buf) ==> HandedOver(hasFreeFunc, old(freed), freed, old(buf[..]), old(buf)[..], zero, old(back), old(len))
    {
      if !View().RngBound(i, i) {
        return Some(InvalidPosition);
      }
      err := Replace(i, i, vs);
    }

    /** `Append(vs...)`: vs added at the front. */
    method Append(vs: seq<T>) returns (err: Option<Error>)
      requires Valid()
      modifies this, buf
      ensures Valid() && (buf == old(buf) || fresh(buf))
      ensures err.None? ==> Elements() == old(Elements()) + vs
      ensures err.Some? ==> Elements() == old(Elements()) && err != Some(InvalidRange)
      ensures policy.Default? || |vs| <= old(Free()) ==> err.None?
      ensures buf != old(buf) ==> HandedOver(hasFreeFunc, old(freed), freed, old(buf[..]), old(buf)[..], zero, old(back), old(len))
    {
      err := Replace(len, len, vs);
      assert old(Elements())[..old(len)] == old(Elements());
    }

    /** `Delete(i, j)`: the elements in [i, j) removed; it never allocates. */
    method Delete(i: int, j: int) returns (err: Option<Error>)
      requires Valid()
      modifies this, buf
      ensures Valid() && buf == old(buf) && freed == old(freed)
      ensures err.None? <==> 0 <= i <= j <= old(len)
      ensures err.Some? ==> err == Some(InvalidRange) && Elements() == old(Elements())
      ensures err.None? ==> Elements() == old(Elements())[..i] + old(Elements())[j..]
      ensures err.None? ==> VacatedZero(buf[..], zero, old(back), old(len), back, len)
    {
      err := Replace(i, j, []);
    }

    /** `Push(v)`: v added at the front; nothing happens if the allocator refuses. */
    method Push(v: T)
      requires Valid()
      modifies this, buf
      ensures Valid() && (buf == old(buf) || fresh(buf))
      ensures Elements() == old(Elements()) + [v] || Elements() == old(Elements())
      ensures policy.Default? || old(Free()) > 0 ==> Elements() == old(Elements()) + [v]
      ensures buf != old(buf) ==> HandedOver(hasFreeFunc, old(freed), freed, old(buf[..]), old(buf)[..], zero, old(back), old(len))
    {
      var _ := Append([v]);
    }

    /**
     * `Pop`: remove the front element and return it; the zero value on an
     * empty list. Deletes the range [len-1, len), which never allocates.
     */
    method Pop() returns (v: T)
      requires Valid()
      modifies this, buf
      ensures Valid() && buf == old(buf) && freed == old(freed)
      ensures old(len) == 0 ==> v == zero && Elements() == old(Elements())
      ensures old(len) > 0 ==> v == old(Elements())[old(len) - 1]
      ensures old(len) > 0 ==> Elements() == old(Elements())[..old(len) - 1]
      ensures VacatedZero(buf[..], zero, old(back), old(len), back, len)
    {
      var r := Val(len - 1);
      v := r.0;
      if r.1 {
        var _ := Delete(len - 1, len);
      }
    }

    /** `Swap(i, j)`: SwapOK with the outcome dropped. */
    method Swap(i: int, j: int)
      requires Valid()
      modifies buf
      ensures Valid()
      ensures 0 <= i < len && 0 <= j < len ==>
        Elements() == old(Elements())[i := old(Elements())[j]][j := old(Elements())[i]]
      ensures !(0 <= i < len && 0 <= j < len) ==> Elements() == old(Elements())
    {
      var _, _ := SwapOK(i, j);
    }

    /**
     * `Rotate(n)`: element n (taken modulo Len) becomes the back. When the
     * list fills its slice (or is empty) only back moves; otherwise the
     * elements are moved one at a time into the unused slot after the front.
     */
    method Rotate(n: int)
      requires Valid()
      modifies this, buf
      ensures Valid() && buf == old(buf) && len == old(len) && freed == old(freed)
      ensures len == 0 ==> Elements() == old(Elements())
      ensures len > 0 ==> Elements() == Rotated(old(Elements()), Fix(len, n))
    {
      if len == 0 {
        back := View().FixAbs(n);
        return;
      }
      var t := Fix(len, n);
      if len == buf.Length {
        ghost var e := Elements();
        back := View().FixAbs(n);
        WindowRotated(buf[..], old(back), t);
        return;
      }
      RotateSteps(t);
    }

    /** The loop of Rotate on a list with a free slot: t single steps. */
    method RotateSteps(t: int)
      requires Valid() && 0 <= t < len < buf.Length
      modifies this, buf
      ensures Valid() && buf == old(buf) && len == old(len) && freed == old(freed)
      ensures Elements() == Rotated(old(Elements()), t)
    {
      var k := 0;
      while k < t
        invariant Valid() && buf == old(buf) && len == old(len) && freed == old(freed)
        invariant 0 <= k <= t < len < buf.Length
        invariant Elements() == Rotated(old(Elements()), k)
      {
        RotateOne();
        RotatedStep(old(Elements()), k);
        k := k + 1;
      }
    }

    /** One step of Rotate on a list with a free slot: the back element moves to the front. */
    method RotateOne()
      requires Valid() && 0 < len < buf.Length
      modifies this, buf
      ensures Valid() && buf == old(buf) && len == old(len) && freed == old(freed)
      ensures Elements() == Rotated(old(Elements()), 1)
    {
      ghost var e := Elements();
      var b0 := back;
      back := Wrap(buf.Length, b0 + 1);
      MoveBackToFront(buf, zero, b0, len, e);
    }

    /**
     * `StringRange(str, i, n)`: n elements from i (wrapping around the list)
     * rendered by str, separated by ", " and enclosed in brackets; "" and
     * ErrInvalidRange unless the range is valid.
     */
    method StringRange(str: T -> string, i: int, n: int) returns (r: string, err: Option<Error>)
      requires Valid()
      ensures err.None? <==> 0 <= i < len && 0 <= n <= len
      ensures err.Some? ==> r == "" && err == Some(InvalidRange)
      ensures err.None? ==> r == "[" + Joined(RangeStrings(str, Elements(), i, n)) + "]"
    {
      if !View().XBound(i, n) {
        return "", Some(InvalidRange);
      }
      if n == 0 {
        return "[]", None;
      }
      r := RenderRange(str, i, n);
      err := None;
    }

    /** The loop of StringRange: "[", then each element rendered, ", " between them, then "]". */
    method RenderRange(str: T -> string, i: int, n: int) returns (r: string)
      requires Valid() && 0 <= i < len && 0 < n <= len
      ensures r == "[" + Joined(RangeStrings(str, Elements(), i, n)) + "]"
    {
      ghost var parts := RangeStrings(str, Elements(), i, n);
      var b := "[";
      var j := 0;
      while j < n
        invariant 0 <= j <= n
        invariant b == "[" + Joined(parts[..j])
      {
        b := RenderNext(str, i, n, j, b);
        j := j + 1;
      }
      assert parts[..n] == parts;
      r := b + "]";
    }

    /** One turn of StringRange's loop: the separator, then element i + j rendered by str. */
    method RenderNext(str: T -> string, i: int, n: int, j: int, b: string) returns (b': string)
      requires Valid() && 0 <= i < len && 0 < n <= len && 0 <= j < n
      requires b == "[" + Joined(RangeStrings(str, Elements(), i, n)[..j])
      ensures b' == "[" + Joined(RangeStrings(str, Elements(), i, n)[..j + 1])
    {
      ghost var parts := RangeStrings(str, Elements(), i, n);
      var part := RenderAt(str, i + j);
      assert parts[j] == part;
      JoinedStep(parts, j);
      if j > 0 {
        b' := b + ", " + part;
        Regroup("[", Joined(parts[..j]), ", ", part);
      } else {
        b' := b + part;
        assert b == "[" && Joined(parts[..j + 1]) == part;
      }
    }

    /** str(l.At(k)): the element at k, wrapped into the list, rendered by str. */
    method RenderAt(str: T -> string, k: int) returns (part: string)
      requires Valid() && 0 < len
      ensures part == str(Elements()[Fix(len, k)])
    {
      part := str(At(k));
    }

  }

  /** Rotating by k and then by one more is rotating by k + 1. */
  lemma RotatedStep<T>(e: seq<T>, k: int)
    requires 0 <= k < |e|
    ensures Rotated(Rotated(e, k), 1) == Rotated(e, k + 1)
  {
    var r, r1 := Rotated(Rotated(e, k), 1), Rotated(e, k + 1);
    forall m | 0 <= m < |e| ensures r[m] == r1[m] {
      RotatedAt(e, k, if m + 1 < |e| then m + 1 else 0);
      RotatedAt(Rotated(e, k), 1, m);
      RotatedAt(e, k + 1, m);
    }
  }

  /** Element m of the rotation is element t + m, around the list. */
  lemma RotatedAt<T>(e: seq<T>, t: int, m: int)
    requires 0 <= t <= |e| && 0 <= m < |e|
    ensures Rotated(e, t)[m] == e[Wrap(|e|, t + m)]
  {
  }

  /**
   * Rotating a window that fills its slice is moving back: the window from
   * back + t is the old window rotated by t.
   */
  lemma WindowRotated<T>(s: seq<T>, back: int, t: int)
    requires 0 <= back < |s| && 0 <= t < |s|
    ensures Window(s, Wrap(|s|, back + t), |s|) == Rotated(Window(s, back, |s|), t)
  {
    var l := |s|;
    var w, r := Window(s, Wrap(l, back + t), l), Rotated(Window(s, back, l), t);
    forall m | 0 <= m < l ensures w[m] == r[m] {
      WindowAt(s, Wrap(l, back + t), l, m);
      RotatedAt(Window(s, back, l), t, m);
      WindowAt(s, back, l, Wrap(l, t + m));
    }
  }

  /** n and -n normalise to positions that add up to 0 or to the length. */
  lemma FixOfNegation(l: int, n: int)
    requires l > 0
    ensures Fix(l, n) + Fix(l, -n) == 0 || Fix(l, n) + Fix(l, -n) == l
  {
    FixIsEuclideanMod(l, n);
    FixIsEuclideanMod(l, -n);
    ModOfNegation(l, n);
  }

  lemma ModOfNegation(l: int, n: int)
    requires l > 0
    ensures n % l + (-n) % l == 0 || n % l + (-n) % l == l
  {
    var t, q := n % l, n / l;
    var m := q * l;
    assert n == m + t;
    assert (-q) * l == -m by { Distribute(q, -q, l); }
    if t == 0 {
      ModUnique(-n, l, -q, 0);
    } else {
      assert (-q - 1) * l == -m - l by { Distribute(-q, -1, l); }
      ModUnique(-n, l, -q - 1, l - t);
    }
  }

  /** Rotate by n and then by -n gives the list back. */
  lemma RotateUndone<T>(e: seq<T>, n: int)
    requires |e| > 0
    ensures Rotated(Rotated(e, Fix(|e|, n)), Fix(|e|, -n)) == e
  {
    var l := |e|;
    var t, u := Fix(l, n), Fix(l, -n);
    FixOfNegation(l, n);
    var r := Rotated(Rotated(e, t), u);
    forall m | 0 <= m < l ensures r[m] == e[m] {
      RotatedAt(Rotated(e, t), u, m);
      RotatedAt(e, t, Wrap(l, u + m));
    }
  }

  /**
   * One step of the element-by-element rotation: the back element goes to
   * the free slot after the front and its old slot is zeroed; the window
   * then starts one slot later.
   */
  method MoveBackToFront<T>(a: array<T>, zero: T, back: int, len: int, ghost e: seq<T>)
    requires 0 < len < a.Length && 0 <= back < a.Length && e == Window(a[..], back, len)
    modifies a
    ensures Window(a[..], Wrap(a.Length, back + 1), len) == Rotated(e, 1)
  {
    var l := a.Length;
    var p := Wrap(l, back + len);
    a[p] := a[back];
    a[back] := zero;
    var w := Window(a[..], Wrap(l, back + 1), len);
    forall m | 0 <= m < len ensures w[m] == Rotated(e, 1)[m] {
      WindowAt(a[..], Wrap(l, back + 1), len, m);
      RotatedAt(e, 1, m);
      if m + 1 < len {
        WindowAt(old(a[..]), back, len, m + 1);
      } else {
        WindowAt(old(a[..]), back, len, 0);
      }
    }
  }

  /** The strings StringRange joins: str of elements i .. i+n-1, around the list. */
  function RangeStrings<T>(str: T -> string, e: seq<T>, i: int, n: int): (r: seq<string>)
    requires 0 <= n && (n > 0 ==> |e| > 0)
    ensures |r| == n
    ensures forall k :: 0 <= k < n ==> r[k] == str(e[Fix(|e|, i + k)])
  {
    seq(n, k requires 0 <= k < n => str(e[Fix(|e|, i + k)]))
  }

  /** The parts separated by ", ". */
  function Joined(parts: seq<string>): (r: string)
    ensures |parts| == 1 ==> r == parts[0]
    ensures |parts| == 0 ==> r == ""
  {
    if |parts| == 0 then ""
    else if |parts| == 1 then parts[0]
    else Joined(parts[..|parts| - 1]) + ", " + parts[|parts| - 1]
  }

  /** Concatenation regrouped: the rendered prefix, then one more separator and part. */
  lemma Regroup(a: string, b: string, c: string, d: string)
    ensures a + b + c + d == a + (b + c + d)
  {
  }

  lemma JoinedStep(parts: seq<string>, j: int)
    requires 0 <= j < |parts|
    ensures Joined(parts[..j + 1]) == (if j == 0 then "" else Joined(parts[..j]) + ", ") + parts[j]
  {
    assert parts[..j + 1][..j] == parts[..j];
  }

  /** wrapCopy of c elements from slot f of src to slot d of a, both already in range and not wrapping c. */
  method CopyRun<T>(src: seq<T>, a: array<T>, f: int, d: int, c: int)
    requires 0 <= c <= |src| && c <= a.Length && (c > 0 ==> 0 <= f < |src| && 0 <= d < a.Length)
    modifies a
    ensures Written(src, old(a[..]), a[..], f, d, c)
  {
    ghost var before := a[..];
    var copied := WrapCopy(src, a, f, d, c);
    WrittenRebase(src, before, a[..], Fix(|src|, f), Fix(a.Length, d), copied, f, d);
  }

  /** selfWrapCopy of n elements from slot f to slot d = f + m around a, when the move fits. */
  method ShiftRun<T>(a: array<T>, f: int, m: int, n: int, d: int)
    requires 0 <= f < a.Length && 0 <= n && n + AbsInt(m) <= a.Length
    requires -a.Length < f + m < 2 * a.Length && d == Wrap(a.Length, f + m)
    modifies a
    ensures ShiftIsNop(a.Length, n, m) ==> a[..] == old(a[..])
    ensures !ShiftIsNop(a.Length, n, m) ==> Written(old(a[..]), old(a[..]), a[..], f, d, n)
  {
    ghost var before := a[..];
    SelfWrapCopy(a, f, n, m);
    WrapIsFix(a.Length, f + m);
    if !ShiftIsNop(a.Length, n, m) {
      WrittenRebase(before, before, a[..], Fix(a.Length, f), Fix(a.Length, Fix(a.Length, f) + m), n, f, d);
    }
  }

  /** wrapClear of c slots of a from slot f, with 0 < c <= len(a). */
  method ClearRun<T>(a: array<T>, zero: T, f: int, c: int)
    requires 0 <= f < a.Length && 0 < c <= a.Length
    modifies a
    ensures Written(Zeros(c, zero), old(a[..]), a[..], 0, f, c)
  {
    ghost var before := a[..];
    var cleared := WrapClear(a, zero, f, c);
    WrittenRebase(Zeros(cleared, zero), before, a[..], 0, ClearStart(a.Length, f, c), cleared, 0, f);
  }

  /**
   * Replace's first branch: the new slice is too short for the result, so
   * the elements before i, then vs, then the elements from j on are copied
   * into a new slice from slot 0.
   */
  method ReallocReplace<T>(s: seq<T>, back: int, len: int, i: int, j: int, vs: seq<T>, a: array<T>)
    requires View(|s|, len, back).Valid() && 0 <= i <= j <= len && i + |vs| + (len - j) <= a.Length
    modifies a
    ensures View(a.Length, i + |vs| + (len - j), 0).Valid()
    ensures Window(a[..], 0, i + |vs| + (len - j)) == Window(s, back, len)[..i] + vs + Window(s, back, len)[j..]
  {
    var frontEls := len - j;
    ghost var t0 := a[..];
    CopyRun(s, a, back, 0, i);
    ghost var t1 := a[..];
    CopyRun(vs, a, 0, i, |vs|);
    ghost var t2 := a[..];
    var f3 := FrontStart(|s|, back, len, j);
    CopyRun(s, a, f3, i + |vs|, frontEls);
    ReplaceReallocCorrect(s, t0, t1, t2, a[..], vs, back, len, i, j, f3);
  }

  /** fixAbs(-frontEls): the slot of element j, found from the front of the list. */
  method FrontStart(l: int, back: int, len: int, j: int) returns (f: int)
    requires View(l, len, back).Valid() && 0 <= j <= len
    ensures 0 <= f < l || (l == 0 && f == 0)
    ensures j < len ==> f == Wrap(l, back + j)
  {
    f := View(l, len, back).FixAbs(-(len - j));
    if j < len {
      FixAbsOfFront(View(l, len, back), j);
    }
  }

  /**
   * Replace's second branch, taken when fewer elements lie before the range
   * than after it: the i elements before the range move by the balloon
   * (the number of slots freed, negative when slots are needed), the slots
   * left behind are zeroed, and vs is written in. The list then starts at
   * nb, which is back + balloon around the slice.
   */
  method ShiftBackReplace<T>(a: array<T>, zero: T, back: int, len: int, i: int, j: int, vs: seq<T>, ghost e: seq<T>,
                             nb: int)
    requires View(a.Length, len, back).Valid() && 0 <= i <= j <= len && i < len - j
    requires e == Window(a[..], back, len)
    requires i + |vs| + (len - j) <= a.Length
    requires nb == Fix(a.Length, back + ((j - i) - |vs|))
    modifies a
    ensures View(a.Length, i + |vs| + (len - j), nb).Valid()
    ensures Window(a[..], nb, i + |vs| + (len - j)) == e[..i] + vs + e[j..]
    ensures VacatedZero(a[..], zero, back, len, nb, i + |vs| + (len - j))
  {
    var l, b := a.Length, (j - i) - |vs|;
    ghost var s := a[..];
    WrapIsFix(l, back + b);
    ShiftRun(a, back, b, i, nb);
    ghost var s1 := a[..];
    ghost var n1 := if ShiftIsNop(l, i, b) then 0 else i;
    var cleared := 0;
    if 0 < b {
      ClearRun(a, zero, back, b);
      cleared := b;
    }
    ghost var s2 := a[..];
    CopyRun(vs, a, 0, Wrap(l, nb + i), |vs|);
    ReplaceShiftBackDone(s, s1, s2, a[..], Zeros(cleared, zero), vs, zero, back, len, i, j, n1, nb);
  }

  /** Moving slot back+j by minus the balloon lands on slot back+i+|vs|. */
  lemma FrontMoveTarget(l: int, back: int, len: int, i: int, j: int, ls: int)
    requires 0 <= back < l && 0 <= i <= j < len <= l && 0 <= ls && i + ls + (len - j) <= l
    ensures -l < Wrap(l, back + j) - ((j - i) - ls) < 2 * l
    ensures Wrap(l, Wrap(l, back + j) - ((j - i) - ls)) == Wrap(l, back + i + ls)
  {
  }

  /**
   * Replace's third branch, taken otherwise: the elements from j on move by
   * minus the balloon, the slots left behind at the front are zeroed, and
   * vs is written in; back stays where it is.
   */
  method ShiftFrontReplace<T>(a: array<T>, zero: T, back: int, len: int, i: int, j: int, vs: seq<T>, ghost e: seq<T>)
    requires View(a.Length, len, back).Valid() && 0 <= i <= j <= len && len - j <= i
    requires e == Window(a[..], back, len)
    requires i + |vs| + (len - j) <= a.Length && 0 < a.Length
    modifies a
    ensures View(a.Length, i + |vs| + (len - j), back).Valid()
    ensures Window(a[..], back, i + |vs| + (len - j)) == e[..i] + vs + e[j..]
    ensures VacatedZero(a[..], zero, back, len, back, i + |vs| + (len - j))
  {
    var l, b := a.Length, (j - i) - |vs|;
    ghost var s := a[..];
    assert -l < back + len - ((j - i) - |vs|) < 2 * l;
    ghost var n1 := FrontMove(a, back, len, i, j, |vs|, Wrap(l, back + j), Wrap(l, back + i + |vs|));
    ghost var s1 := a[..];
    var cleared := FrontClear(a, zero, Wrap(l, back + len - ((j - i) - |vs|)), (j - i) - |vs|);
    ghost var s2 := a[..];
    CopyRun(vs, a, 0, Wrap(l, back + i), |vs|);
    ShiftFrontStaged(s, s1, s2, a[..], vs, zero, back, len, i, j, n1, cleared);
  }

  /** The steps of ShiftFrontReplace, as their methods state them, meet ShiftFrontStages. */
  lemma ShiftFrontStaged<T>(s: seq<T>, s1: seq<T>, s2: seq<T>, s3: seq<T>, vs: seq<T>, zero: T,
                            back: int, len: int, i: int, j: int, n1: int, cleared: int)
    requires View(|s|, len, back).Valid() && 0 <= i <= j <= len && len - j <= i
    requires i + |vs| + (len - j) <= |s| && 0 < |s|
    requires -|s| < back + len - ((j - i) - |vs|) < 2 * |s|
    requires n1 == 0 || n1 == len - j
    requires n1 == 0 ==> len - j == 0 || (j - i) - |vs| == 0
    requires n1 > 0 ==> Written(s, s, s1, Wrap(|s|, back + j), Wrap(|s|, back + i + |vs|), n1)
    requires n1 == 0 ==> s1 == s
    requires 0 < (j - i) - |vs| ==>
               cleared == (j - i) - |vs|
               && Written(Zeros(cleared, zero), s1, s2, 0, Wrap(|s|, back + len - ((j - i) - |vs|)), (j - i) - |vs|)
    requires (j - i) - |vs| <= 0 ==> cleared == 0 && s2 == s1
    requires Written(vs, s2, s3, 0, Wrap(|s|, back + i), |vs|)
    ensures View(|s3|, i + |vs| + (len - j), back).Valid()
    ensures Window(s3, back, i + |vs| + (len - j)) == Window(s, back, len)[..i] + vs + Window(s, back, len)[j..]
    ensures VacatedZero(s3, zero, back, len, back, i + |vs| + (len - j))
  {
    ReplaceShiftFrontDone(s, s1, s2, s3, Zeros(cleared, zero), vs, zero, back, len, i, j, n1);
  }

  /** The first step of ShiftFrontReplace: the len - j elements from j on move to i + ls. */
  method FrontMove<T>(a: array<T>, back: int, len: int, i: int, j: int, ls: int, from: int, to: int) returns (ghost n1: int)
    requires View(a.Length, len, back).Valid() && 0 <= i <= j <= len && len - j <= i
    requires 0 <= ls && i + ls + (len - j) <= a.Length
    requires 0 < a.Length && from == Wrap(a.Length, back + j) && to == Wrap(a.Length, back + i + ls)
    modifies a
    ensures n1 == 0 || n1 == len - j
    ensures n1 == 0 ==> len - j == 0 || (j - i) - ls == 0
    ensures n1 > 0 ==> Written(old(a[..]), old(a[..]), a[..], from, to, n1)
    ensures n1 == 0 ==> a[..] == old(a[..])
  {
    n1 := 0;
    var l, b, frontEls := a.Length, (j - i) - ls, len - j;
    if 0 < frontEls {
      FrontMoveTarget(l, back, len, i, j, ls);
      ShiftRun(a, from, -b, frontEls, to);
      ShiftIsNopExactly(l, frontEls, -b);
      n1 := if b == 0 then 0 else frontEls;
    }
  }

  /** The second step of ShiftFrontReplace: the b slots the list gave up at its front are zeroed. */
  method FrontClear<T>(a: array<T>, zero: T, f: int, b: int) returns (cleared: int)
    requires 0 <= f < a.Length && b <= a.Length
    modifies a
    ensures 0 < b ==> cleared == b && Written(Zeros(cleared, zero), old(a[..]), a[..], 0, f, b)
    ensures b <= 0 ==> cleared == 0 && a[..] == old(a[..])
  {
    cleared := 0;
    if 0 < b {
      ClearRun(a, zero, f, b);
      cleared := b;
    }
  }

  /** The copy grow makes: the whole window into a new slice, from slot 0. */
  method MoveWindow<T>(s: seq<T>, back: int, len: int, a: array<T>)
    requires View(|s|, len, back).Valid() && len <= a.Length
    modifies a
    ensures View(a.Length, len, 0).Valid()
    ensures Window(a[..], 0, len) == Window(s, back, len)
  {
    ghost var a0 := a[..];
    var copied := WrapCopy(s, a, back, 0, len);
    WrittenRebase(s, a0, a[..], Fix(|s|, back), Fix(a.Length, 0), copied, back, 0);
    WindowCopiedOut(s, a0, a[..], back, len);
  }

  /**
   * The copying half of CopyTo: m elements of the window from position i,
   * wrapping around the list, into dst from slot 0.
   */
  method CopyWindowTo<T>(s: seq<T>, back: int, len: int, dst: array<T>, i: int, m: int)
    requires View(|s|, len, back).Valid() && 0 <= i < len && 0 < m <= len && m <= dst.Length
    modifies dst
    ensures forall k :: 0 <= k < m ==> dst[k] == Window(s, back, len)[Fix(len, i + k)]
    ensures forall k :: m <= k < dst.Length ==> dst[k] == old(dst[k])
  {
    var c1 := Min(m, len - i);
    ghost var d0 := dst[..];
    var first := WrapCopy(s, dst, View(|s|, len, back).Abs(i), 0, c1);
    WrittenRebase(s, d0, dst[..], Fix(|s|, View(|s|, len, back).Abs(i)), Fix(dst.Length, 0), first, Wrap(|s|, back + i), 0);
    ghost var d1 := dst[..];
    if c1 < m {
      var second := WrapCopy(s, dst, back, c1, m - c1);
      WrittenRebase(s, d1, dst[..], Fix(|s|, back), Fix(dst.Length, c1), second, back, c1);
    }
    CopyToSlots(s, back, len, i, m, d0, d1, dst[..]);
    assert forall k :: m <= k < dst.Length ==> dst[k] == d0[k];
  }

  /** `NewN(s, back, length)`: a list over the window, or the first check that failed. */
  method NewN<T>(s: array<T>, back: int, length: int, zero: T, policy: AllocPolicy, hasFreeFunc: bool)
    returns (l: List?<T>, err: Option<Error>)
    ensures err == NewNError(s.Length, back, length)
    ensures err.Some? ==> l == null
    ensures err.None? ==> l != null && fresh(l) && l.Valid() && l.buf == s && l.back == back && l.len == length
  {
    err := NewNError(s.Length, back, length);
    if err.Some? {
      return null, err;
    }
    l := new List.FromWindow(s, back, length, zero, policy, hasFreeFunc);
  }

  /** The position check of SwapOK as the doc-comment describes it. */
  predicate SwapGuardRejects(v: View, i: int, j: int)
  {
    !v.ElBound(i) || !v.ElBound(j)
  }

  /** The position check of SwapOK as the code writes it: either position being valid rejects. */
  predicate SwapGuardRejectsAsWritten(v: View, i: int, j: int)
  {
    v.ElBound(i) || v.ElBound(j)
  }

  /**
   * The written check rejects every swap of two valid positions and lets
   * through every pair of positions that are both out of range, which the
   * described check rejects.
   */
  lemma SwapGuardAsWrittenIsInverted(v: View, i: int, j: int)
    ensures 0 <= i < v.len && 0 <= j < v.len ==>
              SwapGuardRejectsAsWritten(v, i, j) && !SwapGuardRejects(v, i, j)
    ensures !(0 <= i < v.len) && !(0 <= j < v.len) ==>
              !SwapGuardRejectsAsWritten(v, i, j) && SwapGuardRejects(v, i, j)
  {
  }

  /** What `grow(min, max)` does after its free-space check, as written. */
  datatype GrowStep = NoChange | Migrate(allocMin: int, allocMax: int)

  /**
   * `grow` as written: it only allocates when slen < len + (max-min)/2, and
   * asks alloc for min..max elements in all, not min..max free slots.
   */
  function GrowAsWritten(v: View, min: int, max: int): GrowStep
  {
    var free := v.slen - v.len;
    if min <= free && (max < 0 || free <= max) then NoChange
    else if v.slen < v.len + GoDiv(max - min, 2) then Migrate(min, max)
    else NoChange
  }

  /** Grow(n) as written never allocates, even when Free() < n. */
  lemma GrowAsWrittenNeverGrows(v: View, n: int)
    requires v.Valid() && 0 <= n
    ensures GrowAsWritten(v, n, -1) == NoChange
  {
  }

  /**
   * GrowRange as written never shrinks, and when it does allocate the new
   * slice can be shorter than the list: a full list of 10 asking for 1..5
   * free slots gets a slice of 2 from the default allocator.
   */
  lemma GrowAsWrittenLosesElements(v: View, min: int, max: int)
    requires v.Valid() && 0 <= min <= max && v.slen - v.len > max
    ensures GrowAsWritten(v, min, max) == NoChange
    ensures GrowAsWritten(View(10, 10, 0), 1, 5) == Migrate(1, 5)
    ensures AllocResult(Default, 1, 5) == Sized(2)
  {
  }

  /**
   * The positions `CopyTo` copies from as written: one wrapCopy from the
   * slice position of i, wrapping around the slice. wrapCopy is taken as
   * its doc-comment describes it, so that only the choice of positions
   * differs from the intended CopyTo; CopyToAsWritten is the code in full.
   */
  function CopyToPositionAsWritten<T>(s: seq<T>, back: int, len: int, i: int, n: int, dst: seq<T>): seq<T>
    requires View(|s|, len, back).Valid()
  {
    if !View(|s|, len, back).XBound(i, n) || n == 0 then dst
    else CopiedInto(s, dst, View(|s|, len, back).Abs(i), 0, n)
  }

  /**
   * When the list does not fill its slice, the written CopyTo wraps through
   * the unused slots: the list [1, 2] in the slice [1, 2, 9] copied from
   * element 1 gives [2, 9], where the list continues with 1.
   */
  lemma CopyToPositionReadsUnusedSlots()
    ensures CopyToPositionAsWritten([1, 2, 9], 0, 2, 1, 2, [0, 0]) == [2, 9]
    ensures Window([1, 2, 9], 0, 2) == [1, 2]
  {
    assert CopiedInto([1, 2, 9], [0, 0], 1, 0, 2)[0] == 2;
    assert CopiedInto([1, 2, 9], [0, 0], 1, 0, 2)[1] == 9;
  }

  /**
   * The positions the in-place branches of `Replace` use as written, with
   * wrapCopy, selfWrapCopy, wrapClear and fixAbs taken as their
   * doc-comments describe them, so that only the choice of positions
   * differs from the intended Replace (ReplaceInPlaceAsWritten is the code
   * in full): the back branch sets back to
   * fixAbs(balloon), a list position rather than back + balloon; the front
   * branch starts its move at slice position i+n, a list position, and
   * moves by +balloon instead of -balloon. The result is the slice and back.
   */
  function ReplaceInPlacePositionsAsWritten<T>(s: seq<T>, zero: T, back: int, len: int, i: int, j: int, vs: seq<T>): (r: (seq<T>, int))
    requires View(|s|, len, back).Valid() && 0 <= i <= j <= len && i + |vs| + (len - j) <= |s|
    ensures |r.0| == |s|
  {
    var v := View(|s|, len, back);
    var b := (j - i) - |vs|;
    if i < len - j then
      var s1 := Shifted(s, back, i, b);
      var nb := v.FixAbs(b);
      var s2 := if 0 < b then Cleared(s1, zero, back, b) else s1;
      (CopiedInto(vs, s2, 0, View(|s|, len, nb).Abs(i), |vs|), nb)
    else
      var s1 := Shifted(s, i + (j - i), len - j, b);
      var s2 := if 0 < b then Cleared(s1, zero, v.FixAbs(len - b), b) else s1;
      (CopiedInto(vs, s2, 0, v.Abs(i), |vs|), back)
  }

  /**
   * Deleting element 2 of [1, 2, 3, 4] (a full slice, back 0) takes the
   * front branch; with the written positions alone it gives [4, 2, 3]
   * instead of [1, 2, 4].
   */
  lemma ReplaceFrontPositionsMisplace()
    ensures ReplaceInPlacePositionsAsWritten([1, 2, 3, 4], 0, 0, 4, 2, 3, []).1 == 0
    ensures Window(ReplaceInPlacePositionsAsWritten([1, 2, 3, 4], 0, 0, 4, 2, 3, []).0, 0, 3) == [4, 2, 3]
    ensures ReplaceEdit([1, 2, 3, 4], 2, 3, []) == Some([1, 2, 4])
  {
    var f1 := Shifted([1, 2, 3, 4], 3, 1, 1);
    assert f1[0] == 4 && f1[1] == 2 && f1[2] == 3;
    var f2 := Cleared(f1, 0, 3, 1);
    assert f2[0] == 4 && f2[1] == 2 && f2[2] == 3;
    assert CopiedInto([], f2, 0, 2, 0) == f2;
    assert [1, 2, 3, 4][..2] + [] + [1, 2, 3, 4][3..] == [1, 2, 4];
  }

  /**
   * Inserting 9 at position 1 of [1, 2, 3, 4] held in a slice of 5 takes
   * the back branch; with the written positions alone it gives
   * [4, 9, 1, 2, 3] instead of [1, 9, 2, 3, 4].
   */
  lemma ReplaceBackPositionsMisplace()
    ensures ReplaceInPlacePositionsAsWritten([1, 2, 3, 4, 0], 0, 0, 4, 1, 1, [9]).1 == 3
    ensures Window(ReplaceInPlacePositionsAsWritten([1, 2, 3, 4, 0], 0, 0, 4, 1, 1, [9]).0, 3, 5) == [4, 9, 1, 2, 3]
    ensures ReplaceEdit([1, 2, 3, 4], 1, 1, [9]) == Some([1, 9, 2, 3, 4])
  {
    var b1 := Shifted([1, 2, 3, 4, 0], 0, 1, -1);
    assert b1[0] == 1 && b1[1] == 2 && b1[2] == 3 && b1[3] == 4 && b1[4] == 1;
    assert View(4, 4, 0).FixAbs(-1) == 3;
    var b3 := CopiedInto([9], b1, 0, 4, 1);
    assert b3[0] == 1 && b3[1] == 2 && b3[2] == 3 && b3[3] == 4 && b3[4] == 9;
    assert [1, 2, 3, 4][..1] + [9] + [1, 2, 3, 4][1..] == [1, 9, 2, 3, 4];
  }

  /**
   * `CopyTo` in full as written: the list's slice and dst after
   * `wrapCopy(l.s, s, l.abs(i), 0, n)`, with the written wrapCopy, which
   * copies from dst into the list's slice.
   */
  function CopyToAsWritten<T>(s: seq<T>, back: int, len: int, i: int, n: int, dst: seq<T>): (r: (seq<T>, seq<T>))
    requires View(|s|, len, back).Valid()
    ensures r.1 == dst
  {
    if !View(|s|, len, back).XBound(i, n) || n == 0 then (s, dst)
    else WrapCopyAsWritten(s, dst, View(|s|, len, back).Abs(i), 0, n)
  }

  /** CopyTo of [1, 2] into [0, 0] as written leaves dst as it was and overwrites the list with it. */
  lemma CopyToAsWrittenOverwritesList()
    ensures CopyToAsWritten([1, 2], 0, 2, 0, 2, [0, 0]) == ([0, 0], [0, 0])
  {
    assert CopiedInto([0, 0], [1, 2], 0, 0, 2)[0] == 0;
    assert CopiedInto([0, 0], [1, 2], 0, 0, 2)[1] == 0;
    assert CopiedInto([0, 0], [1, 2], 0, 0, 2) == [0, 0];
    assert View(2, 2, 0).XBound(0, 2) && View(2, 2, 0).Abs(0) == 0;
  }

  /**
   * The in-place branches of `Replace` in full as written: the written
   * positions, selfWrapCopy, wrapClear and fixAbs as written, and the final
   * `wrapCopy(s, l.s, 0, l.abs(i), ls)`, which as written fills s from the
   * list's slice and leaves the slice alone. The result is the slice (or a
   * panic) and the new back.
   */
  function ReplaceInPlaceAsWritten<T>(s: seq<T>, zero: T, back: int, len: int, i: int, j: int, vs: seq<T>)
    : (r: (Outcome<T>, int))
    requires View(|s|, len, back).Valid() && 0 <= i <= j <= len && i + |vs| + (len - j) <= |s|
    ensures r.1 == back || r.1 == View(|s|, len, back).FixAbsAsWritten((j - i) - |vs|)
  {
    var v := View(|s|, len, back);
    var b := (j - i) - |vs|;
    var frontEls := len - j;
    var moved := if i < frontEls then SelfWrapCopyAsWritten(s, back, i, b)
                 else SelfWrapCopyAsWritten(s, i + (j - i), frontEls, b);
    var nb := if i < frontEls then v.FixAbsAsWritten(b) else back;
    var start := if i < frontEls then back else v.FixAbsAsWritten(len - b);
    match moved
    case SlicePanic => (SlicePanic, nb)
    case Done(s1) =>
      var cleared := if b <= 0 then Done(s1)
                     else if |s1| <= b then Done(seq(|s1|, _ => zero))
                     else WrapClearAsWritten(s1, zero, start, b);
      match cleared
      case SlicePanic => (SlicePanic, nb)
      case Done(s2) => (Done(WrapCopyAsWritten(vs, s2, 0, View(|s|, len, nb).Abs(i), |vs|).1), nb)
  }

  /**
   * Deleting element 2 of [1, 2, 3, 4] (a full slice, back 0) as written
   * leaves [1, 2, 3] where [1, 2, 4] is intended.
   */
  lemma ReplaceDeleteAsWrittenKeepsElement()
    ensures ReplaceInPlaceAsWritten([1, 2, 3, 4], 0, 0, 4, 2, 3, []) == (Done([1, 2, 3, 0]), 0)
    ensures Window([1, 2, 3, 0], 0, 3) == [1, 2, 3]
  {
    var s := [1, 2, 3, 4];
    var s1 := ChunkWritten(s, s, 0, 3, 1);
    assert s1 == [1, 2, 3, 1];
    assert SelfWrapCopyAsWritten(s, 3, 1, 1) == Done(s1) by {
      assert SelfCopyLoopAsWritten(s, 3, 0, 1) == SelfCopyLoopAsWritten(s1, 0, 1, 0);
    }
    var s2 := ZeroRange(s1, 0, 3, 4);
    assert s2 == [1, 2, 3, 0];
    assert WrapClearAsWritten(s1, 0, 3, 1) == Done(s2) by {
      assert WrapClearLoopAsWritten(s1, 0, 3, 0, 1) == WrapClearLoopAsWritten(s2, 0, 3, 1, 1);
      assert ZeroRange(s2, 0, 0, 0) == s2;
    }
  }

  /**
   * Inserting 9 at position 1 of [1, 2, 3, 4] held in a slice of 5 as
   * written leaves [4, 1, 1, 2, 3]: 9 is never written.
   */
  lemma ReplaceInsertAsWrittenDropsValue()
    ensures ReplaceInPlaceAsWritten([1, 2, 3, 4, 0], 0, 0, 4, 1, 1, [9]) == (Done([1, 2, 3, 4, 1]), 3)
    ensures Window([1, 2, 3, 4, 1], 3, 5) == [4, 1, 1, 2, 3]
  {
    var s := [1, 2, 3, 4, 0];
    var s1 := ChunkWritten(s, s, 0, 4, 1);
    assert s1 == [1, 2, 3, 4, 1];
    assert SelfWrapCopyAsWritten(s, 0, 1, -1) == Done(s1) by {
      assert SelfWrapCopyRightAsWritten(s, 1, 5, 1, 0) == SelfWrapCopyRightAsWritten(s1, 1, 5, 0, 1);
    }
  }

  /** `Pop` as written: it deletes the range [len-1, 1), which is the front element only when len == 1. */
  function PopAsWritten<T>(e: seq<T>, zero: T): (T, seq<T>)
  {
    if |e| == 0 then (zero, e)
    else
      (e[|e| - 1], match ReplaceEdit(e, |e| - 1, 1, []) case Some(r) => r case None => e)
  }

  /** Popping [1, 2] or [1, 2, 3] as written returns the front element but keeps it. */
  lemma PopAsWrittenKeepsFront()
    ensures PopAsWritten([1, 2], 0) == (2, [1, 2])
    ensures PopAsWritten([1, 2, 3], 0) == (3, [1, 2, 3])
  {
    assert [1, 2][..1] + [] + [1, 2][1..] == [1, 2];
  }

  /** On a one-element list the written Pop does remove the element. */
  lemma PopAsWrittenAgreesOnSingleton<T>(x: T, zero: T)
    ensures PopAsWritten([x], zero) == (x, [])
  {
  }

  /**
   * `Rotate` as written moves back to the written fixAbs(n), which is
   * fix(len, n) with back never added. When the list does not fill its slice
   * the window then takes in unused slots: [1, 2, 3] in the slice
   * [1, 2, 3, 0] rotated by 1 gives [2, 3, 0]; and once back != 0 the window
   * starts in the wrong place even on a full list.
   */
  function RotateAsWritten<T>(s: seq<T>, back: int, len: int, n: int): (r: seq<T>)
    requires View(|s|, len, back).Valid()
    ensures |r| == len
  {
    var nb := View(|s|, len, back).FixAbsAsWritten(n);
    FixAbsAsWrittenIsSlot(View(|s|, len, back), n);
    Window(s, nb, len)
  }

  /** The written fixAbs answers fix(len, i), a slot of the slice. */
  lemma FixAbsAsWrittenIsSlot(v: View, n: int)
    requires v.Valid()
    ensures View(v.slen, v.len, v.FixAbsAsWritten(n)).Valid()
    ensures v.len > 0 ==> v.FixAbsAsWritten(n) == Fix(v.len, n)
  {
  }

  lemma RotateAsWrittenReadsUnusedSlots()
    ensures RotateAsWritten([1, 2, 3, 0], 0, 3, 1) == [2, 3, 0]
    ensures Rotated([1, 2, 3], Fix(3, 1)) == [2, 3, 1]
  {
  }

  /** [1, 2, 3] stored from slot 1 of [3, 1, 2]: Rotate(0) as written gives [3, 1, 2]. */
  lemma RotateAsWrittenIgnoresBack()
    ensures Window([3, 1, 2], 1, 3) == [1, 2, 3]
    ensures RotateAsWritten([3, 1, 2], 1, 3, 0) == [3, 1, 2]
    ensures Rotated([1, 2, 3], Fix(3, 0)) == [1, 2, 3]
  {
  }

  /** On a full list that starts at slot 0 the written Rotate is the rotation. */
  lemma RotateAsWrittenAgreesWhenFull<T>(s: seq<T>, back: int, n: int)
    requires 0 < |s| && back == 0
    ensures RotateAsWritten(s, back, |s|, n) == Rotated(Window(s, back, |s|), Fix(|s|, n))
  {
    FixAbsAsWrittenAgreesAtZeroBack(View(|s|, |s|, back), n);
    FixAbsInRange(View(|s|, |s|, back), n);
    WindowRotated(s, back, Fix(|s|, n));
  }
}
