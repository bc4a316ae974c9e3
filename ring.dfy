/**
 * Index arithmetic of the ring-buffer list: normalisation of signed
 * positions (`fix`), the window over the backing slice (`view`) and the
 * sizing helpers used when a new backing slice is allocated.
 *
 * Go's `int` is modelled as an unbounded `int`; Go's `/` and `%` truncate
 * toward zero and are written out as GoDiv and GoRem.
 */
module Ring {

  // ---------------------------------------------------------------------
  // Go's integer division and remainder (truncated toward zero)
  // ---------------------------------------------------------------------

  /** Go's `a % b` for b > 0: the sign follows the dividend. */
  function GoRem(a: int, b: int): (r: int)
    requires b > 0
    ensures a >= 0 ==> 0 <= r < b
    ensures a < 0 ==> -b < r <= 0
  {
    if a >= 0 then a % b else -((-a) % b)
  }

  /** Go's `a / b` for b > 0: the quotient is truncated toward zero. */
  function GoDiv(a: int, b: int): (r: int)
    requires b > 0
    ensures a >= 0 ==> r * b <= a < r * b + b
    ensures a < 0 ==> r * b - b < a <= r * b
  {
    if a >= 0 then a / b else -((-a) / b)
  }

  /** Euclidean remainder is determined by any quotient/remainder pair. */
  lemma ModUnique(x: int, l: int, q: int, r: int)
    requires l > 0 && 0 <= r < l && x == q * l + r
    ensures x % l == r
  {
    var q', r' := x / l, x % l;
    assert x == q' * l + r';
    if q > q' {
      assert (q - q') * l >= l by { MulAtLeast(q - q', l); }
      assert false;
    } else if q < q' {
      assert (q' - q) * l >= l by { MulAtLeast(q' - q, l); }
      assert false;
    }
  }

  lemma Distribute(a: int, b: int, c: int)
    ensures (a + b) * c == a * c + b * c
  {
  }

  lemma MulAtLeast(a: int, l: int)
    requires a >= 1 && l > 0
    ensures a * l >= l
  {
  }

  // ---------------------------------------------------------------------
  // fix: normalise a signed position modulo a length
  // ---------------------------------------------------------------------

  /**
   * `fix(length, i)`: 0 when length is 0, otherwise i reduced into
   * [0, length), with fast paths for i in (-length, 2*length) and Go's
   * `((i % length) + length) % length` as the fallback.
   */
  function Fix(length: int, i: int): (r: int)
    requires length >= 0
    ensures length == 0 ==> r == 0
    ensures length > 0 ==> 0 <= r < length
    ensures 0 <= i < length ==> r == i
  {
    if length == 0 then 0
    else if 0 <= i && i < length then i
    else if 0 <= i && i < 2 * length then i - length
    else if i < 0 && -length < i then i + length
    else GoRem(GoRem(i, length) + length, length)
  }

  /** The fast paths and the fallback of Fix all compute the Euclidean remainder. */
  lemma FixIsEuclideanMod(length: int, i: int)
    requires length > 0
    ensures Fix(length, i) == i % length
  {
    if 0 <= i < length {
      ModUnique(i, length, 0, i);
    } else if 0 <= i < 2 * length {
      ModUnique(i, length, 1, i - length);
    } else if i < 0 && -length < i {
      ModUnique(i, length, -1, i + length);
    } else if i >= 0 {
      var r := i % length;
      assert GoRem(i, length) == r;
      ModUnique(r + length, length, 1, r);
    } else {
      var r := (-i) % length;
      var q := (-i) / length;
      assert -i == q * length + r;
      if r == 0 {
        ModUnique(length, length, 1, 0);
        ModUnique(i, length, -q, 0);
      } else {
        ModUnique(length - r, length, 0, length - r);
        ModUnique(i, length, -q - 1, length - r);
      }
    }
  }

  /** Euclidean remainder ignores multiples of the divisor. */
  lemma ModShift(l: int, i: int, q: int)
    requires l > 0
    ensures (i + q * l) % l == i % l
  {
    var r, d := i % l, i / l;
    assert i == d * l + r;
    assert (d + q) * l == d * l + q * l by { Distribute(d, q, l); }
    ModUnique(i + q * l, l, d + q, r);
  }

  /** Two positions that differ by a multiple of the length normalise alike. */
  lemma FixShift(length: int, i: int, q: int)
    requires length > 0
    ensures Fix(length, i + q * length) == Fix(length, i)
  {
    FixIsEuclideanMod(length, i);
    FixIsEuclideanMod(length, i + q * length);
    ModShift(length, i, q);
  }

  /** Normalising twice is normalising once; adding after normalising is harmless. */
  lemma FixAdd(length: int, i: int, k: int)
    requires length > 0
    ensures Fix(length, Fix(length, i) + k) == Fix(length, i + k)
  {
    FixIsEuclideanMod(length, i);
    var q := i / length;
    assert i == q * length + Fix(length, i);
    FixShift(length, Fix(length, i) + k, q);
  }

  // ---------------------------------------------------------------------
  // Linear helpers for positions that are already nearly in range
  // ---------------------------------------------------------------------

  /** Position x of a ring of size l, for x in (-l, 2l); agrees with Fix there. */
  function Wrap(l: int, x: int): (r: int)
    requires l > 0 && -l < x < 2 * l
    ensures 0 <= r < l
    ensures x < 0 ==> r == x + l
    ensures 0 <= x < l ==> r == x
    ensures l <= x ==> r == x - l
  {
    if x < 0 then x + l else if x >= l then x - l else x
  }

  /** On its domain Wrap is Fix. */
  lemma WrapIsFix(l: int, x: int)
    requires l > 0 && -l < x < 2 * l
    ensures Wrap(l, x) == Fix(l, x)
  {
  }

  /** Distance, walking forward around a ring of size l, from base to p. */
  function Offset(l: int, base: int, p: int): (r: int)
    requires l > 0 && 0 <= base < l && 0 <= p < l
    ensures 0 <= r < l
  {
    if p >= base then p - base else p + l - base
  }

  lemma OffsetOfWrap(l: int, base: int, k: int)
    requires l > 0 && 0 <= base < l && 0 <= k < l
    ensures Offset(l, base, Wrap(l, base + k)) == k
  {
  }

  // ---------------------------------------------------------------------
  // view: the window (back, len) over a slice of length slen
  // ---------------------------------------------------------------------

  datatype View = View(slen: int, len: int, back: int)
  {
    /** The invariant every List keeps on its view. */
    predicate Valid() {
      0 <= len <= slen && (if slen == 0 then back == 0 else 0 <= back < slen)
    }

    /** `elBound`: i is a valid element position. */
    predicate ElBound(i: int) {
      i < len && 0 <= i
    }

    /** `rngBound`: i:j is a valid, non-wrapping range. */
    predicate RngBound(i: int, j: int) {
      j <= len && i <= j && 0 <= i
    }

    /** `xBound`: i, n describe a valid extraction. */
    predicate XBound(i: int, n: int) {
      ElBound(i) && n <= len && 0 <= n
    }

    /** `abs`: the slice position of list position i (assumed in bounds). */
    function Abs(i: int): int {
      if i + back >= slen then i + back - slen else i + back
    }

    /** `fixAbs` as the source writes it: back is never added, and `>` is used. */
    function FixAbsAsWritten(i: int): int
      requires len >= 0
    {
      if len == 0 then 0
      else
        var f := Fix(len, i);
        if f > slen then f - slen else f
    }

    /** `fixAbs` as its own comment defines it: abs(fix(len, i)). */
    function FixAbs(i: int): int
      requires len >= 0
    {
      if len == 0 then 0 else Abs(Fix(len, i))
    }

    /** `wraps`: the window crosses the end of the slice. */
    predicate Wraps() {
      slen - back < len
    }
  }

  /** The bounds predicates are exactly the ranges they name. */
  lemma BoundsExact(v: View, i: int, j: int, n: int)
    ensures v.ElBound(i) <==> 0 <= i < v.len
    ensures v.RngBound(i, j) <==> 0 <= i <= j <= v.len
    ensures v.XBound(i, n) <==> 0 <= i < v.len && 0 <= n <= v.len
  {
  }

  /** abs maps the live positions into the slice, one slot each. */
  lemma AbsInjective(v: View, i: int, j: int)
    requires v.Valid() && 0 <= i < v.len && 0 <= j < v.len
    ensures 0 <= v.Abs(i) < v.slen
    ensures v.Abs(i) == Wrap(v.slen, v.back + i)
    ensures v.Abs(i) == v.Abs(j) ==> i == j
  {
  }

  /** The intended fixAbs is abs of the normalised position, inside the slice. */
  lemma FixAbsInRange(v: View, i: int)
    requires v.Valid() && v.len > 0
    ensures 0 <= Fix(v.len, i) < v.len
    ensures 0 <= v.FixAbs(i) < v.slen
    ensures v.FixAbs(i) == Fix(v.slen, v.back + i % v.len)
  {
    FixIsEuclideanMod(v.len, i);
  }

  /** The written fixAbs ignores back: it answers a different slot once back != 0. */
  lemma FixAbsAsWrittenIsWrong()
    ensures View(4, 2, 1).FixAbsAsWritten(0) == 0
    ensures View(4, 2, 1).FixAbs(0) == 1
  {
  }

  /** With back == 0 the written fixAbs and the intended one agree. */
  lemma FixAbsAsWrittenAgreesAtZeroBack(v: View, i: int)
    requires v.Valid() && v.back == 0
    ensures v.FixAbsAsWritten(i) == v.FixAbs(i)
  {
  }

  /** wraps holds exactly when the last live element lies before back. */
  lemma WrapsIffLastBeforeBack(v: View)
    requires v.Valid() && v.len > 0
    ensures v.Wraps() <==> v.Abs(v.len - 1) < v.back
  {
  }

  // ---------------------------------------------------------------------
  // Allocation sizing
  // ---------------------------------------------------------------------

  /** `FixAllocSize`: clamp the intended capacity to max when max is bounded. */
  function FixAllocSize(intended: int, maxCap: int): (r: int)
    ensures r == intended || r == maxCap
    ensures r <= intended
    ensures 0 <= maxCap ==> r <= maxCap
    ensures maxCap < 0 ==> r == intended
  {
    if 0 <= maxCap && maxCap < intended then maxCap else intended
  }

  /** The length of the slice `AllocDefault(min, max)` makes. */
  function AllocDefaultSize(min: int, max: int): int
  {
    FixAllocSize(GoDiv(min * 3, 2) + 1, max)
  }

  /** The default policy always honours the allocation contract it is held to. */
  lemma AllocDefaultMeetsContract(min: int, max: int)
    requires 0 <= min && (max < 0 || min <= max)
    ensures min <= AllocDefaultSize(min, max)
    ensures max < 0 ==> AllocDefaultSize(min, max) == min * 3 / 2 + 1
    ensures 0 <= max ==> AllocDefaultSize(min, max) <= max
    ensures FixAllocSize(AllocDefaultSize(min, max), max) == AllocDefaultSize(min, max)
  {
  }

  /** A slice length the allocation check in `alloc` accepts. */
  predicate AllocSizeOk(size: int, min: int, max: int) {
    !(size < min || FixAllocSize(size, max) != size)
  }

  /** alloc accepts a length exactly when it lies in [min, max] (max < 0: unbounded). */
  lemma AllocSizeOkExact(size: int, min: int, max: int)
    ensures AllocSizeOk(size, min, max) <==> min <= size && (max < 0 || size <= max)
  {
  }
}
