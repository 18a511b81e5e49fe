/** Conversion of wide strings to integers (locale/_wcstol.h, locale/_wcstoul.h). */
module Wcstol {
  import opened Options
  import opened WcsNumber

  datatype Errno = EINVAL | ERANGE

  /** The value returned, the position stored through endptr if one is stored, and errno if it is set. */
  datatype Result = Result(value: int, end: Option<nat>, errno: Option<Errno>)

  predicate GoodBase(base: int) {
    base == 0 || 2 <= base <= 36
  }

  /** The signed number in the parts, held to the range of the type. */
  function Signed(t: seq<int>, r: Parts, lo: int, hi: int): Result
    requires r.first <= r.end <= |t|
  {
    var v := if r.neg then -Value(t, r.first, r.end, r.base) else Value(t, r.first, r.end, r.base);
    if r.end == r.first then Result(0, Some(0), None)
    else if v < lo then Result(lo, Some(r.end), Some(ERANGE))
    else if v > hi then Result(hi, Some(r.end), Some(ERANGE))
    else Result(v, Some(r.end), None)
  }

  /** The unsigned number in the parts: a negative one is taken modulo the range of the type. */
  function Unsigned(t: seq<int>, r: Parts, max: int): Result
    requires r.first <= r.end <= |t|
  {
    var v := Value(t, r.first, r.end, r.base);
    if r.end == r.first then Result(0, Some(0), None)
    else if v > max then Result(max, Some(r.end), Some(ERANGE))
    else Result(if r.neg && v != 0 then max + 1 - v else v, Some(r.end), None)
  }

  /** Division and remainder of C, which go toward zero. */
  function CDiv(a: int, b: int): int
    requires b > 0
  {
    if a >= 0 then a / b else -(-a / b)
  }

  function CMod(a: int, b: int): int
    requires b > 0
  {
    a - CDiv(a, b) * b
  }

  /** The comparison with the cutoff foretells whether one more digit takes the number out of the range. */
  lemma {:induction false} CutOff(limit: nat, base: nat, a: nat, i: nat)
    requires 2 <= base && i < base
    ensures a > limit / base || (a == limit / base && i > limit % base) <==> a * base + i > limit
  {
    var q, r := limit / base, limit % base;
    assert limit == q * base + r;
    if a > q {
      assert a * base >= (q + 1) * base == q * base + base;
    } else if a < q {
      assert a * base + base == (a + 1) * base <= q * base;
    }
  }

  /** More digits do not make the number smaller. */
  lemma {:induction false} ValueGrows(t: seq<int>, p: nat, k: nat, q: nat, base: nat)
    requires p <= k <= q <= |t| && base >= 1 && forall j :: p <= j < q ==> IsDigit(t, j, base)
    ensures 0 <= Value(t, p, k, base) <= Value(t, p, q, base)
    decreases q
  {
    if k < q {
      ValueGrows(t, p, k, q - 1, base);
      var v := Value(t, p, q - 1, base);
      assert v * base >= v;
      assert IsDigit(t, q - 1, base);
    } else if p < q {
      ValueGrows(t, p, q - 1, q - 1, base);
      var v := Value(t, p, q - 1, base);
      assert v * base >= 0;
      assert IsDigit(t, q - 1, base);
    }
  }

  lemma {:induction false} RunEndIs(t: seq<int>, k: nat, base: nat)
    requires k <= |t|
    ensures forall j :: k <= j < RunEnd(t, k, base) ==> IsDigit(t, j, base)
    ensures !IsDigit(t, RunEnd(t, k, base), base)
    decreases |t| - k
  {
    if k < |t| && IsDigit(t, k, base) {
      RunEndIs(t, k + 1, base);
    }
  }

  lemma {:induction false} RunEndUnique(t: seq<int>, k: nat, q: nat, base: nat)
    requires k <= q <= |t| && (forall j :: k <= j < q ==> IsDigit(t, j, base)) && !IsDigit(t, q, base)
    ensures RunEnd(t, k, base) == q
    decreases q - k
  {
    if k < q {
      assert IsDigit(t, k, base);
      RunEndUnique(t, k + 1, q, base);
    }
  }

  method Skip(t: seq<int>, space: int -> bool) returns (p: nat)
    requires WideString(t) && !space(0)
    ensures p == SkipSpace(t, 0, space) <= |t|
  {
    p := 0;
    while space(At(t, p))
      invariant p <= |t| && SkipSpace(t, p, space) == SkipSpace(t, 0, space)
      decreases |t| - p
    {
      p := p + 1;
    }
  }

  /** The beginning of the conversions: white space, the sign and the prefix. The position is that of wc. */
  method Start(t: seq<int>, base0: nat, space: int -> bool) returns (neg: bool, base: nat, p: nat)
    requires WideString(t) && !space(0) && GoodBase(base0)
    ensures p <= |t| && 2 <= base <= 36
    ensures PartsOf(t, base0, space) == Parts(neg, base, p, RunEnd(t, p, base))
  {
    hide RunEnd;
    base := base0;
    p := Skip(t, space);
    neg := false;
    if At(t, p) == MINUS {
      neg := true;
      p := p + 1;
    } else if At(t, p) == PLUS {
      p := p + 1;
    }
    if (base == 0 || base == 16) && At(t, p) == ZERO && (At(t, p + 1) == 120 || At(t, p + 1) == 88) {
      p := p + 2;
      base := 16;
    }
    if base == 0 {
      base := if At(t, p) == ZERO then 8 else 10;
    }
  }

  /** The largest number that one more digit may follow, and the largest digit then. */
  method Limits(neg: bool, base: nat, lo: int, hi: int) returns (cutoff: int, cutlim: int)
    requires 2 <= base <= 36 && hi >= 36 && lo == -hi - 1
    ensures cutoff == (if neg then -(-lo / base) else hi / base) && cutlim == if neg then -lo % base else hi % base
  {
    cutoff := if neg then lo else hi;
    cutlim := CMod(cutoff, base);
    cutoff := CDiv(cutoff, base);
    if neg {
      if cutlim > 0 {
        cutlim := cutlim - base;
        cutoff := cutoff + 1;
      }
      cutlim := -cutlim;
    }
  }

  /** One more digit: no value of the accumulator leaves the type. */
  method AddDigit(acc0: int, i: nat, neg: bool, base: nat, cutoff: int, cutlim: int, lo: int, hi: int, ghost v: int)
    returns (acc: int, inRange: bool)
    requires v >= 0 && 2 <= base <= 36 && i < base && hi >= 36 && lo == -hi - 1 && acc0 == if neg then -v else v
    requires cutoff == (if neg then -(-lo / base) else hi / base) && cutlim == if neg then -lo % base else hi % base
    ensures inRange <==> v * base + i <= if neg then -lo else hi
    ensures acc == if inRange then (if neg then -(v * base + i) else v * base + i) else if neg then lo else hi
  {
    acc := acc0;
    CutOff(if neg then -lo else hi, base, v, i);
    inRange := true;
    if neg {
      if acc < cutoff || (acc == cutoff && i > cutlim) {
        inRange := false;
        acc := lo;
      } else {
        acc := acc * base;
        assert acc == -(v * base) && lo <= acc <= hi;
        acc := acc - i;
      }
    } else {
      if acc > cutoff || (acc == cutoff && i > cutlim) {
        inRange := false;
        acc := hi;
      } else {
        acc := acc * base;
        assert lo <= acc <= hi;
        acc := acc + i;
      }
    }
    assert lo <= acc <= hi;
  }

  lemma {:induction false} ValueStep(t: seq<int>, p: nat, s: nat, base: nat)
    requires p <= s < |t| && base >= 1 && forall j :: p <= j <= s ==> IsDigit(t, j, base)
    ensures Value(t, p, s + 1, base) == Value(t, p, s, base) * base + WcToInt(At(t, s))
    ensures 0 <= Value(t, p, s, base) <= Value(t, p, s + 1, base)
  {
    ValueGrows(t, p, s, s + 1, base);
  }

  /** `wcstol` and its variants for the types from lo to hi. */
  method WcsToL(t: seq<int>, base0: int, space: int -> bool, lo: int, hi: int) returns (r: Result)
    requires WideString(t) && !space(0) && hi >= 36 && lo == -hi - 1
    ensures !GoodBase(base0) ==> r == Result(0, None, Some(EINVAL))
    ensures GoodBase(base0) ==> r == Signed(t, PartsOf(t, base0, space), lo, hi)
  {
    hide PartsOf, SkipSpace, RunEnd;
    if base0 != 0 && (base0 < 2 || base0 > 36) {
      return Result(0, None, Some(EINVAL));
    }
    var neg, base, s := Start(t, base0, space);
    ghost var first := s;
    var cutoff, cutlim := Limits(neg, base, lo, hi);
    ghost var limit := if neg then -lo else hi;
    var acc, any, errno := 0, 0, None;
    ghost var v := 0;
    ValueNone(t, first, base);
    hide Value;
    while true
      invariant first <= s <= |t| && (forall j :: first <= j < s ==> IsDigit(t, j, base)) && v == Value(t, first, s, base)
      invariant any in {-1, 0, 1} && (any == 0 <==> s == first)
      invariant any >= 0 ==> acc == (if neg then -v else v) && errno == None && 0 <= v <= limit
      invariant any < 0 ==> v > limit && acc == (if neg then lo else hi) && errno == Some(ERANGE)
      decreases |t| - s
    {
      var i := WcToInt(At(t, s));
      if i == -1 {
        break;
      }
      if i >= base {
        break;
      }
      ValueStep(t, first, s, base);
      if any >= 0 {
        var inRange;
        acc, inRange := AddDigit(acc, i, neg, base, cutoff, cutlim, lo, hi, v);
        if inRange {
          any := 1;
        } else {
          any := -1;
          errno := Some(ERANGE);
        }
      }
      s := s + 1;
      v := Value(t, first, s, base);
    }
    RunEndUnique(t, first, s, base);
    return Result(acc, Some(if any != 0 then s else 0), errno);
  }

  lemma {:induction false} ValueNone(t: seq<int>, p: nat, base: nat)
    requires p <= |t|
    ensures Value(t, p, p, base) == 0
  {
  }

  /** One more digit of an unsigned number. */
  method AddUDigit(acc0: nat, i: nat, base: nat, cutoff: int, cutlim: int, max: int) returns (acc: int, inRange: bool)
    requires 2 <= base <= 36 && i < base && max >= 36 && cutoff == max / base && cutlim == max % base
    ensures inRange <==> acc0 * base + i <= max
    ensures acc == if inRange then acc0 * base + i else max
  {
    acc := acc0;
    CutOff(max, base, acc0, i);
    inRange := true;
    if acc > cutoff || (acc == cutoff && i > cutlim) {
      inRange := false;
      acc := max;
    } else {
      acc := acc * base;
      assert 0 <= acc <= max;
      acc := acc + i;
    }
    assert 0 <= acc <= max;
  }

  /** `wcstoul` and its variants for the types up to max. */
  method WcsToUL(t: seq<int>, base0: int, space: int -> bool, max: int) returns (r: Result)
    requires WideString(t) && !space(0) && max >= 36
    ensures !GoodBase(base0) ==> r == Result(0, None, Some(EINVAL))
    ensures GoodBase(base0) ==> r == Unsigned(t, PartsOf(t, base0, space), max)
  {
    hide PartsOf, SkipSpace, RunEnd;
    if base0 != 0 && (base0 < 2 || base0 > 36) {
      return Result(0, None, Some(EINVAL));
    }
    var neg, base, s := Start(t, base0, space);
    ghost var first := s;
    var cutoff, cutlim := max / base, max % base;
    var acc, any, errno := 0, 0, None;
    ghost var v := 0;
    ValueNone(t, first, base);
    hide Value;
    while true
      invariant first <= s <= |t| && (forall j :: first <= j < s ==> IsDigit(t, j, base)) && v == Value(t, first, s, base)
      invariant any in {-1, 0, 1} && (any == 0 <==> s == first)
      invariant any >= 0 ==> acc == v && errno == None && 0 <= v <= max
      invariant any < 0 ==> v > max && acc == max && errno == Some(ERANGE)
      decreases |t| - s
    {
      var i := WcToInt(At(t, s));
      if i == -1 {
        break;
      }
      if i >= base {
        break;
      }
      ValueStep(t, first, s, base);
      if any >= 0 {
        var inRange;
        acc, inRange := AddUDigit(acc, i, base, cutoff, cutlim, max);
        if inRange {
          any := 1;
        } else {
          any := -1;
          errno := Some(ERANGE);
        }
      }
      s := s + 1;
      v := Value(t, first, s, base);
    }
    RunEndUnique(t, first, s, base);
    if neg && any > 0 {
      acc := if acc == 0 then 0 else max + 1 - acc;
    }
    return Result(acc, Some(if any != 0 then s else 0), errno);
  }

  /** Where the number is by section 7.24.4.1.2 of ISO/IEC 9899:1999: behind white space and a sign, with a prefix 0x or 0X
      only if a digit follows it, and as long as possible. */
  ghost predicate IsSubject(t: seq<int>, base: nat, space: int -> bool, q: Parts) {
    exists w: nat :: w <= |t| && SubjectAt(t, base, space, w, q)
  }

  ghost predicate SubjectAt(t: seq<int>, base: nat, space: int -> bool, w: nat, q: Parts)
    requires w <= |t|
  {
    && (forall k :: 0 <= k < w ==> space(t[k])) && (w < |t| ==> !space(t[w]))
    && q.neg == (w < |t| && t[w] == 45)
    && var p := if w < |t| && (t[w] == 45 || t[w] == 43) then w + 1 else w;
    && (if Prefixed(t, p, base) then q.first == p + 2 && q.base == 16
        else q.first == p && q.base == if base != 0 then base else if p < |t| && t[p] == 48 then 8 else 10)
    && q.first <= q.end <= |t|
    && (forall k :: q.first <= k < q.end ==> IsDigit(t, k, q.base)) && !IsDigit(t, q.end, q.base)
  }

  predicate Prefixed(t: seq<int>, p: nat, base: nat) {
    && (base == 0 || base == 16)
    && p + 2 < |t| && t[p] == 48 && (t[p + 1] == 120 || t[p + 1] == 88)
    && (48 <= t[p + 2] <= 57 || 65 <= t[p + 2] <= 70 || 97 <= t[p + 2] <= 102)
  }

  lemma {:induction false} SkipSpaceIs(t: seq<int>, k: nat, space: int -> bool, w: nat)
    requires k <= w <= |t|
    ensures SkipSpace(t, k, space) == w <==> (forall m :: k <= m < w ==> space(t[m])) && (w < |t| ==> !space(t[w]))
    decreases |t| - k
  {
    if k < |t| && space(t[k]) && k < w {
      SkipSpaceIs(t, k + 1, space, w);
    }
  }

  lemma {:induction false} PrefixedIs(t: seq<int>, p: nat, base: nat)
    requires WideString(t) && p <= |t|
    ensures Prefixed(t, p, base) <==> HexPrefix(t, p, base) && IsDigit(t, p + 2, 16)
  {
  }

  lemma {:induction false} SubjectFound(t: seq<int>, base: nat, space: int -> bool)
    requires WideString(t)
    ensures IsSubject(t, base, space, IsoPartsOf(t, base, space))
  {
    var w, p, q := SkipSpace(t, 0, space), AfterSign(t, space), IsoPartsOf(t, base, space);
    SkipSpaceIs(t, 0, space, w);
    PrefixedIs(t, p, base);
    RunEndIs(t, q.first, q.base);
    hide SkipSpace, RunEnd, Prefixed, HexPrefix, IsDigit;
    assert SubjectAt(t, base, space, w, q);
  }

  /** There is one such place, and IsoPartsOf finds it. */
  lemma {:induction false} SubjectIs(t: seq<int>, base: nat, space: int -> bool, q: Parts)
    requires WideString(t) && GoodBase(base)
    ensures IsSubject(t, base, space, q) <==> q == IsoPartsOf(t, base, space)
  {
    SubjectFound(t, base, space);
    if IsSubject(t, base, space, q) {
      var w: nat :| w <= |t| && SubjectAt(t, base, space, w, q);
      SkipSpaceIs(t, 0, space, w);
      PrefixedIs(t, AfterSign(t, space), base);
      RunEndUnique(t, q.first, q.end, q.base);
    }
    hide *;
  }

  /** What the standard says of the result of the signed conversions. */
  predicate IsoSigned(t: seq<int>, q: Parts, lo: int, hi: int, r: Result)
    requires q.first <= q.end <= |t|
  {
    if q.first == q.end then r.value == 0 && r.end == Some(0) && r.errno == None
    else
      var n := Value(t, q.first, q.end, q.base);
      var v := if q.neg then -n else n;
      && r.end == Some(q.end)
      && lo <= r.value <= hi
      && (r.errno == None ==> r.value == v)
      && (r.errno != None ==> r.errno == Some(ERANGE) && (if q.neg then v < lo == r.value else v > hi == r.value))
  }

  /** What it says of the unsigned ones: the value is negated in the type. */
  predicate IsoUnsigned(t: seq<int>, q: Parts, max: int, r: Result)
    requires q.first <= q.end <= |t| && max >= 0
  {
    if q.first == q.end then r.value == 0 && r.end == Some(0) && r.errno == None
    else
      var n := Value(t, q.first, q.end, q.base);
      && r.end == Some(q.end)
      && 0 <= r.value <= max
      && (r.errno == None ==> n <= max && if q.neg then (r.value + n) % (max + 1) == 0 else r.value == n)
      && (r.errno != None ==> r.errno == Some(ERANGE) && n > max == r.value)
  }

  lemma {:induction false} Negated(n: nat, v: nat, max: nat)
    requires n <= max && v <= max
    ensures (v + n) % (max + 1) == 0 <==> v == if n == 0 then 0 else max + 1 - n
  {
    if v + n < max + 1 {
      assert (v + n) % (max + 1) == v + n;
    } else {
      assert v + n == (max + 1) + (v + n - (max + 1));
      assert (v + n) % (max + 1) == v + n - (max + 1);
    }
  }

  /** The numbers in the parts are results that the standard allows, and no others are. */
  lemma {:induction false} SignedIsIso(t: seq<int>, q: Parts, lo: int, hi: int, r: Result)
    requires q.first <= q.end <= |t| && q.base >= 1 && (forall k :: q.first <= k < q.end ==> IsDigit(t, k, q.base))
    requires hi >= 36 && lo == -hi - 1
    ensures IsoSigned(t, q, lo, hi, r) <==> r == Signed(t, q, lo, hi)
    ensures IsoUnsigned(t, q, hi, r) <==> r == Unsigned(t, q, hi)
  {
    ValueGrows(t, q.first, q.first, q.end, q.base);
    hide Value;
    var n := Value(t, q.first, q.end, q.base);
    if q.neg && n <= hi && 0 <= r.value <= hi {
      Negated(n, r.value, hi);
    }
  }

  /** The conversions are those of the C standard, for every string and base, exactly when no prefix without a digit
      behind it is taken. */
  lemma {:induction false} IsoIff(t: seq<int>, base: nat, space: int -> bool, lo: int, hi: int)
    requires WideString(t) && GoodBase(base) && hi >= 36 && lo == -hi - 1
    ensures IsoPartsOf(t, base, space).first <= IsoPartsOf(t, base, space).end <= |t|
    ensures var p := AfterSign(t, space);
            IsoSigned(t, IsoPartsOf(t, base, space), lo, hi, Signed(t, PartsOf(t, base, space), lo, hi)) <==>
              !(HexPrefix(t, p, base) && !IsDigit(t, p + 2, 16))
    ensures var p := AfterSign(t, space);
            IsoUnsigned(t, IsoPartsOf(t, base, space), hi, Unsigned(t, PartsOf(t, base, space), hi)) <==>
              !(HexPrefix(t, p, base) && !IsDigit(t, p + 2, 16))
  {
    var p, q := AfterSign(t, space), IsoPartsOf(t, base, space);
    RunEndIs(t, q.first, q.base);
    SignedIsIso(t, q, lo, hi, Signed(t, PartsOf(t, base, space), lo, hi));
    SignedIsIso(t, q, lo, hi, Unsigned(t, PartsOf(t, base, space), hi));
    hide IsoSigned, IsoUnsigned, Value, SkipSpace;
    if HexPrefix(t, p, base) && !IsDigit(t, p + 2, 16) {
      // The code finds no digits behind the prefix; the standard finds the number zero before the x.
      var b := if base != 0 then base else 8;
      assert IsDigit(t, p, b);
      assert RunEnd(t, p, b) >= p + 1;
      assert RunEnd(t, p + 2, 16) == p + 2;
    }
  }
}
