/** The parts of a number in a wide string (locale/_wcstol.h, locale/_wcstoul.h, locale/__wctoint.h). */
module WcsNumber {
  /** `__wctoint`: the value of a digit or a letter, or -1. */
  function WcToInt(wc: int): (n: int)
    ensures -1 <= n < 36
    ensures 0 <= n < 10 ==> wc == 48 + n
    ensures n >= 10 ==> wc == 55 + n || wc == 87 + n
    ensures n == -1 ==> !(48 <= wc <= 57 || 65 <= wc <= 90 || 97 <= wc <= 122)
  {
    if 48 <= wc <= 57 then wc - 48
    else if 65 <= wc <= 90 then wc - 55
    else if 97 <= wc <= 122 then wc - 87
    else -1
  }

  const MINUS := 45
  const PLUS := 43
  const ZERO := 48

  /** The characters before the NUL that ends the string. */
  predicate WideString(t: seq<int>) {
    forall k :: 0 <= k < |t| ==> t[k] != 0
  }

  /** The character at a position, the NUL included. */
  function At(t: seq<int>, k: nat): int
    requires k <= |t|
  {
    if k < |t| then t[k] else 0
  }

  predicate IsDigit(t: seq<int>, k: nat, base: nat)
    requires k <= |t|
  {
    0 <= WcToInt(At(t, k)) < base
  }

  /** The position of the first character that is no white space. */
  function SkipSpace(t: seq<int>, k: nat, space: int -> bool): (p: nat)
    requires k <= |t|
    ensures k <= p <= |t|
    decreases |t| - k
  {
    if k < |t| && space(t[k]) then SkipSpace(t, k + 1, space) else k
  }

  /** Whether a prefix 0x or 0X begins at p. */
  predicate HexPrefix(t: seq<int>, p: nat, base: nat)
    requires p <= |t|
  {
    (base == 0 || base == 16) && At(t, p) == ZERO && (At(t, p + 1) == 120 || At(t, p + 1) == 88)
  }

  /** The numeric value of the digits from p to k. */
  function Value(t: seq<int>, p: nat, k: nat, base: nat): int
    requires p <= k <= |t|
  {
    if k == p then 0 else Value(t, p, k - 1, base) * base + WcToInt(t[k - 1])
  }

  /** The end of the run of digits that begins at k. */
  function RunEnd(t: seq<int>, k: nat, base: nat): (q: nat)
    requires k <= |t|
    ensures k <= q <= |t|
    decreases |t| - k
  {
    if k < |t| && IsDigit(t, k, base) then RunEnd(t, k + 1, base) else k
  }

  /** Where the number is: the sign, the base, and the first and last positions of its digits. */
  datatype Parts = Parts(neg: bool, base: nat, first: nat, end: nat)

  function SignAt(t: seq<int>, space: int -> bool): nat {
    SkipSpace(t, 0, space)
  }

  function AfterSign(t: seq<int>, space: int -> bool): (p: nat)
    ensures p <= |t|
  {
    var p := SignAt(t, space);
    if At(t, p) == MINUS || At(t, p) == PLUS then p + 1 else p
  }

  /** The base and the first digit, as the code finds them: a prefix is skipped in any case. */
  function PartsOf(t: seq<int>, base: nat, space: int -> bool): (r: Parts)
    ensures r.first <= r.end <= |t|
  {
    var p := AfterSign(t, space);
    var neg := At(t, SignAt(t, space)) == MINUS;
    if HexPrefix(t, p, base) then Parts(neg, 16, p + 2, RunEnd(t, p + 2, 16))
    else
      var b := if base != 0 then base else if At(t, p) == ZERO then 8 else 10;
      Parts(neg, b, p, RunEnd(t, p, b))
  }

  /** The base and the first digit of section 7.24.4.1.2 of ISO/IEC 9899:1999: the longest initial sequence of the
      expected form, in which at least one digit follows a prefix. */
  function IsoPartsOf(t: seq<int>, base: nat, space: int -> bool): Parts {
    var p := AfterSign(t, space);
    var neg := At(t, SignAt(t, space)) == MINUS;
    if HexPrefix(t, p, base) && IsDigit(t, p + 2, 16) then Parts(neg, 16, p + 2, RunEnd(t, p + 2, 16))
    else
      var b := if base != 0 then base else if At(t, p) == ZERO then 8 else 10;
      Parts(neg, b, p, RunEnd(t, p, b))
  }
}
