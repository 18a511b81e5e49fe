/** The visual encoding of bytes (gen/vis.c), in the C locale. */
module Vis {
  import opened Octets

  datatype Flags = Flags(octal: bool, cstyle: bool, sp: bool, tab: bool, nl: bool, safe: bool, noslash: bool,
                         httpstyle: bool)

  const BACKSLASH: octet := 92

  predicate IsOctal(c: octet) {
    48 <= c <= 55
  }

  predicate IsGraph(c: octet) {
    33 <= c <= 126
  }

  predicate IsWhite(c: octet) {
    c == 32 || c == 9 || c == 10
  }

  predicate IsSafe(c: octet) {
    c == 8 || c == 7 || c == 13
  }

  predicate IsCntrl(c: octet) {
    c < 32 || c == 127
  }

  predicate IsAlnum(c: octet) {
    48 <= c <= 57 || 65 <= c <= 90 || 97 <= c <= 122
  }

  /** `MAKEEXTRALIST`: the string as it is before its NUL. */
  function ExtraList(f: Flags, orig: seq<octet>): seq<octet> {
    orig + (if f.sp then [32] else []) + (if f.tab then [9] else []) + (if f.nl then [10] else [])
    + if f.noslash then [] else [BACKSLASH]
  }

  /** strchr finds the character, the NUL at the end included. */
  predicate IsExtra(c: octet, extra: seq<octet>) {
    c in extra || c == 0
  }

  /** The bytes that stand for themselves. */
  predicate Plain(c: octet, f: Flags, extra: seq<octet>) {
    !IsExtra(c, extra) && (IsGraph(c) || IsWhite(c) || (f.safe && IsSafe(c)))
  }

  /** The letter after the backslash that stands for c in C style, if there is one. */
  function CLetter(c: octet): octet {
    match c
    case 10 => 110  // n
    case 13 => 114  // r
    case 8 => 98  // b
    case 7 => 97  // a
    case 11 => 118  // v
    case 9 => 116  // t
    case 12 => 102  // f
    case 32 => 115  // s
    case _ => if IsGraph(c) then c else 0
  }

  function CStyle(c: octet, nextc: octet): seq<octet> {
    if c == 0 then [BACKSLASH, 48] + if IsOctal(nextc) then [48, 48] else []
    else if CLetter(c) != 0 then [BACKSLASH, CLetter(c)]
    else []
  }

  function Octal(c: octet): seq<octet> {
    [BACKSLASH, c / 64 + 48, c / 8 % 8 + 48, c % 8 + 48]
  }

  /** The form with the marks for meta and control characters. */
  function Marked(c: octet): seq<octet> {
    var low := c % 128;
    (if c >= 128 then [77] else [])
    + if IsCntrl(low) then [94, if low == 127 then 63 else low + 64] else [45, low]
  }

  /** What `do_svis` writes for one byte. */
  function Svis(c: octet, f: Flags, nextc: octet, extra: seq<octet>): seq<octet> {
    if Plain(c, f, extra) then [c]
    else if f.cstyle && CStyle(c, nextc) != [] then CStyle(c, nextc)
    else if IsExtra(c, extra) || c % 128 == 32 || f.octal then Octal(c)
    else (if f.noslash then [] else [BACKSLASH]) + Marked(c)
  }

  function HexDigit(c: nat): octet
    requires c < 16
  {
    if c < 10 then 48 + c else 87 + c
  }

  const HTTP_SPECIAL: seq<octet> := [36, 45, 95, 46, 43, 33, 42, 39, 40, 41, 44]

  /** What `do_hvis` writes for one byte. */
  function Hvis(c: octet, f: Flags, nextc: octet, extra: seq<octet>): seq<octet> {
    if c >= 128 || !IsAlnum(c) || IsExtra(c, HTTP_SPECIAL) then [37, HexDigit(c / 16), HexDigit(c % 16)]
    else Svis(c, f, nextc, extra)
  }

  function Code(c: octet, f: Flags, nextc: octet, extra: seq<octet>): seq<octet> {
    if f.httpstyle then Hvis(c, f, nextc, extra) else Svis(c, f, nextc, extra)
  }

  /** The byte after position i, or NUL at the end. */
  function NextOf(src: seq<octet>, i: nat): octet {
    if i + 1 < |src| then src[i + 1] else 0
  }

  /** What `strsvisx` writes for the bytes from position i on. */
  function Codes(src: seq<octet>, i: nat, f: Flags, extra: seq<octet>): seq<octet>
    decreases |src| - i
  {
    if i >= |src| then [] else Code(src[i], f, NextOf(src, i), extra) + Codes(src, i + 1, f, extra)
  }

  /** What `strvisx` writes. */
  function StrVisX(src: seq<octet>, f: Flags): seq<octet> {
    Codes(src, 0, f, ExtraList(f, ExtraList(f, [])))
  }

  lemma {:induction false} CodeLength(c: octet, f: Flags, nextc: octet, extra: seq<octet>)
    ensures 1 <= |Code(c, f, nextc, extra)| <= 4
  {
  }

  /** The encoding is at most four times as long. */
  lemma {:induction false} CodesLength(src: seq<octet>, i: nat, f: Flags, extra: seq<octet>)
    requires i <= |src|
    ensures |src| - i <= |Codes(src, i, f, extra)| <= 4 * (|src| - i)
    decreases |src| - i
  {
    if i < |src| {
      CodeLength(src[i], f, NextOf(src, i), extra);
      CodesLength(src, i + 1, f, extra);
    }
  }

  lemma {:induction false} CodesStep(src: seq<octet>, i: nat, f: Flags, extra: seq<octet>, done: seq<octet>)
    requires i < |src| && done + Codes(src, i, f, extra) == Codes(src, 0, f, extra)
    ensures (done + Code(src[i], f, NextOf(src, i), extra)) + Codes(src, i + 1, f, extra) == Codes(src, 0, f, extra)
  {
  }

  /** A store through the advancing pointer. */
  method Put(b: array<octet>, dst0: nat, x: octet) returns (dst: nat)
    requires dst0 < b.Length
    modifies b
    ensures dst == dst0 + 1 && b[..dst] == old(b[..dst0]) + [x]
  {
    b[dst0] := x;
    dst := dst0 + 1;
  }

  /** The end of `do_svis`: marks for meta and control characters. */
  method PutMarked(b: array<octet>, dst0: nat, c0: octet) returns (dst: nat)
    requires dst0 + 3 <= b.Length
    modifies b
    ensures dst0 < dst <= dst0 + 3 && b[..dst] == old(b[..dst0]) + Marked(c0)
  {
    var c := c0;
    dst := dst0;
    if c >= 128 {
      c := c % 128;
      dst := Put(b, dst, 77);
    }
    if IsCntrl(c) {
      dst := Put(b, dst, 94);
      if c == 127 {
        dst := Put(b, dst, 63);
      } else {
        dst := Put(b, dst, c + 64);
      }
    } else {
      dst := Put(b, dst, 45);
      dst := Put(b, dst, c);
    }
  }

  /** The part of `do_svis` for C style. */
  method PutCStyle(b: array<octet>, dst0: nat, c: octet, nextc: octet) returns (dst: nat)
    requires dst0 + 4 <= b.Length
    modifies b
    ensures dst0 <= dst <= dst0 + 4 && b[..dst] == old(b[..dst0]) + CStyle(c, nextc)
  {
    dst := dst0;
    if c == 0 {
      dst := Put(b, dst, BACKSLASH);
      dst := Put(b, dst, 48);
      if IsOctal(nextc) {
        dst := Put(b, dst, 48);
        dst := Put(b, dst, 48);
      }
    } else if CLetter(c) != 0 {
      dst := Put(b, dst, BACKSLASH);
      dst := Put(b, dst, CLetter(c));
    }
  }

  /** `do_svis`: dst is the position in the buffer, and the result the position behind what was written. */
  method DoSvis(b: array<octet>, dst0: nat, c: octet, f: Flags, nextc: octet, extra: seq<octet>) returns (dst: nat)
    requires dst0 + 4 <= b.Length
    modifies b
    ensures dst0 < dst <= dst0 + 4 && b[..dst] == old(b[..dst0]) + Svis(c, f, nextc, extra)
  {
    hide CStyle, Marked;
    var isextra := IsExtra(c, extra);
    if !isextra && (IsGraph(c) || IsWhite(c) || (f.safe && IsSafe(c))) {
      dst := Put(b, dst0, c);
      return;
    }
    if f.cstyle {
      dst := PutCStyle(b, dst0, c, nextc);
      if dst != dst0 {
        return;
      }
    }
    dst := dst0;
    if isextra || c % 128 == 32 || f.octal {
      dst := Put(b, dst, BACKSLASH);
      dst := Put(b, dst, c / 64 + 48);
      dst := Put(b, dst, c / 8 % 8 + 48);
      dst := Put(b, dst, c % 8 + 48);
    } else {
      if !f.noslash {
        dst := Put(b, dst, BACKSLASH);
      }
      dst := PutMarked(b, dst, c);
    }
  }

  /** `do_hvis` */
  method DoHvis(b: array<octet>, dst0: nat, c: octet, f: Flags, nextc: octet, extra: seq<octet>) returns (dst: nat)
    requires dst0 + 4 <= b.Length
    modifies b
    ensures dst0 < dst <= dst0 + 4 && b[..dst] == old(b[..dst0]) + Hvis(c, f, nextc, extra)
  {
    if c >= 128 || !IsAlnum(c) || IsExtra(c, HTTP_SPECIAL) {
      b[dst0], b[dst0 + 1], b[dst0 + 2] := 37, HexDigit(c / 16), HexDigit(c % 16);
      dst := dst0 + 3;
    } else {
      dst := DoSvis(b, dst0, c, f, nextc, extra);
    }
  }

  /** `strsvisx`: the bytes of the encoding, with a NUL behind them, and their number. */
  method StrSVisX(b: array<octet>, src: seq<octet>, f: Flags, extra: seq<octet>) returns (n: nat)
    requires b.Length >= 4 * |src| + 1
    modifies b
    ensures n < b.Length && b[..n] == Codes(src, 0, f, ExtraList(f, extra)) && b[n] == 0
  {
    var nextra := ExtraList(f, extra);
    var dst, i := 0, 0;
    hide Code, Svis, Hvis;
    while i < |src|
      invariant 0 <= i <= |src| && dst <= 4 * i
      invariant b[..dst] + Codes(src, i, f, nextra) == Codes(src, 0, f, nextra)
    {
      CodesStep(src, i, f, nextra, b[..dst]);
      CodeCases(src[i], f, NextOf(src, i), nextra);
      if f.httpstyle {
        dst := DoHvis(b, dst, src[i], f, NextOf(src, i), nextra);
      } else {
        dst := DoSvis(b, dst, src[i], f, NextOf(src, i), nextra);
      }
      i := i + 1;
    }
    b[dst] := 0;
    return dst;
  }

  /** `strvisx` */
  method StrVisXInto(b: array<octet>, src: seq<octet>, f: Flags) returns (n: nat)
    requires b.Length >= 4 * |src| + 1
    modifies b
    ensures n < b.Length && b[..n] == StrVisX(src, f) && b[n] == 0
  {
    n := StrSVisX(b, src, f, ExtraList(f, []));
  }

  lemma {:induction false} CodeCases(c: octet, f: Flags, nextc: octet, extra: seq<octet>)
    ensures Code(c, f, nextc, extra) == if f.httpstyle then Hvis(c, f, nextc, extra) else Svis(c, f, nextc, extra)
  {
  }

  /** The byte that is written with a letter after the backslash. */
  function LetterValue(x: octet): octet {
    match x
    case 110 => 10
    case 114 => 13
    case 98 => 8
    case 97 => 7
    case 118 => 11
    case 116 => 9
    case 102 => 12
    case 115 => 32
    case _ => x
  }

  function ControlValue(x: octet): octet {
    if x == 63 then 127 else if x >= 64 then x - 64 else x
  }

  function OctalValue(x: octet, y: octet, z: octet): octet {
    var v: int := (x as int - 48) * 64 + (y as int - 48) * 8 + (z as int - 48);
    v % 256
  }

  function MetaValue(x: octet): octet {
    var v: int := x as int + 128;
    v % 256
  }

  /** Decoding of what begins with a backslash: the byte, and the number of bytes that stand for it. */
  function Escape(s: seq<octet>): (r: (octet, nat))
    requires s != []
    ensures 1 <= r.1 <= |s|
  {
    if |s| < 2 then (s[0], 1)
    else if IsOctal(s[1]) then
      if |s| >= 4 && IsOctal(s[2]) && IsOctal(s[3]) then
        (OctalValue(s[1], s[2], s[3]), 4)
      else (0, 2)
    else if s[1] == 94 && |s| >= 3 then (ControlValue(s[2]), 3)
    else if s[1] == 77 && |s| >= 4 then
      (MetaValue(if s[2] == 94 then ControlValue(s[3]) else s[3]), 4)
    else (LetterValue(s[1]), 2)
  }

  /** The inverse of the encoding with backslashes. */
  function Decode(s: seq<octet>): seq<octet>
    decreases |s|
  {
    if s == [] then []
    else if s[0] != BACKSLASH then [s[0]] + Decode(s[1..])
    else [Escape(s).0] + Decode(s[Escape(s).1..])
  }

  function HexValue(x: octet): nat {
    var v: int := if x < 58 then x as int - 48 else x as int - 87;
    v % 16
  }

  /** The inverse of the encoding in HTTP style. */
  function DecodeHttp(s: seq<octet>): seq<octet>
    decreases |s|
  {
    if s == [] then []
    else if s[0] == 37 && |s| >= 3 then [HexValue(s[1]) * 16 + HexValue(s[2])] + DecodeHttp(s[3..])
    else [s[0]] + DecodeHttp(s[1..])
  }
}
