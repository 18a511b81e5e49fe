/** What the visual encoding says can be read back (gen/vis.c). */
module VisDecode {
  import opened Octets
  import opened Vis

  /** The list of extra characters of `strvisx`. */
  function Extras(f: Flags): seq<octet> {
    ExtraList(f, ExtraList(f, []))
  }

  lemma {:induction false} ExtrasAre(f: Flags, c: octet)
    ensures c in Extras(f) <==>
            (f.sp && c == 32) || (f.tab && c == 9) || (f.nl && c == 10) || (!f.noslash && c == BACKSLASH)
  {
  }

  /** The decoder reads the code at the front of s as c. */
  ghost predicate Reads(code: seq<octet>, rest: seq<octet>, c: octet) {
    code != [] && if code[0] == BACKSLASH then Escape(code + rest) == (c, |code|) else code == [c]
  }

  lemma {:induction false} ReadsDecodes(code: seq<octet>, rest: seq<octet>, c: octet)
    requires Reads(code, rest, c)
    ensures Decode(code + rest) == [c] + Decode(rest)
  {
    assert (code + rest)[|code|..] == rest;
  }

  lemma {:induction false} OctalDigits(c: octet)
    ensures OctalValue(c / 64 + 48, c / 8 % 8 + 48, c % 8 + 48) == c
    ensures IsOctal(c / 64 + 48) && IsOctal(c / 8 % 8 + 48) && IsOctal(c % 8 + 48)
  {
    var q := c / 8;
    assert c == q * 8 + c % 8 && q == q / 8 * 8 + q % 8 && q / 8 == c / 64;
  }

  /** The digits of an octal escape. */
  lemma {:induction false} OctalReads(c: octet, rest: seq<octet>)
    ensures Reads(Octal(c), rest, c)
  {
    OctalDigits(c);
    hide OctalValue, IsOctal;
    var s := Octal(c) + rest;
    assert s[0] == BACKSLASH && s[1] == c / 64 + 48 && s[2] == c / 8 % 8 + 48 && s[3] == c % 8 + 48;
  }

  /** In C style a zero is read back when the digit that may follow belongs to the next byte. */
  lemma {:induction false} CStyleReads(c: octet, nextc: octet, rest: seq<octet>)
    requires CStyle(c, nextc) != [] && (IsGraph(c) ==> c == BACKSLASH)
    requires rest != [] && IsOctal(rest[0]) ==> IsOctal(nextc)
    ensures Reads(CStyle(c, nextc), rest, c)
  {
    var code := CStyle(c, nextc);
    var s := code + rest;
    assert s[0] == BACKSLASH && s[1] == code[1];
    if c == 0 {
      if IsOctal(nextc) {
        assert s[2] == 48 && s[3] == 48;
      } else if rest != [] {
        assert s[2] == rest[0];
      }
    }
  }

  lemma {:induction false} MarkedReads(c: octet, rest: seq<octet>)
    requires c >= 128 || IsCntrl(c)
    ensures Reads([BACKSLASH] + Marked(c), rest, c)
  {
    var code := [BACKSLASH] + Marked(c);
    var s := code + rest;
    assert s[0] == BACKSLASH && s[1] == code[1] && s[2] == code[2];
    if c >= 128 {
      assert s[3] == code[3];
    }
  }

  /** Graphic characters on the list are written behind a backslash in C style, and are not read back as such. */
  ghost predicate Escaped(c: octet, f: Flags, extra: seq<octet>) {
    f.cstyle && IsGraph(c) && c != BACKSLASH && c in extra
  }

  lemma {:induction false} SvisReads(c: octet, f: Flags, nextc: octet, extra: seq<octet>, rest: seq<octet>)
    requires !f.noslash && BACKSLASH in extra && !Escaped(c, f, extra)
    requires rest != [] && IsOctal(rest[0]) ==> IsOctal(nextc)
    ensures Reads(Svis(c, f, nextc, extra), rest, c)
  {
    hide Reads, Octal, CStyle, Marked;
    if Plain(c, f, extra) {
      PlainReads(c, rest);
    } else if f.cstyle && CStyle(c, nextc) != [] {
      CStyleReads(c, nextc, rest);
    } else if IsExtra(c, extra) || c % 128 == 32 || f.octal {
      OctalReads(c, rest);
    } else {
      MarkedReads(c, rest);
    }
  }

  lemma {:induction false} PlainReads(c: octet, rest: seq<octet>)
    requires c != BACKSLASH
    ensures Reads([c], rest, c)
  {
  }

  /** An encoding begins with an octal digit only when the first byte is that digit. */
  lemma {:induction false} FirstByte(src: seq<octet>, i: nat, f: Flags, extra: seq<octet>)
    requires i < |src| && !f.httpstyle && !f.noslash
    ensures var s := Codes(src, i, f, extra); s != [] && (s[0] == src[i] || s[0] == BACKSLASH)
  {
    CodeLength(src[i], f, NextOf(src, i), extra);
  }

  lemma {:induction false} NextReads(src: seq<octet>, i: nat, f: Flags, extra: seq<octet>)
    requires i < |src| && !f.httpstyle && !f.noslash
    ensures var rest := Codes(src, i + 1, f, extra); rest != [] && IsOctal(rest[0]) ==> IsOctal(NextOf(src, i))
  {
    if i + 1 < |src| {
      FirstByte(src, i + 1, f, extra);
    }
  }

  /** Decoding takes the encoding back, from any position on. */
  lemma {:induction false} CodesDecode(src: seq<octet>, i: nat, f: Flags, extra: seq<octet>)
    requires i <= |src| && !f.httpstyle && !f.noslash && BACKSLASH in extra && forall c :: !Escaped(c, f, extra)
    ensures Decode(Codes(src, i, f, extra)) == src[i..]
    decreases |src| - i
  {
    hide Decode, Svis, Reads, Escaped;
    if i < |src| {
      var rest := Codes(src, i + 1, f, extra);
      NextReads(src, i, f, extra);
      SvisReads(src[i], f, NextOf(src, i), extra, rest);
      ReadsDecodes(Svis(src[i], f, NextOf(src, i), extra), rest, src[i]);
      CodesDecode(src, i + 1, f, extra);
      assert src[i..] == [src[i]] + src[i + 1..];
    } else {
      NothingDecodes();
    }
  }

  lemma {:induction false} NothingDecodes()
    ensures Decode([]) == [] && DecodeHttp([]) == []
  {
  }

  /** What `strsvisx` writes; orig is the list of extra characters that its caller gives. */
  function StrSVisXOf(src: seq<octet>, f: Flags, orig: seq<octet>): seq<octet> {
    Codes(src, 0, f, ExtraList(f, orig))
  }

  /** `strsvisx` with backslashes is read back by one decoder, whatever the other flags are and whatever the list
      holds, except for graphic characters in C style. */
  lemma {:induction false} RoundTripWith(src: seq<octet>, f: Flags, orig: seq<octet>)
    requires !f.httpstyle && !f.noslash && forall c :: !Escaped(c, f, orig)
    ensures Decode(StrSVisXOf(src, f, orig)) == src
  {
    var extra := ExtraList(f, orig);
    assert BACKSLASH in extra && forall c :: Escaped(c, f, extra) ==> Escaped(c, f, orig);
    CodesDecode(src, 0, f, extra);
    assert src[0..] == src;
  }

  /** `strvisx` with backslashes is read back by that decoder for all other flags. */
  lemma {:induction false} RoundTrip(src: seq<octet>, f: Flags)
    requires !f.httpstyle && !f.noslash
    ensures Decode(StrVisX(src, f)) == src
  {
    RoundTripWith(src, f, ExtraList(f, []));
  }

  lemma {:induction false} HexDigits(c: octet)
    ensures HexValue(HexDigit(c / 16)) == c / 16 && HexValue(HexDigit(c % 16)) == c % 16 && c / 16 * 16 + c % 16 == c
  {
  }

  lemma {:induction false} HvisDecodes(c: octet, f: Flags, nextc: octet, rest: seq<octet>)
    ensures DecodeHttp(Hvis(c, f, nextc, Extras(f)) + rest) == [c] + DecodeHttp(rest)
  {
    var code := Hvis(c, f, nextc, Extras(f));
    var s := code + rest;
    assert s[|code|..] == rest;
    ExtrasAre(f, c);
    if c >= 128 || !IsAlnum(c) || IsExtra(c, HTTP_SPECIAL) {
      HexDigits(c);
      hide HexValue, HexDigit;
      assert s[0] == 37 && s[1] == HexDigit(c / 16) && s[2] == HexDigit(c % 16);
    } else {
      assert code == [c];
    }
  }

  lemma {:induction false} HttpCodesDecode(src: seq<octet>, i: nat, f: Flags)
    requires i <= |src| && f.httpstyle
    ensures DecodeHttp(Codes(src, i, f, Extras(f))) == src[i..]
    decreases |src| - i
  {
    hide DecodeHttp, Hvis, Extras;
    if i < |src| {
      HvisDecodes(src[i], f, NextOf(src, i), Codes(src, i + 1, f, Extras(f)));
      HttpCodesDecode(src, i + 1, f);
      assert src[i..] == [src[i]] + src[i + 1..];
    } else {
      NothingDecodes();
    }
  }

  /** In HTTP style another decoder reads the encoding back, whatever the other flags are. */
  lemma {:induction false} HttpRoundTrip(src: seq<octet>, f: Flags)
    requires f.httpstyle
    ensures DecodeHttp(StrVisX(src, f)) == src
  {
    HttpCodesDecode(src, 0, f);
    assert src[0..] == src;
  }

  /** Different byte strings have different encodings. */
  ghost predicate UniquelyDecodable(f: Flags) {
    forall a, b :: StrVisX(a, f) == StrVisX(b, f) ==> a == b
  }

  /** `strvisx` can be read back exactly when VIS_HTTPSTYLE is given or VIS_NOSLASH is not. */
  lemma {:induction false} DecodableIff(f: Flags)
    ensures UniquelyDecodable(f) <==> f.httpstyle || !f.noslash
  {
    if f.httpstyle || !f.noslash {
      forall a, b | StrVisX(a, f) == StrVisX(b, f)
        ensures a == b
      {
        if f.httpstyle {
          HttpRoundTrip(a, f);
          HttpRoundTrip(b, f);
        } else {
          RoundTrip(a, f);
          RoundTrip(b, f);
        }
      }
    } else {
      NoslashCollides(f);
    }
  }

  /** Different byte strings have different encodings by `strsvisx` with the list orig. */
  ghost predicate DecodableWith(f: Flags, orig: seq<octet>) {
    forall a, b :: StrSVisXOf(a, f, orig) == StrSVisXOf(b, f, orig) ==> a == b
  }

  /** The code w of a byte, which is no graphic character, is also made of codes of graphic characters: behind the
      backslash is an extra character, which C style writes just so, and what follows stands for itself. */
  predicate Shadowed(w: seq<octet>, extra: seq<octet>) {
    |w| >= 2 && w[0] == BACKSLASH && w[1] in extra && forall i :: 2 <= i < |w| ==> w[i] !in extra || w[i] == BACKSLASH
  }

  /** No code is hidden behind a character of the list. */
  ghost predicate NoneShadowed(f: Flags, extra: seq<octet>) {
    forall c :: !IsGraph(c) ==> Plain(c, f, extra) || !Shadowed(Svis(c, f, 0, extra), extra)
  }

  /** A code that does not begin with a backslash is a byte that stands for itself. */
  lemma {:induction false} RawCode(c: octet, f: Flags, nextc: octet, extra: seq<octet>)
    requires !f.noslash && BACKSLASH in extra
    ensures var w := Svis(c, f, nextc, extra);
            1 <= |w| <= 4 && (w[0] != BACKSLASH ==> w == [c] && c !in extra) && (w[0] == BACKSLASH ==> |w| >= 2)
    ensures IsGraph(c) && c !in extra ==> Svis(c, f, nextc, extra) == [c]
  {
  }

  /** Up to the first backslash there are no extra characters in an encoding. */
  lemma {:induction false} RawPrefix(src: seq<octet>, i: nat, f: Flags, extra: seq<octet>, t: seq<octet>, k: nat)
    requires i <= |src| && !f.httpstyle && !f.noslash && BACKSLASH in extra
    requires k < |t| && t <= Codes(src, i, f, extra) && forall j :: 0 <= j <= k ==> t[j] != BACKSLASH
    ensures t[k] !in extra
    decreases k
  {
    hide Svis;
    var w := Svis(src[i], f, NextOf(src, i), extra);
    var rest := Codes(src, i + 1, f, extra);
    assert Codes(src, i, f, extra) == w + rest;
    RawCode(src[i], f, NextOf(src, i), extra);
    assert w[0] == t[0];
    if k > 0 {
      assert forall j :: 0 <= j < |t| - 1 ==> t[1..][j] == t[j + 1] == (w + rest)[j + 1] == rest[j];
      RawPrefix(src, i + 1, f, extra, t[1..], k - 1);
    }
  }

  /** The code of an extra character in C style. */
  lemma {:induction false} EscapedCode(c: octet, f: Flags, nextc: octet, extra: seq<octet>)
    requires Escaped(c, f, extra)
    ensures Svis(c, f, nextc, extra) == [BACKSLASH, c]
  {
  }

  /** The byte that follows matters for the code of zero only, and not for what C style writes first. */
  lemma {:induction false} NextForZero(c: octet, f: Flags, nextc: octet, extra: seq<octet>)
    ensures c != 0 ==> Svis(c, f, nextc, extra) == Svis(c, f, 0, extra)
    ensures f.cstyle && c == 0 ==> Svis(c, f, 0, extra) == [BACKSLASH, 48] <= Svis(c, f, nextc, extra)
  {
  }

  lemma {:induction false} OctalInner(c: octet)
    ensures Octal(c)[1] != BACKSLASH && Octal(c)[2] != BACKSLASH
  {
    OctalDigits(c);
  }

  lemma {:induction false} MarkedInner(c: octet)
    ensures Marked(c)[0] != BACKSLASH && (|Marked(c)| > 2 ==> Marked(c)[1] != BACKSLASH) && |Marked(c)| <= 3
  {
  }

  /** Only the last character of a code can be a second backslash. */
  lemma {:induction false} InnerSlash(c: octet, f: Flags, nextc: octet, extra: seq<octet>, k: nat)
    requires !f.noslash && BACKSLASH in extra && 0 < k && k + 1 < |Svis(c, f, nextc, extra)|
    ensures Svis(c, f, nextc, extra)[k] != BACKSLASH
  {
    OctalInner(c);
    MarkedInner(c);
    assert |Octal(c)| == 4;
    hide Octal, Marked;
    if Plain(c, f, extra) || (f.cstyle && CStyle(c, nextc) != []) {
    } else if IsExtra(c, extra) || c % 128 == 32 || f.octal {
      assert Svis(c, f, nextc, extra) == Octal(c);
    } else {
      assert Svis(c, f, nextc, extra) == [BACKSLASH] + Marked(c);
    }
  }

  /** If an encoding goes on with the rest of a code, there are no extra characters in that. */
  lemma {:induction false} RawTail(a: seq<octet>, i: nat, e: octet, f: Flags, nextc: octet, extra: seq<octet>, k: nat)
    requires !f.httpstyle && !f.noslash && BACKSLASH in extra && i <= |a|
    requires var w := Svis(e, f, nextc, extra); 2 <= k < |w| && w[2..] <= Codes(a, i, f, extra) && w[k] != BACKSLASH
    ensures Svis(e, f, nextc, extra)[k] !in extra
  {
    var w := Svis(e, f, nextc, extra);
    forall m | 0 < m < k
      ensures w[m] != BACKSLASH
    {
      InnerSlash(e, f, nextc, extra, m);
    }
    hide Svis, Codes;
    RawPrefix(a, i, f, extra, w[2..], k - 2);
  }

  /** If an encoding that begins with an extra character in C style also begins with another code, that code is
      shadowed. */
  lemma {:induction false} HiddenCode(a: seq<octet>, i: nat, b: seq<octet>, j: nat, f: Flags, extra: seq<octet>)
    requires !f.httpstyle && !f.noslash && BACKSLASH in extra && i < |a| && j < |b|
    requires Escaped(a[i], f, extra) && !IsGraph(b[j]) && Codes(a, i, f, extra) == Codes(b, j, f, extra)
    ensures !Plain(b[j], f, extra) && Shadowed(Svis(b[j], f, 0, extra), extra)
  {
    var c, e := a[i], b[j];
    var w, rest := Svis(e, f, NextOf(b, j), extra), Codes(a, i + 1, f, extra);
    EscapedCode(c, f, NextOf(a, i), extra);
    FirstCode(a, i, f, extra);
    FirstCode(b, j, f, extra);
    RawCode(e, f, NextOf(b, j), extra);
    NextForZero(e, f, NextOf(b, j), extra);
    assert c in extra && f.cstyle;
    hide Svis, Plain, IsGraph, Escaped, Codes, NextOf;
    Compared(c, rest, w, Codes(b, j + 1, f, extra));
    NotPlain(e, f, NextOf(b, j), extra);
    forall k | 2 <= k < |w|
      ensures w[k] !in extra || w[k] == BACKSLASH
    {
      if w[k] != BACKSLASH {
        RawTail(a, i + 1, e, f, NextOf(b, j), extra, k);
      }
    }
  }

  lemma {:induction false} Compared(c: octet, rest: seq<octet>, w: seq<octet>, more: seq<octet>)
    requires [BACKSLASH, c] + rest == w + more && w != [] && (w[0] == BACKSLASH ==> |w| >= 2)
    ensures w[0] == BACKSLASH && w[1] == c && w[2..] <= rest
  {
    var s := w + more;
    assert w[0] == s[0] && w[1] == s[1] && s[2..] == rest;
    assert s[2..][..|w| - 2] == w[2..];
  }

  lemma {:induction false} FirstCode(src: seq<octet>, i: nat, f: Flags, extra: seq<octet>)
    requires i < |src| && !f.httpstyle
    ensures Codes(src, i, f, extra) == Svis(src[i], f, NextOf(src, i), extra) + Codes(src, i + 1, f, extra)
  {
  }

  lemma {:induction false} NotPlain(c: octet, f: Flags, nextc: octet, extra: seq<octet>)
    requires BACKSLASH in extra && |Svis(c, f, nextc, extra)| >= 2
    ensures !Plain(c, f, extra)
  {
  }

  /** Equal encodings begin with the code of one byte. */
  lemma {:induction false} SameHead(a: seq<octet>, i: nat, b: seq<octet>, j: nat, f: Flags, extra: seq<octet>)
    requires !f.httpstyle && !f.noslash && BACKSLASH in extra && NoneShadowed(f, extra) && i < |a| && j < |b|
    requires Codes(a, i, f, extra) == Codes(b, j, f, extra)
    ensures a[i] == b[j] && |Svis(a[i], f, NextOf(a, i), extra)| == |Svis(b[j], f, NextOf(b, j), extra)|
  {
    var c, e := a[i], b[j];
    var w, u := Svis(c, f, NextOf(a, i), extra), Svis(e, f, NextOf(b, j), extra);
    var s := Codes(a, i, f, extra);
    assert s == w + Codes(a, i + 1, f, extra) && s == u + Codes(b, j + 1, f, extra);
    RawCode(c, f, NextOf(a, i), extra);
    RawCode(e, f, NextOf(b, j), extra);
    assert w[0] == s[0] == u[0];
    if Escaped(c, f, extra) && !IsGraph(e) {
      HiddenCode(a, i, b, j, f, extra);
    } else if Escaped(e, f, extra) && !IsGraph(c) {
      HiddenCode(b, j, a, i, f, extra);
    } else if Escaped(c, f, extra) || Escaped(e, f, extra) {
      GraphCode(c, f, NextOf(a, i), extra);
      GraphCode(e, f, NextOf(b, j), extra);
      assert w[|w| - 1] == s[|w| - 1] && u[|u| - 1] == s[|u| - 1];
    } else {
      NextReads(a, i, f, extra);
      NextReads(b, j, f, extra);
      SvisReads(c, f, NextOf(a, i), extra, Codes(a, i + 1, f, extra));
      SvisReads(e, f, NextOf(b, j), extra, Codes(b, j + 1, f, extra));
    }
  }

  lemma {:induction false} GraphCode(c: octet, f: Flags, nextc: octet, extra: seq<octet>)
    requires f.cstyle && IsGraph(c)
    ensures Svis(c, f, nextc, extra) == if c in extra then [BACKSLASH, c] else [c]
  {
  }

  /** Equal encodings are those of equal bytes, when no code is shadowed. */
  lemma {:induction false} SameBytes(a: seq<octet>, i: nat, b: seq<octet>, j: nat, f: Flags, extra: seq<octet>)
    requires !f.httpstyle && !f.noslash && BACKSLASH in extra && NoneShadowed(f, extra) && i <= |a| && j <= |b|
    requires Codes(a, i, f, extra) == Codes(b, j, f, extra)
    ensures a[i..] == b[j..]
    decreases |a| - i
  {
    hide Svis, NoneShadowed;
    CodesLength(a, i, f, extra);
    CodesLength(b, j, f, extra);
    if i < |a| && j < |b| {
      SameHead(a, i, b, j, f, extra);
      Behind(Svis(a[i], f, NextOf(a, i), extra), Codes(a, i + 1, f, extra),
             Svis(b[j], f, NextOf(b, j), extra), Codes(b, j + 1, f, extra));
      SameBytes(a, i + 1, b, j + 1, f, extra);
      assert a[i..] == [a[i]] + a[i + 1..] && b[j..] == [b[j]] + b[j + 1..];
    }
  }

  lemma {:induction false} Behind(w: seq<octet>, r: seq<octet>, u: seq<octet>, t: seq<octet>)
    requires w + r == u + t && |w| == |u|
    ensures r == t
  {
    assert (w + r)[|w|..] == r && (u + t)[|u|..] == t;
  }

  lemma {:induction false} RawGraph(c: octet, f: Flags, nextc: octet, extra: seq<octet>)
    requires !f.httpstyle && IsGraph(c) && c !in extra
    ensures Svis(c, f, nextc, extra) == [c]
  {
  }

  lemma {:induction false} RawStep(src: seq<octet>, i: nat, f: Flags, extra: seq<octet>)
    requires i < |src| && !f.httpstyle && IsGraph(src[i]) && src[i] !in extra
    ensures Codes(src, i, f, extra) == [src[i]] + Codes(src, i + 1, f, extra)
  {
    hide *;
    RawGraph(src[i], f, NextOf(src, i), extra);
    FirstCode(src, i, f, extra);
  }

  /** Characters that stand for themselves. */
  lemma {:induction false} RawCodes(src: seq<octet>, i: nat, k: nat, f: Flags, extra: seq<octet>)
    requires i <= k <= |src| && !f.httpstyle && forall m :: i <= m < k ==> IsGraph(src[m]) && src[m] !in extra
    ensures Codes(src, i, f, extra) == src[i..k] + Codes(src, k, f, extra)
    decreases k - i
  {
    hide *;
    if i < k {
      RawStep(src, i, f, extra);
      RawCodes(src, i + 1, k, f, extra);
      var rest := Codes(src, k, f, extra);
      assert src[i..k] + rest == [src[i]] + (src[i + 1..k] + rest);
    } else {
      assert src[i..k] == [];
    }
  }

  lemma {:induction false} OneByte(c: octet, f: Flags, extra: seq<octet>)
    ensures Codes([c], 0, f, extra) == Code(c, f, 0, extra)
  {
    assert Codes([c], 1, f, extra) == [];
  }

  lemma {:induction false} TwoBytes(c: octet, e: octet, f: Flags, extra: seq<octet>)
    ensures Codes([c, e], 0, f, extra) == Code(c, f, e, extra) + Code(e, f, 0, extra)
  {
    assert Codes([c, e], 2, f, extra) == [];
    assert Codes([c, e], 1, f, extra) == Code(e, f, 0, extra) + [];
  }

  lemma {:induction false} MarkedGraphic(c: octet)
    requires c % 128 != 32
    ensures forall k :: 0 <= k < |Marked(c)| ==> IsGraph(Marked(c)[k])
  {
    var low := c % 128;
    var marks := if IsCntrl(low) then [94, if low == 127 then 63 else low + 64] else [45, low];
    assert IsGraph(marks[0]) && IsGraph(marks[1]);
    assert Marked(c) == (if c >= 128 then [77] else []) + marks;
  }

  lemma {:induction false} OctalGraphic(c: octet)
    ensures forall k :: 0 <= k < |Octal(c)| ==> IsGraph(Octal(c)[k])
  {
    OctalDigits(c);
    var x, y, z := c / 64 + 48, c / 8 % 8 + 48, c % 8 + 48;
    assert Octal(c) == [BACKSLASH, x, y, z];
    hide Octal;
  }

  lemma {:induction false} CStyleGraphic(c: octet)
    ensures forall k :: 0 <= k < |CStyle(c, 0)| ==> IsGraph(CStyle(c, 0)[k])
  {
    assert CLetter(c) == 0 || IsGraph(CLetter(c));
    hide CLetter;
  }

  /** The characters of a code are graphic. */
  lemma {:induction false} GraphicCode(c: octet, f: Flags, extra: seq<octet>)
    requires !Plain(c, f, extra)
    ensures forall k :: 0 <= k < |Svis(c, f, 0, extra)| ==> IsGraph(Svis(c, f, 0, extra)[k])
  {
    OctalGraphic(c);
    CStyleGraphic(c);
    if c % 128 != 32 {
      MarkedGraphic(c);
    }
    assert IsGraph(BACKSLASH);
    hide Octal, Marked, CStyle, IsGraph, Plain, IsExtra;
    if f.cstyle && CStyle(c, 0) != [] {
      assert Svis(c, f, 0, extra) == CStyle(c, 0);
    } else if IsExtra(c, extra) || c % 128 == 32 || f.octal {
      assert Svis(c, f, 0, extra) == Octal(c);
    } else {
      assert Svis(c, f, 0, extra) == (if f.noslash then [] else [BACKSLASH]) + Marked(c);
    }
  }

  /** What follows the backslash in the code of a byte that is no graphic character is no backslash. */
  lemma {:induction false} SecondNoSlash(c: octet, f: Flags, extra: seq<octet>)
    requires !f.noslash && !IsGraph(c) && |Svis(c, f, 0, extra)| >= 2
    ensures Svis(c, f, 0, extra)[0] == BACKSLASH && Svis(c, f, 0, extra)[1] != BACKSLASH
  {
    assert |Svis(c, f, 0, extra)| > 2 && BACKSLASH in extra ==> Svis(c, f, 0, extra)[1] != BACKSLASH by {
      if |Svis(c, f, 0, extra)| > 2 && BACKSLASH in extra {
        InnerSlash(c, f, 0, extra, 1);
      }
    }
    OctalInner(c);
    MarkedInner(c);
    assert |Octal(c)| == 4;
    hide Octal, Marked;
  }

  /** What is behind the backslash, up to n, is also the encoding of an extra character and of others. */
  lemma {:induction false} Spelled(w: seq<octet>, n: nat, tail: seq<octet>, f: Flags, extra: seq<octet>)
    requires !f.httpstyle && f.cstyle && 2 <= n <= |w| && w[0] == BACKSLASH && w[1] in extra && IsGraph(w[1])
    requires forall m :: 2 <= m < n ==> IsGraph(w[m]) && w[m] !in extra
    ensures Codes(w[1..n] + tail, 0, f, extra) == w[..n] + Codes(w[1..n] + tail, n - 1, f, extra)
  {
    var src := w[1..n] + tail;
    GraphCode(src[0], f, NextOf(src, 0), extra);
    FirstCode(src, 0, f, extra);
    Pieces(w, n, tail, Codes(src, n - 1, f, extra));
    hide *;
    forall m | 1 <= m < n - 1
      ensures IsGraph(src[m]) && src[m] !in extra
    {
      assert src[m] == w[m + 1];
    }
    RawCodes(src, 1, n - 1, f, extra);
  }

  lemma {:induction false} Pieces(w: seq<octet>, n: nat, tail: seq<octet>, rest: seq<octet>)
    requires 2 <= n <= |w|
    ensures (w[1..n] + tail)[1..n - 1] == w[2..n] && [w[0], w[1]] + (w[2..n] + rest) == w[..n] + rest
  {
  }

  /** If a code is shadowed, two byte strings have one encoding. */
  lemma {:induction false} ShadowCollides(c: octet, f: Flags, extra: seq<octet>) returns (a: seq<octet>, b: seq<octet>)
    requires !f.httpstyle && !f.noslash && f.cstyle && !IsGraph(c) && BACKSLASH in extra
    requires !Plain(c, f, extra) && Shadowed(Svis(c, f, 0, extra), extra)
    ensures a != b && Codes(a, 0, f, extra) == Codes(b, 0, f, extra)
  {
    var w := Svis(c, f, 0, extra);
    var n := |w|;
    GraphicCode(c, f, extra);
    SecondNoSlash(c, f, extra);
    forall m | 2 <= m < n - 1
      ensures w[m] !in extra
    {
      InnerSlash(c, f, 0, extra, m);
    }
    OneByte(c, f, extra);
    assert Code(c, f, 0, extra) == w;
    NextForZero(c, f, 118, extra);
    hide Svis, Plain;
    if w[n - 1] != BACKSLASH {
      a, b := [c], w[1..n] + [];
      Spelled(w, n, [], f, extra);
    } else {
      assert c != 0;
      a, b := Slashed(c, f, extra, w);
    }
  }

  /** The same for a code that ends in a backslash. */
  lemma {:induction false} Slashed(c: octet, f: Flags, extra: seq<octet>, w: seq<octet>)
    returns (a: seq<octet>, b: seq<octet>)
    requires !f.httpstyle && f.cstyle && |w| > 2 && w[0] == BACKSLASH == w[|w| - 1]
    requires Svis(c, f, 118, extra) == w && w[1] in extra && IsGraph(w[1])
    requires forall m :: 2 <= m < |w| - 1 ==> IsGraph(w[m]) && w[m] !in extra
    ensures a != b && Codes(a, 0, f, extra) == Codes(b, 0, f, extra)
  {
    var n := |w| - 1;
    OneByte(118, f, extra);
    OneByte(11, f, extra);
    GraphCode(118, f, 0, extra);
    assert Svis(11, f, 0, extra) == [BACKSLASH, 118];
    hide Svis;
    if 118 in extra {
      a, b := [118], [11];
    } else {
      TwoBytes(c, 118, f, extra);
      Spelled(w, n, [11], f, extra);
      a, b := [c, 118], w[1..n] + [11];
      assert Codes(b, n - 1, f, extra) == Code(11, f, 0, extra) + Codes(b, n, f, extra);
      assert Codes(b, n, f, extra) == [];
      assert w == w[..n] + [BACKSLASH];
      assert a[|a| - 1] != b[|b| - 1];
    }
  }

  /** `strsvisx` with backslashes can be read back exactly when C style is not chosen or no code is shadowed. */
  lemma {:induction false} DecodableWithIff(f: Flags, orig: seq<octet>)
    requires !f.noslash || f.httpstyle
    ensures DecodableWith(f, orig) <==> f.httpstyle || !f.cstyle || NoneShadowed(f, ExtraList(f, orig))
  {
    var extra := ExtraList(f, orig);
    if f.httpstyle {
      HttpDecodable(f, orig);
    } else {
      assert BACKSLASH in extra;
      if !f.cstyle || NoneShadowed(f, extra) {
        forall a, b | StrSVisXOf(a, f, orig) == StrSVisXOf(b, f, orig)
          ensures a == b
        {
          if f.cstyle {
            SameBytes(a, 0, b, 0, f, extra);
            assert a[0..] == a && b[0..] == b;
          } else {
            RoundTripWith(a, f, orig);
            RoundTripWith(b, f, orig);
          }
        }
      } else {
        var c :| !IsGraph(c) && !Plain(c, f, extra) && Shadowed(Svis(c, f, 0, extra), extra);
        var a, b := ShadowCollides(c, f, extra);
        assert StrSVisXOf(a, f, orig) == StrSVisXOf(b, f, orig);
      }
    }
  }

  /** The characters that can follow the backslash in the codes of other bytes: ^, M, 0 to 3, a, b, f, n, r, s, t, v. */
  const SHADOWING: seq<octet> := [94, 77, 48, 49, 50, 51, 97, 98, 102, 110, 114, 115, 116, 118]

  lemma {:induction false} SecondCharacter(c: octet, f: Flags, extra: seq<octet>)
    requires !f.noslash && !IsGraph(c) && |Svis(c, f, 0, extra)| >= 2
    ensures Svis(c, f, 0, extra)[1] in SHADOWING
  {
    assert Octal(c)[1] == c / 64 + 48 && 0 <= c / 64 < 4;
    assert c % 128 != 32 ==> Marked(c)[0] == 94 || Marked(c)[0] == 77;
    assert |Octal(c)| == 4 && |Marked(c)| >= 2;
    hide Octal, Marked;
  }

  /** Lists without these characters are harmless, and lists with the digit 0, the letter f or the letter v are not. */
  lemma {:induction false} HarmlessLists(f: Flags, extra: seq<octet>)
    requires !f.noslash && f.cstyle && BACKSLASH in extra
    ensures (forall x :: x in SHADOWING ==> x !in extra) ==> NoneShadowed(f, extra)
    ensures 48 in extra || 102 in extra || 118 in extra ==> !NoneShadowed(f, extra)
  {
    forall c | !IsGraph(c) && |Svis(c, f, 0, extra)| >= 2
      ensures Svis(c, f, 0, extra)[1] in SHADOWING
    {
      SecondCharacter(c, f, extra);
    }
    Letters(f, extra);
    hide Svis, Plain;
    assert 48 in extra ==> Shadowed(Svis(0, f, 0, extra), extra);
    assert 102 in extra ==> Shadowed(Svis(12, f, 0, extra), extra);
    assert 118 in extra ==> Shadowed(Svis(11, f, 0, extra), extra);
  }

  lemma {:induction false} Letters(f: Flags, extra: seq<octet>)
    requires f.cstyle
    ensures Svis(0, f, 0, extra) == [BACKSLASH, 48] && !Plain(0, f, extra)
    ensures Svis(12, f, 0, extra) == [BACKSLASH, 102] && !Plain(12, f, extra)
    ensures Svis(11, f, 0, extra) == [BACKSLASH, 118] && !Plain(11, f, extra)
  {
  }

  /** In HTTP style equal encodings begin with the code of one byte. */
  lemma {:induction false} SameHttp(c: octet, x: octet, r: seq<octet>, e: octet, y: octet, t: seq<octet>,
                                    f: Flags, extra: seq<octet>)
    requires Hvis(c, f, x, extra) + r == Hvis(e, f, y, extra) + t
    ensures c == e && r == t
  {
    hide Hvis, HexDigit, HexValue, OctalValue, IsOctal;
    HttpForm(c, f, x, extra);
    HttpForm(e, f, y, extra);
    var w, u := Hvis(c, f, x, extra), Hvis(e, f, y, extra);
    var s := w + r;
    assert s == u + t && w[0] == s[0] == u[0];
    if w[0] == 37 {
      assert w[1] == s[1] == u[1] && w[2] == s[2] == u[2];
      HexDigits(c);
      HexDigits(e);
    } else if w[0] == BACKSLASH {
      assert w[1] == s[1] == u[1];
      if !f.cstyle {
        assert w[2] == s[2] == u[2] && w[3] == s[3] == u[3];
        OctalDigits(c);
        OctalDigits(e);
        assert c / 64 == e / 64 && c / 8 % 8 == e / 8 % 8 && c % 8 == e % 8;
      }
    }
    Behind(w, r, u, t);
  }

  /** The three forms of codes in HTTP style; extra letters and digits are written behind a backslash. */
  lemma {:induction false} HttpForm(c: octet, f: Flags, nextc: octet, extra: seq<octet>)
    ensures var w := Hvis(c, f, nextc, extra);
            || w == [37, HexDigit(c / 16), HexDigit(c % 16)]
            || (w == [c] && c != 37 && c != BACKSLASH)
            || (w == if f.cstyle then [BACKSLASH, c] else Octal(c))
  {
  }

  lemma {:induction false} SameHttpBytes(a: seq<octet>, i: nat, b: seq<octet>, j: nat, f: Flags, extra: seq<octet>)
    requires f.httpstyle && i <= |a| && j <= |b| && Codes(a, i, f, extra) == Codes(b, j, f, extra)
    ensures a[i..] == b[j..]
    decreases |a| - i
  {
    hide Hvis, NextOf;
    CodesLength(a, i, f, extra);
    CodesLength(b, j, f, extra);
    if i < |a| && j < |b| {
      SameHttp(a[i], NextOf(a, i), Codes(a, i + 1, f, extra), b[j], NextOf(b, j), Codes(b, j + 1, f, extra), f, extra);
      SameHttpBytes(a, i + 1, b, j + 1, f, extra);
      assert a[i..] == [a[i]] + a[i + 1..] && b[j..] == [b[j]] + b[j + 1..];
    }
  }

  lemma {:induction false} HttpDecodable(f: Flags, orig: seq<octet>)
    requires f.httpstyle
    ensures DecodableWith(f, orig)
  {
    forall a, b | StrSVisXOf(a, f, orig) == StrSVisXOf(b, f, orig)
      ensures a == b
    {
      SameHttpBytes(a, 0, b, 0, f, ExtraList(f, orig));
      assert a[0..] == a && b[0..] == b;
    }
  }

  /** A code whose characters all stand for themselves is also the encoding of these characters. */
  lemma {:induction false} RawCollides(c: octet, f: Flags, extra: seq<octet>)
    requires !f.httpstyle && !Plain(c, f, extra) && forall x :: x in Svis(c, f, 0, extra) ==> x !in extra
    ensures var w := Svis(c, f, 0, extra); w != [c] && Codes([c], 0, f, extra) == w == Codes(w, 0, f, extra)
  {
    var w := Svis(c, f, 0, extra);
    OneByte(c, f, extra);
    GraphicCode(c, f, extra);
    NoCodeOfItself(c, f, extra);
    assert Code(c, f, 0, extra) == w;
    hide Svis;
    RawCodes(w, 0, |w|, f, extra);
    assert Codes(w, |w|, f, extra) == [];
  }

  lemma {:induction false} NoCodeOfItself(c: octet, f: Flags, extra: seq<octet>)
    requires !Plain(c, f, extra)
    ensures |Svis(c, f, 0, extra)| >= 2
  {
  }

  /** Without backslashes the code of the byte one is also the code of the printable characters in it. */
  lemma {:induction false} NoslashCollides(f: Flags)
    requires f.noslash && !f.httpstyle
    ensures StrVisX([1], f) == StrVisX(if f.octal then [BACKSLASH, 48, 48, 49] else [94, 65], f)
  {
    forall x
      ensures x in Extras(f) ==> x == 32 || x == 9 || x == 10
    {
      ExtrasAre(f, x);
    }
    ByteOne(f, Extras(f));
    hide Extras;
    RawCollides(1, f, Extras(f));
  }

  lemma {:induction false} ByteOne(f: Flags, extra: seq<octet>)
    requires f.noslash && 1 !in extra
    ensures Svis(1, f, 0, extra) == if f.octal then [BACKSLASH, 48, 48, 49] else [94, 65]
    ensures !Plain(1, f, extra)
  {
  }

  /** Whatever the flags are, `strsvisx` can be read back only if every code has an extra character in it. */
  lemma {:induction false} DecodableNeeds(f: Flags, orig: seq<octet>, c: octet)
    requires !f.httpstyle && !Plain(c, f, ExtraList(f, orig))
    requires forall x :: x in Svis(c, f, 0, ExtraList(f, orig)) ==> x !in ExtraList(f, orig)
    ensures !DecodableWith(f, orig)
  {
    RawCollides(c, f, ExtraList(f, orig));
    assert StrSVisXOf([c], f, orig) == StrSVisXOf(Svis(c, f, 0, ExtraList(f, orig)), f, orig);
  }

  /** The result of `strvisx` fits into a buffer of four times the length. */
  lemma {:induction false} FourTimes(src: seq<octet>, f: Flags)
    ensures |src| <= |StrVisX(src, f)| <= 4 * |src|
  {
    CodesLength(src, 0, f, Extras(f));
  }
}
