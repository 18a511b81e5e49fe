/** What the visual encoding looks like, in characters (gen/vis.c): which bytes `strvisx` leaves as they are, and what
    the flags make of the others. */
module VisForms {
  import opened Octets
  import opened Vis
  import opened VisDecode

  /** Graphic characters, with the backslash only under VIS_NOSLASH; space, tab and newline unless VIS_SP, VIS_TAB and
      VIS_NL say otherwise; backspace, bell and carriage return under VIS_SAFE. */
  predicate Raw(c: octet, f: Flags) {
    || (33 <= c <= 126 && (c == 92 ==> f.noslash))
    || (c == 32 && !f.sp)
    || (c == 9 && !f.tab)
    || (c == 10 && !f.nl)
    || ((c == 7 || c == 8 || c == 13) && f.safe)
  }

  lemma {:induction false} RawIsPlain(c: octet, f: Flags)
    ensures Plain(c, f, Extras(f)) <==> Raw(c, f)
  {
    ExtrasAre(f, c);
    hide Extras;
  }

  /** The bytes that stand for themselves. */
  lemma {:induction false} RawIff(c: octet, f: Flags, nextc: octet)
    requires !f.httpstyle
    ensures Code(c, f, nextc, Extras(f)) == [c] <==> Raw(c, f)
  {
    RawIsPlain(c, f);
    if !Raw(c, f) {
      Longer(c, f, nextc, Extras(f));
    }
    hide Extras;
  }

  lemma {:induction false} Longer(c: octet, f: Flags, nextc: octet, extra: seq<octet>)
    requires !Plain(c, f, extra)
    ensures |Svis(c, f, nextc, extra)| >= 2
  {
  }

  /** With VIS_OCTAL, and not VIS_CSTYLE, all others are three octal digits behind a backslash. */
  lemma {:induction false} OctalObeyed(c: octet, f: Flags, nextc: octet)
    requires !f.httpstyle && f.octal && !f.cstyle && !Raw(c, f)
    ensures Code(c, f, nextc, Extras(f)) == [92, 48 + c / 64, 48 + c / 8 % 8, 48 + c % 8]
  {
    RawIsPlain(c, f);
    hide Extras;
  }

  /** With VIS_CSTYLE the others are letters where C has them; a zero is written so that no digit can follow it. */
  lemma {:induction false} CStyleObeyed(c: octet, f: Flags, nextc: octet)
    requires !f.httpstyle && f.cstyle && !Raw(c, f)
    ensures var w := Code(c, f, nextc, Extras(f));
            && (c == 0 ==> w == if 48 <= nextc <= 55 then [92, 48, 48, 48] else [92, 48])
            && (c == 7 ==> w == [92, 97]) && (c == 8 ==> w == [92, 98]) && (c == 9 ==> w == [92, 116])
            && (c == 10 ==> w == [92, 110]) && (c == 11 ==> w == [92, 118]) && (c == 12 ==> w == [92, 102])
            && (c == 13 ==> w == [92, 114]) && (c == 32 ==> w == [92, 115]) && (c == 92 ==> w == [92, 92])
  {
    RawIsPlain(c, f);
    hide Extras;
  }

  /** What C style has a form of its own for, if it is not left as it is. */
  predicate HasLetter(c: octet) {
    c == 0 || 7 <= c <= 13 || c == 32 || c == 92
  }

  /** The rest is marked: ^ for control characters and M for the eighth bit; octal digits stand for what would be an extra
      character and for the space with the eighth bit. */
  lemma {:induction false} OthersMarked(c: octet, f: Flags, nextc: octet)
    requires !f.httpstyle && !Raw(c, f) && !f.octal && (f.cstyle ==> !HasLetter(c))
    ensures Code(c, f, nextc, Extras(f)) ==
            if c == 0 || c == 9 || c == 10 || c == 32 || c == 92 || c == 160 then
              [92, 48 + c / 64, 48 + c / 8 % 8, 48 + c % 8]
            else (if f.noslash then [] else [92])
                 + if c < 32 then [94, c + 64]
                   else if c == 127 then [94, 63]
                   else if c < 160 then [77, 94, c - 64]
                   else if c == 255 then [77, 94, 63]
                   else [77, 45, c - 128]
  {
    RawIsPlain(c, f);
    ExtrasAre(f, c);
    hide Extras, Octal, Plain;
    assert CStyle(c, nextc) == [] || HasLetter(c) || IsGraph(c);
    if f.cstyle {
      assert CStyle(c, nextc) == [];
    }
    if IsExtra(c, Extras(f)) || c == 160 {
      OctalIs(c);
    } else {
      MarkedIs(c);
      hide Marked;
    }
  }

  lemma {:induction false} OctalIs(c: octet)
    ensures Octal(c) == [92, 48 + c / 64, 48 + c / 8 % 8, 48 + c % 8]
  {
  }

  lemma {:induction false} MarkedIs(c: octet)
    requires (c < 32 || c >= 127) && c != 160
    ensures Marked(c) == if c < 32 then [94, c + 64]
                         else if c == 127 then [94, 63]
                         else if c < 160 then [77, 94, c - 64]
                         else if c == 255 then [77, 94, 63]
                         else [77, 45, c - 128]
  {
  }

  /** In HTTP style letters and digits stand for themselves, and all others are two hexadecimal digits behind a percent
      sign. */
  lemma {:induction false} HttpObeyed(c: octet, f: Flags, nextc: octet)
    requires f.httpstyle
    ensures Code(c, f, nextc, Extras(f)) ==
            if 48 <= c <= 57 || 65 <= c <= 90 || 97 <= c <= 122 then [c]
            else
              var high, low := c / 16, c % 16;
              [37, if high < 10 then 48 + high else 87 + high, if low < 10 then 48 + low else 87 + low]
  {
    ExtrasAre(f, c);
    hide Extras;
  }

  lemma {:induction false} AtLeast(src: seq<octet>, i: nat, k: nat, f: Flags)
    requires i <= k < |src| && !f.httpstyle && !Raw(src[k], f)
    ensures |Codes(src, i, f, Extras(f))| > |src| - i
    decreases k - i
  {
    FirstCode(src, i, f, Extras(f));
    RawIsPlain(src[k], f);
    Longer(src[k], f, NextOf(src, k), Extras(f));
    CodeLength(src[i], f, NextOf(src, i), Extras(f));
    CodesLength(src, i + 1, f, Extras(f));
    hide Raw, Extras, Svis, Codes;
    if i < k {
      AtLeast(src, i + 1, k, f);
    }
  }

  lemma {:induction false} AllRaw(src: seq<octet>, i: nat, f: Flags)
    requires i <= |src| && !f.httpstyle && forall k :: i <= k < |src| ==> Raw(src[k], f)
    ensures Codes(src, i, f, Extras(f)) == src[i..]
    decreases |src| - i
  {
    hide Raw, Extras, Code, NextOf;
    if i < |src| {
      RawIff(src[i], f, NextOf(src, i));
      AllRaw(src, i + 1, f);
      assert src[i..] == [src[i]] + src[i + 1..];
    }
  }

  /** `strvisx` leaves a string as it is exactly when each of its bytes stands for itself. */
  lemma {:induction false} UnchangedIff(src: seq<octet>, f: Flags)
    requires !f.httpstyle
    ensures StrVisX(src, f) == src <==> forall k :: 0 <= k < |src| ==> Raw(src[k], f)
  {
    hide Raw, Codes;
    if k :| 0 <= k < |src| && !Raw(src[k], f) {
      AtLeast(src, 0, k, f);
    } else {
      AllRaw(src, 0, f);
      assert src[0..] == src;
    }
  }
}
