/** The basic character set and scanning in it (citrus_bcs.h, citrus_bcs.c).  The scanners work on
    the bytes [i, k) of a text s; each loop is tied to the position it is to find. */
module CitrusBcs {
  import opened Octets

  predicate IsBlank(c: octet) {
    c == 32 || c == 9
  }

  predicate IsEol(c: octet) {
    c == 10 || c == 13
  }

  predicate IsSpace(c: octet) {
    IsBlank(c) || IsEol(c) || c == 12 || c == 11
  }

  predicate IsUpper(c: octet) {
    65 <= c <= 90
  }

  predicate IsLower(c: octet) {
    97 <= c <= 122
  }

  function ToUpper(c: octet): octet {
    if IsLower(c) then c - 97 + 65 else c
  }

  function ToLower(c: octet): octet {
    if IsUpper(c) then c - 65 + 97 else c
  }

  /** `_citrus_bcs_convert_to_lower` of a string. */
  function Lower(s: seq<octet>): (r: seq<octet>)
    ensures |r| == |s| && forall k :: 0 <= k < |s| ==> r[k] == ToLower(s[k])
  {
    seq(|s|, k requires 0 <= k < |s| => ToLower(s[k]))
  }

  /** The capital letters of ASCII become small ones, and converting twice changes nothing more. */
  lemma {:induction false} LowerTwice(s: seq<octet>)
    ensures Lower(Lower(s)) == Lower(s)
    ensures forall k :: 0 <= k < |s| ==> Lower(s)[k] == if 65 <= s[k] <= 90 then s[k] + 32 else s[k]
  {
  }

  predicate NoNul(s: seq<octet>) {
    forall k :: 0 <= k < |s| ==> s[k] != 0
  }

  /** The first byte that is not white space, or k. */
  function WsEnd(s: seq<octet>, i: nat, k: nat): (j: nat)
    requires i <= k <= |s|
    ensures i <= j <= k
    decreases k - i
  {
    if i < k && IsSpace(s[i]) then WsEnd(s, i + 1, k) else i
  }

  predicate AllSpace(s: seq<octet>, i: nat, k: nat)
    requires k <= |s|
  {
    forall m :: i <= m < k ==> 9 <= s[m] <= 13 || s[m] == 32
  }

  lemma {:induction false} WsEndIs(s: seq<octet>, i: nat, j: nat, k: nat)
    requires i <= j <= k <= |s|
    ensures WsEnd(s, i, k) == j <==> AllSpace(s, i, j) && (j < k ==> !IsSpace(s[j]))
    decreases k - i
  {
    if i < k && IsSpace(s[i]) && i < j {
      WsEndIs(s, i + 1, j, k);
    }
  }

  /** The first byte that is white space or NUL, or k. */
  function WordEnd(s: seq<octet>, i: nat, k: nat): (j: nat)
    requires i <= k <= |s|
    ensures i <= j <= k
    decreases k - i
  {
    if i < k && !IsSpace(s[i]) && s[i] != 0 then WordEnd(s, i + 1, k) else i
  }

  predicate AllWord(s: seq<octet>, i: nat, k: nat)
    requires k <= |s|
  {
    forall m :: i <= m < k ==> !IsSpace(s[m]) && s[m] != 0
  }

  lemma {:induction false} WordEndIs(s: seq<octet>, i: nat, j: nat, k: nat)
    requires i <= j <= k <= |s|
    ensures WordEnd(s, i, k) == j <==> AllWord(s, i, j) && (j < k ==> IsSpace(s[j]) || s[j] == 0)
    decreases k - i
  {
    if i < k && !IsSpace(s[i]) && s[i] != 0 && i < j {
      WordEndIs(s, i + 1, j, k);
    }
  }

  /** The end of the bytes [i, k) without the white space at their end. */
  function TrimEnd(s: seq<octet>, i: nat, k: nat): (j: nat)
    requires i <= k <= |s|
    ensures i <= j <= k
    decreases k
  {
    if i < k && IsSpace(s[k - 1]) then TrimEnd(s, i, k - 1) else k
  }

  lemma {:induction false} TrimEndIs(s: seq<octet>, i: nat, j: nat, k: nat)
    requires i <= j <= k <= |s|
    ensures TrimEnd(s, i, k) == j <==> AllSpace(s, j, k) && (i < j ==> !IsSpace(s[j - 1]))
    decreases k
  {
    if i < k && IsSpace(s[k - 1]) && j < k {
      TrimEndIs(s, i, j, k - 1);
    }
  }

  /** `_citrus_bcs_skip_ws_len`. The C code looks at the byte before it looks at the length, and so also at the byte
      behind the last one, which decides nothing. */
  method SkipWsLen(s: seq<octet>, p0: nat, len0: nat) returns (p: nat, len: nat)
    requires p0 + len0 <= |s|
    ensures p == WsEnd(s, p0, p0 + len0) && p + len == p0 + len0
  {
    p, len := p0, len0;
    while len > 0 && s[p] != 0 && IsSpace(s[p])
      invariant p0 <= p && p + len == p0 + len0
      invariant WsEnd(s, p, p0 + len0) == WsEnd(s, p0, p0 + len0)
    {
      p := p + 1;
      len := len - 1;
    }
  }

  /** `_citrus_bcs_skip_nonws_len` */
  method SkipNonwsLen(s: seq<octet>, p0: nat, len0: nat) returns (p: nat, len: nat)
    requires p0 + len0 <= |s|
    ensures p == WordEnd(s, p0, p0 + len0) && p + len == p0 + len0
  {
    p, len := p0, len0;
    while len > 0 && s[p] != 0 && !IsSpace(s[p])
      invariant p0 <= p && p + len == p0 + len0
      invariant WordEnd(s, p, p0 + len0) == WordEnd(s, p0, p0 + len0)
    {
      p := p + 1;
      len := len - 1;
    }
  }

  /** `_citrus_bcs_trunc_rws_len` */
  method TruncRwsLen(s: seq<octet>, p: nat, len0: nat) returns (len: nat)
    requires p + len0 <= |s|
    ensures p + len == TrimEnd(s, p, p + len0)
  {
    len := len0;
    while len > 0 && IsSpace(s[p + len - 1])
      invariant len <= len0 && TrimEnd(s, p, p + len) == TrimEnd(s, p, p + len0)
    {
      len := len - 1;
    }
  }

  /** Whether `_citrus_bcs_strncasecmp(a, b, n)` is 0 for strings of at least n characters. */
  method StrnCaseEqual(a: seq<octet>, b: seq<octet>, n: nat) returns (equal: bool)
    requires n <= |a| && n <= |b| && NoNul(a[..n]) && NoNul(b[..n])
    ensures equal <==> Lower(a[..n]) == Lower(b[..n])
  {
    var c1, c2, k := 1, 1, 0;
    while c1 != 0 && c2 != 0 && c1 == c2 && k < n
      invariant 0 <= k <= n
      invariant forall m :: 0 <= m < k - 1 ==> ToLower(a[m]) == ToLower(b[m])
      invariant if k == 0 then c1 == c2 == 1 else c1 == ToUpper(a[k - 1]) && c2 == ToUpper(b[k - 1])
      decreases n - k
    {
      SameCase(if k == 0 then 1 else a[k - 1], if k == 0 then 1 else b[k - 1]);
      c1 := ToUpper(a[k]);
      c2 := ToUpper(b[k]);
      k := k + 1;
    }
    equal := c1 == c2;
    if k > 0 {
      SameCase(a[k - 1], b[k - 1]);
      assert a[..n][k - 1] == a[k - 1] && b[..n][k - 1] == b[k - 1];
      assert Lower(a[..n])[k - 1] == ToLower(a[k - 1]) && Lower(b[..n])[k - 1] == ToLower(b[k - 1]);
    }
  }

  /** Two characters differ in upper case when they differ in lower case. */
  lemma {:induction false} SameCase(a: octet, b: octet)
    ensures ToUpper(a) == ToUpper(b) <==> ToLower(a) == ToLower(b)
  {
  }
}
