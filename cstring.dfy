/** The C library string routines the connection code relies on, over `seq<char>`.
    A C string is modelled by the characters before its terminating NUL, so none of
    the sequences handed to these functions contains '\0'. Case folding is that of
    the "C" locale (ASCII letters only). */
module CString {

  datatype Option<T> = None | Some(value: T)

  /** The accept set " \t" used by every strpbrk/strspn call of the parser. */
  const BLANKS: seq<char> := " \t"
  /** The characters isspace() accepts in the "C" locale. */
  const SPACES: seq<char> := " \t\n\U{0B}\U{0C}\r"

  function Min(a: nat, b: nat): nat {
    if a <= b then a else b
  }

  predicate IsDigit(c: char) { '0' <= c <= '9' }

  /** isspace() in the "C" locale. */
  predicate IsSpace(c: char) { c in SPACES }

  function ToLower(c: char): char {
    if 'A' <= c <= 'Z' then (c as int + 32) as char else c
  }

  /** strcasecmp(a, b) == 0, compared character by character from the front. */
  predicate CaseEq(a: seq<char>, b: seq<char>) {
    |a| == |b| && (a == [] || (ToLower(a[0]) == ToLower(b[0]) && CaseEq(a[1..], b[1..])))
  }

  /** Two strings compare equal ignoring case exactly when they have the same length
      and agree at every position once folded to lower case. */
  lemma {:induction false} CaseEqSpec(a: seq<char>, b: seq<char>)
    ensures CaseEq(a, b) <==> |a| == |b| && forall i :: 0 <= i < |a| ==> ToLower(a[i]) == ToLower(b[i])
  {
    if |a| == |b| && a != [] {
      CaseEqSpec(a[1..], b[1..]);
      assert forall i :: 1 <= i < |a| ==> a[i] == a[1..][i - 1] && b[i] == b[1..][i - 1];
    }
  }

  lemma {:induction false} CaseEqRefl(a: seq<char>)
    ensures CaseEq(a, a)
  {
    CaseEqSpec(a, a);
  }

  /** One differing position makes the comparison fail. */
  lemma {:induction false} CaseEqDiffers(a: seq<char>, b: seq<char>, i: nat)
    requires i < |a| && i < |b| && ToLower(a[i]) != ToLower(b[i])
    ensures !CaseEq(a, b)
  {
    CaseEqSpec(a, b);
  }

  /** strncasecmp(s, p, |p|) == 0, for a pattern p without NUL: a shorter s
      differs from p at its own terminator. */
  predicate PrefixCaseEq(s: seq<char>, p: seq<char>) {
    |s| >= |p| && CaseEq(s[..|p|], p)
  }

  lemma {:induction false} PrefixCaseEqSelf(p: seq<char>, rest: seq<char>)
    ensures PrefixCaseEq(p + rest, p)
  {
    assert (p + rest)[..|p|] == p;
    CaseEqRefl(p);
  }

  lemma {:induction false} PrefixCaseEqDiffers(s: seq<char>, p: seq<char>, i: nat)
    requires i < |s| && i < |p| && ToLower(s[i]) != ToLower(p[i])
    ensures !PrefixCaseEq(s, p)
  {
    if |s| >= |p| {
      CaseEqDiffers(s[..|p|], p, i);
    }
  }

  /** strpbrk(s, accept): the index of the first character of s that is in accept. */
  function Strpbrk(s: seq<char>, accept: seq<char>): (r: Option<nat>)
    ensures r.Some? ==> r.value < |s|
  {
    if s == [] then None
    else if s[0] in accept then Some(0)
    else match Strpbrk(s[1..], accept)
      case None => None
      case Some(k) => Some(k + 1)
  }

  /** strpbrk finds the first character of s in accept, and reports none only when
      there is none. */
  lemma {:induction false} StrpbrkSpec(s: seq<char>, accept: seq<char>)
    ensures var r := Strpbrk(s, accept);
      && (r.Some? ==> s[r.value] in accept && forall i :: 0 <= i < r.value ==> s[i] !in accept)
      && (r.None? ==> forall i :: 0 <= i < |s| ==> s[i] !in accept)
  {
    if s != [] && s[0] !in accept {
      StrpbrkSpec(s[1..], accept);
      assert forall i :: 1 <= i < |s| ==> s[i] == s[1..][i - 1];
    }
  }

  lemma {:induction false} StrpbrkIs(s: seq<char>, accept: seq<char>, k: nat)
    requires k < |s| && s[k] in accept
    requires forall i :: 0 <= i < k ==> s[i] !in accept
    ensures Strpbrk(s, accept) == Some(k)
  {
    StrpbrkSpec(s, accept);
  }

  /** The length of the longest prefix of s whose characters all satisfy p. */
  function Span(s: seq<char>, p: char -> bool): (n: nat)
    ensures n <= |s|
  {
    if s == [] || !p(s[0]) then 0 else 1 + Span(s[1..], p)
  }

  /** The span is the longest prefix of characters satisfying p. */
  lemma {:induction false} SpanSpec(s: seq<char>, p: char -> bool)
    ensures var n := Span(s, p);
      (forall i :: 0 <= i < n ==> p(s[i])) && (n < |s| ==> !p(s[n]))
  {
    if s != [] && p(s[0]) {
      SpanSpec(s[1..], p);
      assert forall i :: 1 <= i < |s| ==> s[i] == s[1..][i - 1];
    }
  }

  /** strspn(s, accept): the length of the longest prefix of s made of characters of accept. */
  function Strspn(s: seq<char>, accept: seq<char>): (n: nat)
    ensures n <= |s|
  {
    if s == [] || s[0] !in accept then 0 else 1 + Strspn(s[1..], accept)
  }

  lemma {:induction false} StrspnSpec(s: seq<char>, accept: seq<char>)
    ensures var n := Strspn(s, accept);
      (forall i :: 0 <= i < n ==> s[i] in accept) && (n < |s| ==> s[n] !in accept)
  {
    if s != [] && s[0] in accept {
      StrspnSpec(s[1..], accept);
      assert forall i :: 1 <= i < |s| ==> s[i] == s[1..][i - 1];
    }
  }

  lemma {:induction false} StrspnIs(s: seq<char>, accept: seq<char>, n: nat)
    requires n <= |s|
    requires forall i :: 0 <= i < n ==> s[i] in accept
    requires n < |s| ==> s[n] !in accept
    ensures Strspn(s, accept) == n
  {
    StrspnSpec(s, accept);
  }

  /** strchr(s, c) for a non-NUL c. */
  function Strchr(s: seq<char>, c: char): Option<nat> {
    Strpbrk(s, [c])
  }

  function DigitValue(c: char): nat
    requires IsDigit(c)
  {
    c as int - '0' as int
  }

  function DigitChar(d: nat): (c: char)
    requires d < 10
    ensures IsDigit(c) && DigitValue(c) == d
  {
    ('0' as int + d) as char
  }

  /** The value of a run of decimal digits, most significant first. */
  function DigitsValue(ds: seq<char>): nat
    requires forall i :: 0 <= i < |ds| ==> IsDigit(ds[i])
  {
    if ds == [] then 0 else 10 * DigitsValue(ds[..|ds| - 1]) + DigitValue(ds[|ds| - 1])
  }

  /** The unsigned part of atol: the digits at the head of s. */
  function LeadingValue(s: seq<char>): nat {
    var n := Span(s, IsDigit);
    SpanSpec(s, IsDigit);
    assert forall i :: 0 <= i < n ==> IsDigit(s[..n][i]);
    DigitsValue(s[..n])
  }

  /** atol(s): leading white space, an optional sign, then decimal digits; anything
      after the digits is ignored and no digits give 0. The result is not narrowed
      to the width of long. */
  function Atol(s: seq<char>): int {
    var t := s[Span(s, IsSpace)..];
    if |t| > 0 && t[0] == '-' then 0 - LeadingValue(t[1..])
    else if |t| > 0 && t[0] == '+' then LeadingValue(t[1..])
    else LeadingValue(t)
  }

  /** The digits printf's %d writes for a non-negative value. */
  function Decimal(n: nat): (r: seq<char>)
    ensures |r| >= 1
    ensures forall i :: 0 <= i < |r| ==> IsDigit(r[i])
    ensures r[0] == '0' ==> n == 0
    decreases n
  {
    if n < 10 then [DigitChar(n)] else Decimal(n / 10) + [DigitChar(n % 10)]
  }

  /** printf's %d for any int. */
  function FormatInt(n: int): (r: seq<char>)
    ensures |r| >= 1
  {
    if n < 0 then "-" + Decimal(-n) else Decimal(n)
  }

  function Pow10(k: nat): nat {
    if k == 0 then 1 else 10 * Pow10(k - 1)
  }

  /** A number below 10^k has at most k digits. */
  lemma {:induction false} DecimalLength(n: nat, k: nat)
    requires 1 <= k && n < Pow10(k)
    ensures |Decimal(n)| <= k
    decreases k
  {
    if n >= 10 {
      assert k >= 2;
      assert n / 10 < Pow10(k - 1);
      DecimalLength(n / 10, k - 1);
    }
  }

  lemma {:induction false} DecimalValue(n: nat)
    ensures DigitsValue(Decimal(n)) == n
    decreases n
  {
    if n >= 10 {
      DecimalValue(n / 10);
      var r := Decimal(n);
      assert r[..|r| - 1] == Decimal(n / 10);
    }
  }

  /** atol of a string that does not start with white space looks at its sign at once. */
  lemma {:induction false} AtolNoSpace(s: seq<char>)
    requires |s| > 0 && !IsSpace(s[0])
    ensures Atol(s) == if s[0] == '-' then 0 - LeadingValue(s[1..])
                       else if s[0] == '+' then LeadingValue(s[1..])
                       else LeadingValue(s)
  {
    assert Span(s, IsSpace) == 0;
    assert s[0..] == s;
  }

  /** A run made only of digits is read whole. */
  lemma {:induction false} LeadingValueAll(ds: seq<char>)
    requires forall i :: 0 <= i < |ds| ==> IsDigit(ds[i])
    ensures LeadingValue(ds) == DigitsValue(ds)
  {
    SpanSpec(ds, IsDigit);
    assert Span(ds, IsDigit) == |ds|;
    assert ds[..|ds|] == ds;
  }

  /** %d then atol gives back the value: the round trip between the Content-Length
      header the server writes and the one it parses. */
  lemma {:induction false} AtolFormatInt(n: int)
    ensures Atol(FormatInt(n)) == n
  {
    var m := if n < 0 then -n else n;
    var ds := Decimal(m);
    DecimalValue(m);
    AtolDigits(ds);
  }

  /** A run of digits, with or without a minus sign in front, is read whole. */
  lemma {:induction false} AtolDigits(ds: seq<char>)
    requires |ds| > 0 && forall i :: 0 <= i < |ds| ==> IsDigit(ds[i])
    ensures Atol(ds) == DigitsValue(ds)
    ensures Atol("-" + ds) == 0 - DigitsValue(ds)
  {
    LeadingValueAll(ds);
    AtolNoSpace(ds);
    var r := "-" + ds;
    AtolNoSpace(r);
    assert r[1..] == ds;
  }

  /** Where the C string that starts at k ends: the first NUL at or after k, or the
      end of the buffer. */
  function CEnd(buf: seq<char>, k: nat): (e: nat)
    requires k <= |buf|
    ensures k <= e <= |buf|
    decreases |buf| - k
  {
    if k == |buf| || buf[k] == '\0' then k else CEnd(buf, k + 1)
  }

  /** The end found is the first NUL at or after k. */
  lemma {:induction false} CEndSpec(buf: seq<char>, k: nat)
    requires k <= |buf|
    ensures var e := CEnd(buf, k);
      (forall i :: k <= i < e ==> buf[i] != '\0') && (e < |buf| ==> buf[e] == '\0')
    decreases |buf| - k
  {
    if k < |buf| && buf[k] != '\0' {
      CEndSpec(buf, k + 1);
    }
  }

  /** The C string at offset k of a buffer. */
  function CStr(buf: seq<char>, k: nat): (s: seq<char>)
    requires k <= |buf|
    ensures |s| <= |buf| - k
  {
    buf[k..CEnd(buf, k)]
  }

  lemma {:induction false} CStrHasNoNul(buf: seq<char>, k: nat)
    requires k <= |buf|
    ensures '\0' !in CStr(buf, k)
  {
    CEndSpec(buf, k);
  }

  /** Any index with the two properties of CEndSpec is the end. */
  lemma {:induction false} CEndUnique(buf: seq<char>, k: nat, e: nat)
    requires k <= e <= |buf|
    requires forall i :: k <= i < e ==> buf[i] != '\0'
    requires e < |buf| ==> buf[e] == '\0'
    ensures CEnd(buf, k) == e
    decreases e - k
  {
    if k < e {
      CEndUnique(buf, k + 1, e);
    }
  }

  /** Writing a NUL inside the C string at k cuts it there; writing one before k
      leaves it alone. These are the two ways parse_request_line's in-place cuts
      change the strings the later calls read. */
  lemma {:induction false} CStrAfterCut(buf: seq<char>, k: nat, c: nat)
    requires k <= |buf| && c < |buf|
    ensures c < k ==> CStr(buf[c := '\0'], k) == CStr(buf, k)
    ensures k <= c < CEnd(buf, k) ==> CStr(buf[c := '\0'], k) == buf[k..c]
  {
    var b := buf[c := '\0'];
    CEndSpec(buf, k);
    if c < k {
      CEndUnique(b, k, CEnd(buf, k));
    } else if c < CEnd(buf, k) {
      CEndUnique(b, k, c);
    }
  }

  /** A C string that starts inside another is a tail of it. */
  lemma {:induction false} CStrSuffix(buf: seq<char>, k: nat, j: nat)
    requires k <= |buf| && k + j <= CEnd(buf, k)
    ensures CEnd(buf, k + j) == CEnd(buf, k)
    ensures CStr(buf, k + j) == CStr(buf, k)[j..]
  {
    CEndSpec(buf, k);
    CEndUnique(buf, k + j, CEnd(buf, k));
  }

  /** buf with the bytes d written from position at, one index at a time. */
  lemma {:induction false} SpliceIndex(buf: seq<char>, at: nat, d: seq<char>)
    requires at + |d| <= |buf|
    ensures var r := buf[..at] + d + buf[at + |d|..];
      && |r| == |buf|
      && forall j :: 0 <= j < |buf| ==> r[j] == if at <= j < at + |d| then d[j - at] else buf[j]
  {
  }
}
