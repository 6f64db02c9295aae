/** The connection object http_conn: its buffers and indices, the request parser
    that works in place on the read buffer, the resolver, the response builder and
    the non-blocking read and write loops, as a class whose methods change its fields
    as the C++ member functions do. Every method is proved to act on the fields as
    the functions of RequestParser, Resolver, Response and Socket say. Socket calls
    are replaced by the sequence of results they return (Socket.RecvResult,
    Socket.WritevResult) and the epoll registrations are recorded in epollLog. */
module Connection {
  import opened CString
  import opened Http
  import opened Scanner
  import opened RequestParser
  import opened Resolver
  import opened Response
  import opened Socket

  /** The static m_user_count, shared by every connection. */
  class UserCount {
    var count: int

    constructor ()
      ensures count == 0
    {
      count := 0;
    }
  }

  /** A buffer of n NUL bytes, as memset leaves it. */
  function Nuls(n: nat): (r: seq<char>)
    ensures |r| == n && forall i :: 0 <= i < n ==> r[i] == '\0'
  {
    seq(n, _ => '\0')
  }

  /** The parser fields right after init(): all buffers cleared, nothing read. */
  function InitialParser(): (p: ParserState)
    ensures p.Valid() && p.state == RequestLineState && !p.linger
  {
    ParserState(Nuls(READ_BUFFER_SIZE), 0, 0, 0, RequestLineState, Get, None, None, None, false, 0)
  }

  lemma {:induction false} InitialParserValid()
    ensures ValidParser(InitialParser())
  {
  }

  function InitialWrite(): (w: WriteState)
    ensures |w.buf| == WRITE_BUFFER_SIZE && w.idx == 0 && Contents(w) == []
  {
    WriteState(Nuls(WRITE_BUFFER_SIZE), 0)
  }

  /** Where the code stands inside parse_request_line (lines 199-259), with the
      offsets its pointers have reached in the read buffer. */
  datatype Walk =
    | FindMethodEnd(text: nat)
    | CutMethod(text: nat, c1: nat)
    | SkipToUrl(w: nat)
    | FindUrlEnd(u: nat)
    | CutUrl(u: nat, c2: nat)
    | CheckVersion(u: nat, v: nat)
    | CheckUrl(u: nat)

  /** The stages left after s. */
  function WalkRank(s: Walk): nat {
    match s
    case FindMethodEnd(_) => 6
    case CutMethod(_, _) => 5
    case SkipToUrl(_) => 4
    case FindUrlEnd(_) => 3
    case CutUrl(_, _) => 2
    case CheckVersion(_, _) => 1
    case CheckUrl(_) => 0
  }

  /** The offsets of a stage lie inside the buffer, and a cut falls on a byte of it. */
  predicate InBuffer(buf: seq<char>, s: Walk) {
    match s
    case FindMethodEnd(text) => text <= |buf|
    case CutMethod(text, c1) => text <= c1 < |buf|
    case SkipToUrl(w) => w <= |buf|
    case FindUrlEnd(u) => u <= |buf|
    case CutUrl(u, c2) => u <= c2 < |buf|
    case CheckVersion(u, v) => u < |buf| && v <= |buf|
    case CheckUrl(u) => u < |buf|
  }

  /** parse_request_line as the code runs it, from stage s on: on the read buffer,
      with the pointers as offsets, writing each NUL where the code does. Each stage
      is a function of its own that hands over to the next one.
      RequestLineWalkIs proves the walk from the start of the line equal to
      RequestParser.RequestLineStep. */
  function RequestLineWalk(p: ParserState, s: Walk): (HttpCode, ParserState)
    requires InBuffer(p.buf, s)
    decreases WalkRank(s), 1
  {
    match s
    case FindMethodEnd(text) => MethodEndStage(p, text)
    case CutMethod(text, c1) => MethodCutStage(p, text, c1)
    case SkipToUrl(w) => UrlSkipStage(p, w)
    case FindUrlEnd(u) => UrlEndStage(p, u)
    case CutUrl(u, c2) => UrlCutStage(p, u, c2)
    case CheckVersion(u, v) => VersionStage(p, u, v)
    case CheckUrl(u) => TargetStage(p, u)
  }

  /** Lines 203-207: look for the blank after the method. */
  function MethodEndStage(p: ParserState, text: nat): (HttpCode, ParserState)
    requires text <= |p.buf|
    decreases WalkRank(FindMethodEnd(text)), 0
  {
    match Strpbrk(CStr(p.buf, text), BLANKS)
    case None => (BadRequest, p.(url := None))
    case Some(k) => RequestLineWalk(p, CutMethod(text, text + k))
  }

  /** Lines 208-220: cut after the method, leave m_url past the cut, compare with GET. */
  function MethodCutStage(p: ParserState, text: nat, c1: nat): (HttpCode, ParserState)
    requires text <= c1 < |p.buf|
    decreases WalkRank(CutMethod(text, c1)), 0
  {
    var q := p.(buf := p.buf[c1 := '\0'], url := Some(c1 + 1));
    if !CaseEq(CStr(q.buf, text), "GET") then (BadRequest, q)
    else RequestLineWalk(q.(requestMethod := Get), SkipToUrl(c1 + 1))
  }

  /** Line 226: skip the blanks before the URL. */
  function UrlSkipStage(p: ParserState, w: nat): (HttpCode, ParserState)
    requires w <= |p.buf|
    decreases WalkRank(SkipToUrl(w)), 0
  {
    RequestLineWalk(p, FindUrlEnd(w + Strspn(CStr(p.buf, w), BLANKS)))
  }

  /** Lines 227-231: look for the blank after the URL token. */
  function UrlEndStage(p: ParserState, u: nat): (HttpCode, ParserState)
    requires u <= |p.buf|
    decreases WalkRank(FindUrlEnd(u)), 0
  {
    var q := p.(url := Some(u));
    match Strpbrk(CStr(p.buf, u), BLANKS)
    case None => (BadRequest, q.(version := None))
    case Some(k) => RequestLineWalk(q, CutUrl(u, u + k))
  }

  /** Lines 232-233: cut after the URL token and skip the blanks behind it. */
  function UrlCutStage(p: ParserState, u: nat, c2: nat): (HttpCode, ParserState)
    requires u <= c2 < |p.buf|
    decreases WalkRank(CutUrl(u, c2)), 0
  {
    var b := p.buf[c2 := '\0'];
    RequestLineWalk(p.(buf := b), CheckVersion(u, c2 + 1 + Strspn(CStr(b, c2 + 1), BLANKS)))
  }

  /** Lines 233-238: record the version and insist on HTTP/1.1. */
  function VersionStage(p: ParserState, u: nat, v: nat): (HttpCode, ParserState)
    requires u < |p.buf| && v <= |p.buf|
    decreases WalkRank(CheckVersion(u, v)), 0
  {
    var q := p.(version := Some(v));
    if !CaseEq(CStr(p.buf, v), "HTTP/1.1") then (BadRequest, q) else RequestLineWalk(q, CheckUrl(u))
  }

  /** Lines 240-258: strip "http://" up to the first '/', insist on '/', go on to
      the headers. */
  function TargetStage(p: ParserState, u: nat): (HttpCode, ParserState)
    requires u < |p.buf|
    decreases WalkRank(CheckUrl(u)), 0
  {
    var t := if PrefixCaseEq(CStr(p.buf, u), "http://") then Shift(u + 7, Strchr(CStr(p.buf, u + 7), '/')) else Some(u);
    var ok := t.Some? && p.buf[t.value] == '/';
    (if ok then NoRequest else BadRequest, p.(url := t, state := if ok then HeaderState else p.state))
  }

  /** The skip of line 226 with the offset u the code reaches. */
  lemma {:induction false} SkipToUrlStep(p: ParserState, w: nat, u: nat)
    requires w <= |p.buf| && u == w + Strspn(CStr(p.buf, w), BLANKS)
    ensures RequestLineWalk(p, SkipToUrl(w)) == RequestLineWalk(p, FindUrlEnd(u))
  {
  }

  /** The cut of line 232 with the offset v of the version the code reaches. */
  lemma {:induction false} CutUrlStep(p: ParserState, u: nat, c2: nat, v: nat)
    requires u <= c2 < |p.buf| && v == c2 + 1 + Strspn(CStr(p.buf[c2 := '\0'], c2 + 1), BLANKS)
    ensures RequestLineWalk(p, CutUrl(u, c2)) == RequestLineWalk(p.(buf := p.buf[c2 := '\0']), CheckVersion(u, v))
  {
  }

  /** The version check of lines 235-238. */
  lemma {:induction false} CheckVersionStep(p: ParserState, u: nat, v: nat)
    requires u < |p.buf| && v <= |p.buf|
    ensures !CaseEq(CStr(p.buf, v), "HTTP/1.1") ==>
      RequestLineWalk(p, CheckVersion(u, v)) == (BadRequest, p.(version := Some(v)))
    ensures CaseEq(CStr(p.buf, v), "HTTP/1.1") ==>
      RequestLineWalk(p, CheckVersion(u, v)) == RequestLineWalk(p.(version := Some(v)), CheckUrl(u))
  {
  }

  /** The target checks of lines 240-258, with the target t the code settles on. */
  lemma {:induction false} CheckUrlStep(p: ParserState, u: nat, t: Option<nat>)
    requires u < |p.buf|
    requires t == if PrefixCaseEq(CStr(p.buf, u), "http://") then Shift(u + 7, Strchr(CStr(p.buf, u + 7), '/')) else Some(u)
    ensures t.Some? ==> t.value < |p.buf|
    ensures t.Some? && p.buf[t.value] == '/' ==>
      RequestLineWalk(p, CheckUrl(u)) == (NoRequest, p.(url := t, state := HeaderState))
    ensures !(t.Some? && p.buf[t.value] == '/') ==>
      RequestLineWalk(p, CheckUrl(u)) == (BadRequest, p.(url := t))
  {
  }

  /** A NUL written before a C string that starts inside the one at k leaves it the
      tail it was. */
  lemma {:induction false} CutBefore(buf: seq<char>, k: nat, c: nat, j: nat)
    requires k <= |buf| && c < k + j <= CEnd(buf, k) && c < |buf|
    ensures CStr(buf[c := '\0'], k + j) == CStr(buf, k)[j..]
    ensures CEnd(buf[c := '\0'], k + j) == CEnd(buf, k)
  {
    var b := buf[c := '\0'];
    var e := CEnd(buf, k);
    CEndSpec(buf, k);
    CEndUnique(b, k + j, e);
    assert b[k + j..e] == buf[k + j..e];
    assert buf[k + j..e] == buf[k..e][j..];
  }

  /** A NUL written inside the C string at k + j cuts it there. */
  lemma {:induction false} CutInside(buf: seq<char>, k: nat, j: nat, c: nat)
    requires k <= |buf| && k + j <= c < CEnd(buf, k)
    ensures CStr(buf[c := '\0'], k + j) == CStr(buf, k)[j..c - k]
  {
    CEndSpec(buf, k);
    CStrSuffix(buf, k, j);
    CStrAfterCut(buf, k + j, c);
  }

  /** The strings parse_request_line reads after cutting the line at text with a NUL
      at c: the line up to the cut, and the tails behind it. */
  lemma {:induction false} FirstCutViews(buf: seq<char>, text: nat, c: nat, j: nat)
    requires text <= |buf| && text <= c < CEnd(buf, text) && c < j <= CEnd(buf, text)
    ensures c < |buf|
    ensures CStr(buf[c := '\0'], text) == CStr(buf, text)[..c - text]
    ensures CStr(buf[c := '\0'], j) == CStr(buf, text)[j - text..]
    ensures CEnd(buf[c := '\0'], j) == CEnd(buf, text)
  {
    CEndSpec(buf, text);
    CutInside(buf, text, 0, c);
    CutBefore(buf, text, c, j - text);
  }

  /** The strings and bytes parse_request_line reads after its second cut, at c2,
      the end of the URL token that starts at u; the first cut was at c1. */
  lemma {:induction false} SecondCutViews(buf: seq<char>, text: nat, c1: nat, u: nat, c2: nat, j: nat)
    requires text <= |buf| && text <= c1 < u <= c2 < CEnd(buf, text)
    ensures var line, b2 := CStr(buf, text), buf[c1 := '\0'][c2 := '\0'];
      && |b2| == |buf|
      && (c2 < j <= CEnd(buf, text) ==> CStr(b2, j) == line[j - text..])
      && (u <= j <= c2 ==> CStr(b2, j) == line[j - text..c2 - text])
      && (u <= j < c2 ==> b2[j] == line[j - text])
  {
    CEndSpec(buf, text);
    if c2 < j <= CEnd(buf, text) {
      SecondCutTail(buf, text, c1, u, c2, j);
    } else if u <= j <= c2 {
      SecondCutUrl(buf, text, c1, u, c2, j);
    }
  }

  /** The C string behind the second cut. */
  lemma {:induction false} SecondCutTail(buf: seq<char>, text: nat, c1: nat, u: nat, c2: nat, j: nat)
    requires text <= |buf| && text <= c1 < u <= c2 < j <= CEnd(buf, text)
    ensures CStr(buf[c1 := '\0'][c2 := '\0'], j) == CStr(buf, text)[j - text..]
  {
    var b1 := buf[c1 := '\0'];
    var line := CStr(buf, text);
    FirstCutViews(buf, text, c1, u);
    CutBefore(b1, u, c2, j - u);
    assert CStr(b1, u)[j - u..] == line[u - text..][j - u..] == line[j - text..];
  }

  /** The C string between the two cuts. */
  lemma {:induction false} SecondCutUrl(buf: seq<char>, text: nat, c1: nat, u: nat, c2: nat, j: nat)
    requires text <= |buf| && text <= c1 < u <= j <= c2 < CEnd(buf, text)
    ensures CStr(buf[c1 := '\0'][c2 := '\0'], j) == CStr(buf, text)[j - text..c2 - text]
  {
    var b1 := buf[c1 := '\0'];
    var line := CStr(buf, text);
    FirstCutViews(buf, text, c1, u);
    CutInside(b1, u, j - u, c2);
    assert CStr(b1, u)[j - u..c2 - u] == line[u - text..][j - u..c2 - u] == line[j - text..c2 - text];
  }

  /** What the target checks of parse_request_line read from the buffer after both cuts. */
  lemma {:induction false} TargetViews(buf: seq<char>, text: nat, c1: nat, u: nat, c2: nat)
    requires text <= |buf| && text <= c1 < u < c2 < CEnd(buf, text)
    ensures var line, b2 := CStr(buf, text), buf[c1 := '\0'][c2 := '\0'];
      var tok := line[u - text..c2 - text];
      && |b2| == |buf|
      && CStr(b2, u) == tok
      && b2[u] == line[u - text]
      && (PrefixCaseEq(tok, "http://") ==> CStr(b2, u + 7) == tok[7..])
      && (PrefixCaseEq(tok, "http://") && Strchr(tok[7..], '/').Some? ==>
            b2[u + 7 + Strchr(tok[7..], '/').value] == '/')
  {
    var line, b2 := CStr(buf, text), buf[c1 := '\0'][c2 := '\0'];
    var tok := line[u - text..c2 - text];
    SecondCutViews(buf, text, c1, u, c2, u);
    if PrefixCaseEq(tok, "http://") {
      SecondCutViews(buf, text, c1, u, c2, u + 7);
      assert line[u + 7 - text..c2 - text] == tok[7..];
      var sp := Strchr(tok[7..], '/');
      if sp.Some? {
        StrpbrkSpec(tok[7..], ['/']);
        SecondCutViews(buf, text, c1, u, c2, u + 7 + sp.value);
      }
    }
  }

  /** The target checks of parse_request_line, done on the cut buffer, agree with
      TargetStart on the line. */
  lemma {:induction false} CutTargetFound(buf: seq<char>, text: nat, c1: nat, u: nat, c2: nat)
    requires text <= |buf| && text <= c1 < u < c2 < CEnd(buf, text)
    ensures var line, b2 := CStr(buf, text), buf[c1 := '\0'][c2 := '\0'];
      var t := TargetStart(line, u - text, c2 - text);
      var pre := PrefixCaseEq(CStr(b2, u), "http://");
      && |b2| == |buf|
      && (pre <==> PrefixCaseEq(line[u - text..c2 - text], "http://"))
      && (pre ==> u + 7 <= |b2| && (t.None? <==> Strchr(CStr(b2, u + 7), '/').None?))
      && (pre && t.Some? ==> Strchr(CStr(b2, u + 7), '/') == Some(text + t.value - u - 7) && b2[text + t.value] == '/')
      && (!pre ==> (t.Some? <==> b2[u] == '/') && (t.Some? ==> t.value == u - text))
  {
    TargetViews(buf, text, c1, u, c2);
  }

  /** The target the code settles on, in terms of TargetStart on the URL token
      line[ur..e] of the line. */
  lemma {:induction false} CodeTarget(buf: seq<char>, text: nat, c1: nat, ur: nat, u: nat, e: nat, c2: nat, target: Option<nat>)
    requires text <= |buf| && text <= c1 < u < c2 < CEnd(buf, text) && u == text + ur && c2 == text + e
    requires var b2 := buf[c1 := '\0'][c2 := '\0'];
      target == if PrefixCaseEq(CStr(b2, u), "http://") then Shift(u + 7, Strchr(CStr(b2, u + 7), '/')) else Some(u)
    ensures var line, b2 := CStr(buf, text), buf[c1 := '\0'][c2 := '\0'];
      var t := TargetStart(line, ur, e);
      var ok := target.Some? && target.value < |b2| && b2[target.value] == '/';
      && (t.Some? ==> ok && target == Some(text + t.value))
      && (t.None? ==> !ok && target == if PrefixCaseEq(line[ur..e], "http://") then None else Some(u))
  {
    CutTargetFound(buf, text, c1, u, c2);
    assert u - text == ur && c2 - text == e;
  }

  /** An accepted target, with the buffer offsets of the cuts, the target and the
      version. */
  lemma {:induction false} TargetAccepted(p0: ParserState, text: nat, m: nat, c1: nat, ur: nat, u: nat, e: nat, c2: nat,
                                          vr: nat, v: nat, t: nat)
    requires text <= |p0.buf| && c1 == text + m && c2 == text + e && v == text + vr
    requires ur <= e < |CStr(p0.buf, text)| && c1 < |p0.buf|
    requires TargetStart(CStr(p0.buf, text), ur, e).Some? && t == text + TargetStart(CStr(p0.buf, text), ur, e).value
    ensures ApplyRequestLine(p0, text, ParseFrom(CStr(p0.buf, text), TargetCheck(m, ur, e, vr)))
      == (NoRequest, p0.(buf := p0.buf[c1 := '\0'][c2 := '\0'], url := Some(u), version := Some(v),
                         requestMethod := Get).(url := Some(t), state := HeaderState))
  {
    CheckTargetAccepted(p0, text, m, ur, e, vr);
  }

  /** A rejected target, with the buffer offsets of the cuts and the version. */
  lemma {:induction false} TargetRejected(p0: ParserState, text: nat, m: nat, c1: nat, ur: nat, u: nat, e: nat, c2: nat,
                                          vr: nat, v: nat, target: Option<nat>)
    requires text <= |p0.buf| && c1 == text + m && c2 == text + e && v == text + vr && u == text + ur
    requires ur <= e < |CStr(p0.buf, text)| && c1 < |p0.buf|
    requires TargetStart(CStr(p0.buf, text), ur, e).None?
    requires target == if PrefixCaseEq(CStr(p0.buf, text)[ur..e], "http://") then None else Some(u)
    ensures ApplyRequestLine(p0, text, ParseFrom(CStr(p0.buf, text), TargetCheck(m, ur, e, vr)))
      == (BadRequest, p0.(buf := p0.buf[c1 := '\0'][c2 := '\0'], url := Some(u), version := Some(v),
                          requestMethod := Get).(url := target))
  {
    CheckTargetRejected(p0, text, m, ur, e, vr);
  }

  /** The target checks after both cuts, on the buffer, are the verdict of the last
      stage of ParseFrom on the line. */
  lemma {:induction false} CheckUrlIs(p0: ParserState, text: nat, m: nat, c1: nat, ur: nat, u: nat, e: nat, c2: nat,
                         vr: nat, v: nat)
    requires text <= |p0.buf| && text <= c1 < u < c2 < CEnd(p0.buf, text)
    requires c1 == text + m && u == text + ur && c2 == text + e && v == text + vr
    ensures RequestLineWalk(p0.(buf := p0.buf[c1 := '\0'][c2 := '\0'], url := Some(u), version := Some(v),
                                requestMethod := Get), CheckUrl(u))
      == ApplyRequestLine(p0, text, ParseFrom(CStr(p0.buf, text), TargetCheck(m, ur, e, vr)))
  {
    var b2 := p0.buf[c1 := '\0'][c2 := '\0'];
    var pw := p0.(buf := b2, url := Some(u), version := Some(v), requestMethod := Get);
    var target := if PrefixCaseEq(CStr(b2, u), "http://") then Shift(u + 7, Strchr(CStr(b2, u + 7), '/')) else Some(u);
    CodeTarget(p0.buf, text, c1, ur, u, e, c2, target);
    CheckUrlStep(pw, u, target);
    var line := CStr(p0.buf, text);
    assert ur <= e < |line|;
    var ts := TargetStart(line, ur, e);
    if ts.Some? {
      var t := text + ts.value;
      TargetAccepted(p0, text, m, c1, ur, u, e, c2, vr, v, t);
    } else {
      TargetRejected(p0, text, m, c1, ur, u, e, c2, vr, v, target);
    }
  }

  /** parse_request_line's first exit: a line without a blank leaves m_url null. */
  lemma {:induction false} NoBlankOutcome(p0: ParserState, text: nat)
    requires text <= |p0.buf| && Strpbrk(CStr(p0.buf, text), BLANKS).None?
    ensures RequestLineStep(p0, text) == (BadRequest, p0.(url := None))
  {
    ParseNoBlank(CStr(p0.buf, text));
  }

  /** The cut after the method, at c1 = text + m: the code compares the C string at
      text, which is now the method, with GET; a mismatch leaves m_url just past the
      cut, and a match goes on with the line parse from UrlStart(m). */
  lemma {:induction false} MethodOutcome(p0: ParserState, text: nat, m: nat, c1: nat)
    requires text <= |p0.buf| && Strpbrk(CStr(p0.buf, text), BLANKS) == Some(m) && c1 == text + m
    ensures c1 < CEnd(p0.buf, text)
    ensures CStr(p0.buf[c1 := '\0'], text) == CStr(p0.buf, text)[..m]
    ensures !CaseEq(CStr(p0.buf, text)[..m], "GET") ==>
      RequestLineStep(p0, text) == (BadRequest, p0.(buf := p0.buf[c1 := '\0'], url := Some(c1 + 1)))
    ensures CaseEq(CStr(p0.buf, text)[..m], "GET") ==>
      RequestLineStep(p0, text) == ApplyRequestLine(p0, text, ParseFrom(CStr(p0.buf, text), UrlStart(m)))
  {
    var line := CStr(p0.buf, text);
    CEndSpec(p0.buf, text);
    FirstCutViews(p0.buf, text, c1, c1 + 1);
    assert c1 - text == m && text + (m + 1) == c1 + 1;
    ParseMethod(line, m);
    CutAtShort(p0.buf, text, m, m);
  }

  /** Where parse_request_line finds the URL after its cut at c1 = text + m: the
      offset u = text + ur it computes on the cut buffer is the one the line parse
      computes from UrlStart(m), and the C string it searches there is the rest of the line. */
  lemma {:induction false} UrlStartViews(buf: seq<char>, text: nat, m: nat, c1: nat, ur: nat, u: nat)
    requires text <= |buf| && c1 == text + m && c1 < CEnd(buf, text) && u == text + ur
    requires u == c1 + 1 + Strspn(CStr(buf[c1 := '\0'], c1 + 1), BLANKS)
    ensures var line := CStr(buf, text);
      && m < ur <= |line| && u <= CEnd(buf, text)
      && ur == m + 1 + Strspn(line[m + 1..], BLANKS)
      && CStr(buf[c1 := '\0'], u) == line[ur..]
  {
    CEndSpec(buf, text);
    FirstCutViews(buf, text, c1, c1 + 1);
    assert c1 + 1 - text == m + 1;
    FirstCutViews(buf, text, c1, u);
    assert u - text == ur;
  }

  /** No blank after the URL: m_url is left at the token and m_version null. */
  lemma {:induction false} NoUrlEndOutcome(p0: ParserState, text: nat, m: nat, c1: nat, ur: nat, u: nat)
    requires text <= |p0.buf| && c1 == text + m && c1 < CEnd(p0.buf, text) && u == text + ur
    requires u == c1 + 1 + Strspn(CStr(p0.buf[c1 := '\0'], c1 + 1), BLANKS)
    requires Strpbrk(CStr(p0.buf[c1 := '\0'], u), BLANKS).None?
    ensures ApplyRequestLine(p0, text, ParseFrom(CStr(p0.buf, text), UrlStart(m)))
      == (BadRequest, p0.(buf := p0.buf[c1 := '\0'], requestMethod := Get, url := Some(u), version := None))
  {
    UrlStartViews(p0.buf, text, m, c1, ur, u);
    ParseNoUrlEnd(CStr(p0.buf, text), m, ur);
    ApplyNoUrlEnd(p0, text, m, c1, ur, u);
  }

  /** The line verdict of a URL without an end, applied to the buffer. */
  lemma {:induction false} ApplyNoUrlEnd(p0: ParserState, text: nat, m: nat, c1: nat, ur: nat, u: nat)
    requires c1 == text + m && c1 < |p0.buf| && u == text + ur
    ensures ApplyRequestLine(p0, text, RequestLineBad([m], true, Some(ur), true, None))
      == (BadRequest, p0.(buf := p0.buf[c1 := '\0'], requestMethod := Get, url := Some(u), version := None))
  {
    CutAtShort(p0.buf, text, m, m);
  }

  /** After the second cut at c2 the C strings behind it are the rest of the line. */
  lemma {:induction false} TailAfterSecondCut(buf: seq<char>, text: nat, c1: nat, u: nat, c2: nat, j: nat)
    requires text <= |buf| && text <= c1 < u <= c2 < j <= CEnd(buf, text)
    ensures CStr(buf[c1 := '\0'][c2 := '\0'], j) == CStr(buf, text)[j - text..]
  {
    FirstCutViews(buf, text, c1, u);
    CutBefore(buf[c1 := '\0'], u, c2, j - u);
  }

  /** The end of the URL token, c2 = u + k = text + e, and the version the code then
      finds after the second cut, at v = text + vr: the offsets the line parse computes,
      and the rest of the line there. */
  lemma {:induction false} VersionViews(buf: seq<char>, text: nat, m: nat, c1: nat, ur: nat, u: nat, k: nat, e: nat, c2: nat, vr: nat, v: nat)
    requires text <= |buf| && c1 == text + m && c1 < CEnd(buf, text) && u == text + ur
    requires u == c1 + 1 + Strspn(CStr(buf[c1 := '\0'], c1 + 1), BLANKS)
    requires Strpbrk(CStr(buf[c1 := '\0'], u), BLANKS) == Some(k)
    requires c2 == u + k && e == ur + k && v == text + vr
    requires c2 < |buf| && v == c2 + 1 + Strspn(CStr(buf[c1 := '\0'][c2 := '\0'], c2 + 1), BLANKS)
    ensures var line := CStr(buf, text);
      && c1 < u <= c2 < CEnd(buf, text) && c2 < v
      && ur == m + 1 + Strspn(line[m + 1..], BLANKS)
      && Strpbrk(line[ur..], BLANKS) == Some(k)
      && e < |line| && vr == e + 1 + Strspn(line[e + 1..], BLANKS)
      && CStr(buf[c1 := '\0'][c2 := '\0'], v) == line[vr..]
  {
    UrlStartViews(buf, text, m, c1, ur, u);
    VersionAfterCut(buf, text, c1, u, c2, e, vr, v);
  }

  /** The blanks skipped after the second cut at c2 = text + e are those of the line,
      and the version found at v = text + vr is the rest of the line. */
  lemma {:induction false} VersionAfterCut(buf: seq<char>, text: nat, c1: nat, u: nat, c2: nat, e: nat, vr: nat, v: nat)
    requires text <= |buf| && text <= c1 < u <= c2 < CEnd(buf, text) && c2 == text + e && v == text + vr
    requires v == c2 + 1 + Strspn(CStr(buf[c1 := '\0'][c2 := '\0'], c2 + 1), BLANKS)
    ensures var line := CStr(buf, text);
      && e < |line| && vr == e + 1 + Strspn(line[e + 1..], BLANKS)
      && CStr(buf[c1 := '\0'][c2 := '\0'], v) == line[vr..]
  {
    TailAfterSecondCut(buf, text, c1, u, c2, c2 + 1);
    assert c2 + 1 - text == e + 1;
    TailAfterSecondCut(buf, text, c1, u, c2, v);
    assert v - text == vr;
  }

  /** The version check after both cuts: anything but HTTP/1.1 rejects the line with
      m_url at the token and m_version recorded; HTTP/1.1 goes on to the target. */
  lemma {:induction false} VersionOutcome(p0: ParserState, text: nat, m: nat, c1: nat, ur: nat, u: nat, k: nat, e: nat, c2: nat, vr: nat, v: nat)
    requires text <= |p0.buf| && c1 == text + m && c1 < CEnd(p0.buf, text) && u == text + ur
    requires u == c1 + 1 + Strspn(CStr(p0.buf[c1 := '\0'], c1 + 1), BLANKS)
    requires Strpbrk(CStr(p0.buf[c1 := '\0'], u), BLANKS) == Some(k)
    requires c2 == u + k && e == ur + k && v == text + vr
    requires c2 < |p0.buf| && v == c2 + 1 + Strspn(CStr(p0.buf[c1 := '\0'][c2 := '\0'], c2 + 1), BLANKS)
    ensures c1 < u < c2 < CEnd(p0.buf, text)
    ensures !CaseEq(CStr(p0.buf[c1 := '\0'][c2 := '\0'], v), "HTTP/1.1") ==>
      ApplyRequestLine(p0, text, ParseFrom(CStr(p0.buf, text), UrlStart(m)))
        == (BadRequest, p0.(buf := p0.buf[c1 := '\0'][c2 := '\0'], requestMethod := Get,
                            url := Some(u), version := Some(v)))
    ensures CaseEq(CStr(p0.buf[c1 := '\0'][c2 := '\0'], v), "HTTP/1.1") ==>
      ParseFrom(CStr(p0.buf, text), UrlStart(m)) == ParseFrom(CStr(p0.buf, text), TargetCheck(m, ur, e, vr))
  {
    VersionViews(p0.buf, text, m, c1, ur, u, k, e, c2, vr, v);
    AfterMethodExits(CStr(p0.buf, text), m, ur, k, e, vr);
    if !CaseEq(CStr(p0.buf[c1 := '\0'][c2 := '\0'], v), "HTTP/1.1") {
      BothCutsBad(p0, text, m, c1, e, c2, ur, u, vr, v);
    }
  }

  /** A rejection after both cuts, as ApplyRequestLine records it. */
  lemma {:induction false} BothCutsBad(p0: ParserState, text: nat, m: nat, c1: nat, e: nat, c2: nat, ur: nat, u: nat, vr: nat, v: nat)
    requires c1 == text + m && c2 == text + e && u == text + ur && v == text + vr
    requires c1 < |p0.buf| && c2 < |p0.buf|
    ensures ApplyRequestLine(p0, text, RequestLineBad([m, e], true, Some(ur), true, Some(vr)))
      == (BadRequest, p0.(buf := p0.buf[c1 := '\0'][c2 := '\0'], requestMethod := Get, url := Some(u), version := Some(v)))
  {
    CutAtShort(p0.buf, text, m, e);
  }

  /** After a GET method cut at c1 = text + m, the rest of the code's walk is
      verdict of the line parse from UrlStart(m). */
  lemma {:induction false} SkipToUrlIs(p0: ParserState, text: nat, m: nat, c1: nat)
    requires text <= |p0.buf| && c1 == text + m && c1 < CEnd(p0.buf, text)
    ensures RequestLineWalk(p0.(buf := p0.buf[c1 := '\0'], url := Some(c1 + 1)).(requestMethod := Get), SkipToUrl(c1 + 1))
      == ApplyRequestLine(p0, text, ParseFrom(CStr(p0.buf, text), UrlStart(m)))
  {
    var b1 := p0.buf[c1 := '\0'];
    var p1 := p0.(buf := b1, url := Some(c1 + 1)).(requestMethod := Get);
    var u := c1 + 1 + Strspn(CStr(b1, c1 + 1), BLANKS);
    SkipToUrlStep(p1, c1 + 1, u);
    match Strpbrk(CStr(b1, u), BLANKS)
    case None =>
      NoUrlEndOutcome(p0, text, m, c1, u - text, u);
    case Some(k) =>
      CutUrlIs(p0, text, m, c1, u - text, u, k);
  }

  /** The search of line 227 for the end of the URL token, found k bytes on. */
  lemma {:induction false} FindUrlEndStep(p: ParserState, u: nat, k: nat)
    requires u <= |p.buf| && Strpbrk(CStr(p.buf, u), BLANKS) == Some(k)
    ensures RequestLineWalk(p, FindUrlEnd(u)) == RequestLineWalk(p.(url := Some(u)), CutUrl(u, u + k))
  {
  }

  /** The URL token ends at c2 = u + k: the cut, the version check and the target
      check are the verdict of ParseFrom after the method on the line. */
  lemma {:induction false} CutUrlIs(p0: ParserState, text: nat, m: nat, c1: nat, ur: nat, u: nat, k: nat)
    requires text <= |p0.buf| && c1 == text + m && c1 < CEnd(p0.buf, text) && u == text + ur
    requires u == c1 + 1 + Strspn(CStr(p0.buf[c1 := '\0'], c1 + 1), BLANKS)
    requires Strpbrk(CStr(p0.buf[c1 := '\0'], u), BLANKS) == Some(k)
    ensures RequestLineWalk(p0.(buf := p0.buf[c1 := '\0'], url := Some(c1 + 1)).(requestMethod := Get), FindUrlEnd(u))
      == ApplyRequestLine(p0, text, ParseFrom(CStr(p0.buf, text), UrlStart(m)))
  {
    var b1 := p0.buf[c1 := '\0'];
    var p1 := p0.(buf := b1, url := Some(c1 + 1)).(requestMethod := Get);
    var c2 := u + k;
    var b2 := b1[c2 := '\0'];
    var v := c2 + 1 + Strspn(CStr(b2, c2 + 1), BLANKS);
    var p2 := p0.(buf := b2, url := Some(u), requestMethod := Get);
    CutUrlWalk(p1, u, k, c2, v, p2);
    var e, vr := ur + k, v - text;
    AfterSecondCutIs(p0, text, m, c1, ur, u, k, e, c2, vr, v);
  }

  /** Lines 227-233 on the buffer: the URL token found k bytes on, the cut after it,
      and the blanks skipped up to the version at v. */
  lemma {:induction false} CutUrlWalk(p1: ParserState, u: nat, k: nat, c2: nat, v: nat, p2: ParserState)
    requires u <= c2 < |p1.buf| && Strpbrk(CStr(p1.buf, u), BLANKS) == Some(k) && c2 == u + k
    requires v == c2 + 1 + Strspn(CStr(p1.buf[c2 := '\0'], c2 + 1), BLANKS)
    requires p2 == p1.(url := Some(u), buf := p1.buf[c2 := '\0'])
    ensures RequestLineWalk(p1, FindUrlEnd(u)) == RequestLineWalk(p2, CheckVersion(u, v))
  {
    FindUrlEndStep(p1, u, k);
    CutUrlStep(p1.(url := Some(u)), u, c2, v);
  }

  /** From the version check on, with both cuts made: the verdict of ParseFrom after
      the method on the line. */
  lemma {:induction false} AfterSecondCutIs(p0: ParserState, text: nat, m: nat, c1: nat, ur: nat, u: nat, k: nat, e: nat, c2: nat, vr: nat, v: nat)
    requires text <= |p0.buf| && c1 == text + m && c1 < CEnd(p0.buf, text) && u == text + ur
    requires u == c1 + 1 + Strspn(CStr(p0.buf[c1 := '\0'], c1 + 1), BLANKS)
    requires Strpbrk(CStr(p0.buf[c1 := '\0'], u), BLANKS) == Some(k)
    requires c2 == u + k && e == ur + k && v == text + vr
    requires c2 < |p0.buf| && v == c2 + 1 + Strspn(CStr(p0.buf[c1 := '\0'][c2 := '\0'], c2 + 1), BLANKS)
    ensures RequestLineWalk(p0.(buf := p0.buf[c1 := '\0'][c2 := '\0'], url := Some(u), requestMethod := Get), CheckVersion(u, v))
      == ApplyRequestLine(p0, text, ParseFrom(CStr(p0.buf, text), UrlStart(m)))
  {
    var b2 := p0.buf[c1 := '\0'][c2 := '\0'];
    var p2 := p0.(buf := b2, url := Some(u), requestMethod := Get);
    VersionOutcome(p0, text, m, c1, ur, u, k, e, c2, vr, v);
    CheckVersionStep(p2, u, v);
    assert p2.(version := Some(v)) == p0.(buf := b2, url := Some(u), version := Some(v), requestMethod := Get);
    if CaseEq(CStr(b2, v), "HTTP/1.1") {
      CheckUrlIs(p0, text, m, c1, ur, u, e, c2, vr, v);
    }
  }

  /** The code's walk over the buffer is the parse of the line: RequestLineWalk from
      the start of the line, which follows the pointers of parse_request_line, and
      RequestLineStep, which parses the C string at text, agree on every buffer. */
  lemma {:induction false} RequestLineWalkIs(p: ParserState, text: nat)
    requires text <= |p.buf|
    ensures RequestLineWalk(p, FindMethodEnd(text)) == RequestLineStep(p, text)
  {
    match Strpbrk(CStr(p.buf, text), BLANKS)
    case None =>
      NoBlankOutcome(p, text);
    case Some(m) =>
      var c1 := text + m;
      MethodOutcome(p, text, m, c1);
      var q := p.(buf := p.buf[c1 := '\0'], url := Some(c1 + 1));
      MethodWalk(p, text, m, c1, q);
      if CaseEq(CStr(p.buf, text)[..m], "GET") {
        SkipToUrlIs(p, text, m, c1);
      }
  }

  /** Lines 203-220 on the buffer: the blank found m bytes on, the cut there at c1,
      and the comparison of the method with GET. */
  lemma {:induction false} MethodWalk(p: ParserState, text: nat, m: nat, c1: nat, q: ParserState)
    requires text <= c1 < |p.buf| && Strpbrk(CStr(p.buf, text), BLANKS) == Some(m) && c1 == text + m
    requires q == p.(buf := p.buf[c1 := '\0'], url := Some(c1 + 1))
    ensures !CaseEq(CStr(q.buf, text), "GET") ==> RequestLineWalk(p, FindMethodEnd(text)) == (BadRequest, q)
    ensures CaseEq(CStr(q.buf, text), "GET") ==>
      RequestLineWalk(p, FindMethodEnd(text)) == RequestLineWalk(q.(requestMethod := Get), SkipToUrl(c1 + 1))
  {
    assert RequestLineWalk(p, FindMethodEnd(text)) == MethodEndStage(p, text) == RequestLineWalk(p, CutMethod(text, c1));
    assert RequestLineWalk(p, CutMethod(text, c1)) == MethodCutStage(p, text, c1);
  }

  /** What the connection invariant asks of the parser fields: a full-size buffer,
      the indices ordered inside it, no CR behind the scan cursor, and past the
      request line m_url inside the buffer. */
  predicate ValidParser(p: ParserState) {
    && |p.buf| == READ_BUFFER_SIZE
    && p.Valid()
    && NoCrBehind(p.buf, p.checked)
    && (p.state != RequestLineState ==> p.url.Some? && p.url.value < |p.buf|)
  }

  /** parse_request_line keeps ValidParser: it writes only NULs, so the byte behind
      the cursor is still no CR, it moves no index, and an accepted line leaves m_url
      inside the buffer. */
  lemma {:induction false} RequestLineStepKeeps(p0: ParserState, text: nat)
    requires ValidParser(p0) && text <= |p0.buf| && p0.state == RequestLineState
    ensures var q := RequestLineStep(p0, text).1;
      && ValidParser(q) && q.checked == p0.checked && q.startLine == p0.startLine && q.readIdx == p0.readIdx
  {
    RequestLineStepAdvances(p0, text);
    RequestLineStepUrl(p0, text);
    var q := RequestLineStep(p0, text).1;
    if q.checked > 0 {
      assert q.buf[q.checked - 1] == p0.buf[q.checked - 1] || q.buf[q.checked - 1] == '\0';
    }
  }

  /** The value of a header whose name is n bytes long, as the code reaches it: the
      pointer moved past the name and then past the blanks (strspn). */
  lemma {:induction false} ValueAt(buf: seq<char>, text: nat, n: nat, t: nat)
    requires text <= |buf| && n <= |CStr(buf, text)|
    requires t == text + n + Strspn(CStr(buf, text + n), BLANKS)
    ensures t <= |buf|
    ensures CStr(buf, t) == Value(CStr(buf, text), n)
  {
    CStrSuffix(buf, text, n);
    var rest := CStr(buf, text + n);
    var k := Strspn(rest, BLANKS);
    CStrSuffix(buf, text + n, k);
  }

  /** parse_headers on a blank line. */
  lemma {:induction false} BlankHeaderIs(p: ParserState, text: nat)
    requires text <= |p.buf| && CStr(p.buf, text) == []
    ensures HeaderStep(p, text) ==
      if p.requestMethod == Head then (GetRequest, p)
      else if p.contentLength != 0 then (NoRequest, p.(state := ContentState))
      else (GetRequest, p)
  {
  }

  /** parse_headers on a Connection line: m_linger is set when the value is
      keep-alive. */
  lemma {:induction false} ConnectionHeaderIs(p: ParserState, text: nat)
    requires text <= |p.buf| && CStr(p.buf, text) != [] && PrefixCaseEq(CStr(p.buf, text), "Connection:")
    ensures HeaderStep(p, text) ==
      (NoRequest, p.(linger := p.linger || CaseEq(Value(CStr(p.buf, text), 11), "keep-alive")))
  {
  }

  /** parse_headers on a Content-Length line. */
  lemma {:induction false} ContentLengthHeaderIs(p: ParserState, text: nat)
    requires text <= |p.buf| && CStr(p.buf, text) != []
    requires !PrefixCaseEq(CStr(p.buf, text), "Connection:") && PrefixCaseEq(CStr(p.buf, text), "Content-Length:")
    ensures HeaderStep(p, text) == (NoRequest, p.(contentLength := Atol(Value(CStr(p.buf, text), 15))))
  {
  }

  /** parse_headers on a Host line: m_host is left at the value. */
  lemma {:induction false} HostHeaderIs(p: ParserState, text: nat)
    requires text <= |p.buf| && CStr(p.buf, text) != []
    requires !PrefixCaseEq(CStr(p.buf, text), "Connection:") && !PrefixCaseEq(CStr(p.buf, text), "Content-Length:")
    requires PrefixCaseEq(CStr(p.buf, text), "Host:")
    ensures HeaderStep(p, text) == (NoRequest, p.(host := Some(text + 5 + Strspn(CStr(p.buf, text)[5..], BLANKS))))
  {
  }

  /** parse_headers on any other line. */
  lemma {:induction false} OtherHeaderIs(p: ParserState, text: nat)
    requires text <= |p.buf| && CStr(p.buf, text) != []
    requires !PrefixCaseEq(CStr(p.buf, text), "Connection:") && !PrefixCaseEq(CStr(p.buf, text), "Content-Length:")
    requires !PrefixCaseEq(CStr(p.buf, text), "Host:")
    ensures HeaderStep(p, text) == (NoRequest, p)
  {
  }

  /** parse_headers keeps ValidParser: it writes no byte and no index, and leaves the
      request line behind. */
  lemma {:induction false} HeaderStepKeeps(p0: ParserState, text: nat)
    requires ValidParser(p0) && text <= |p0.buf| && p0.state == HeaderState
    ensures var q := HeaderStep(p0, text).1;
      ValidParser(q) && q.buf == p0.buf && q.checked == p0.checked && q.readIdx == p0.readIdx
      && q.startLine == p0.startLine && q.url == p0.url
  {
  }

  /** Writing a NUL anywhere keeps ValidParser: a NUL is no CR. */
  lemma {:induction false} NulKeepsValid(p: ParserState, i: nat)
    requires ValidParser(p) && i < |p.buf|
    ensures ValidParser(p.(buf := p.buf[i := '\0']))
  {
  }

  /** One pass of the loop body keeps ValidParser, and a GET_REQUEST verdict comes
      from the headers or the body, so m_url is then inside the buffer. */
  lemma {:induction false} DispatchKeeps(p: ParserState)
    requires ValidParser(p)
    ensures var s := Dispatch(p);
      ValidParser(s.p) && (s.Done? && s.code == GetRequest ==> s.p.state != RequestLineState)
  {
    var text := p.startLine;
    var q := p.(startLine := p.checked);
    assert ValidParser(q);
    match q.state
    case RequestLineState =>
      RequestLineStepKeeps(q, text);
      RequestLineStepUrl(q, text);
    case HeaderState =>
      HeaderStepKeeps(q, text);
    case ContentState =>
      var i := text + q.contentLength;
      if BodyComplete(q) && 0 <= q.contentLength && i < |q.buf| {
        NulKeepsValid(q, i);
      }
  }

  lemma {:induction false} ReadStepKeeps(p: ParserState, ls: LineStatus)
    requires ValidParser(p)
    ensures var s := ReadStep(p, ls);
      ValidParser(s.p) && (s.Done? && s.code == GetRequest ==> s.p.state != RequestLineState)
  {
    if p.state == ContentState && ls == LineOk {
      DispatchKeeps(p);
    } else {
      var r := ScanLine(p.buf, p.checked, p.readIdx);
      ScanLineEffect(p.buf, p.checked, p.readIdx);
      ScanKeepsNoCrBehind(p.buf, p.checked, p.readIdx);
      var q := p.(buf := r.buf, checked := r.cursor);
      assert ValidParser(q);
      if r.status == LineOk {
        DispatchKeeps(q);
      }
    }
  }

  /** process_read keeps ValidParser, and when it answers GET_REQUEST the request
      line is behind it, with m_url inside the buffer for do_request. */
  lemma {:induction false} ProcessReadKeeps(p: ParserState, ls: LineStatus)
    requires ValidParser(p)
    ensures var (code, q) := ProcessReadF(p, ls);
      ValidParser(q) && (code == GetRequest ==> q.state != RequestLineState)
    decreases Measure(p, ls)
  {
    ReadStepAdvances(p, ls);
    ReadStepKeeps(p, ls);
    match ReadStep(p, ls)
    case Done(code, q) =>
    case Next(q, ls') =>
      ProcessReadKeeps(q, ls');
  }

  /** The verdict process() hands to process_write: process_read's, with do_request's
      answer for the file in place of GET_REQUEST. */
  function Verdict(fs: FileSystem, p: ParserState): (code: HttpCode)
    requires ValidParser(p)
  {
    ProcessReadKeeps(p, LineOk);
    var (c, q) := ProcessReadF(p, LineOk);
    if c == GetRequest then Classify(fs, RequestPath(CStr(q.buf, q.url.value))) else c
  }

  /** What ProcessRead promises, in terms of the verdict: the code it returns is
      Verdict, and a file to answer with is the one mapped. */
  lemma {:induction false} VerdictOfRead(fs: FileSystem, p: ParserState, code: HttpCode, before: seq<char>,
                                         stat0: FileStat, addr0: Option<seq<char>>,
                                         after: seq<char>, stat: FileStat, addr: Option<seq<char>>)
    requires ValidParser(p) && |before| == FILENAME_LEN
    requires var (c, q) := ProcessReadF(p, LineOk);
      && (c != GetRequest ==> code == c && addr == addr0)
      && (c == GetRequest ==>
            && q.url.Some? && q.url.value < |q.buf|
            && Resolved(fs, CStr(q.buf, q.url.value), before, stat0, addr0, code, after, stat, addr))
    ensures code == Verdict(fs, p)
    ensures code == FileRequest ==> addr == Some(stat.data)
  {
    ProcessReadAdvances(p, LineOk);
  }

  /** process() never reaches process_write with GET_REQUEST or INTERNAL_ERROR: the
      verdict is NO_REQUEST, BAD_REQUEST, or one of the four answers of do_request. */
  lemma {:induction false} VerdictRange(fs: FileSystem, p: ParserState)
    requires ValidParser(p)
    ensures Verdict(fs, p) in {NoRequest, BadRequest, NoResource, ForbiddenRequest, FileRequest}
  {
    ProcessReadKeeps(p, LineOk);
    ProcessReadAdvances(p, LineOk);
    var (c, q) := ProcessReadF(p, LineOk);
    if c == GetRequest {
      ClassifyMeaning(fs, RequestPath(CStr(q.buf, q.url.value)));
    }
  }

  /** The writing side of a connection as process() leaves it: the write buffer, the
      iovecs, the socket, the user count and the epoll calls made so far. */
  datatype Outcome = Outcome(w: WriteState, iv: seq<IoVec>, ivCount: nat, fd: int, users: int, log: seq<EpollCall>)

  /** What process() leaves on the writing side for the verdict code, from the state
      o0 it started with: with NO_REQUEST it only re-arms EPOLLIN; otherwise the
      answer is staged as process_write stages it and Concluded says the rest. */
  function Answered(code: HttpCode, linger: bool, size: nat, o0: Outcome): (o: Outcome)
    requires |o0.w.buf| == WRITE_BUFFER_SIZE && |o0.iv| == 2
  {
    if code == NoRequest then o0.(log := o0.log + [Mod(o0.fd, In)])
    else Concluded(ProcessWriteF(code, linger, size, o0.w, o0.iv, o0.ivCount), o0.fd, o0.users, o0.log)
  }

  /** What process() does with the staging st of process_write, from socket fd0,
      user count users0 and epoll calls log0: a failed staging closes the
      connection (unregistering and uncounting an open socket), and EPOLLOUT is
      re-armed for whatever m_sockfd then holds. */
  function Concluded(st: Staged, fd0: int, users0: int, log0: seq<EpollCall>): (o: Outcome)
  {
    var closes := !st.ok && fd0 != -1;
    var fd := if st.ok then fd0 else -1;
    Outcome(st.w, st.iv, st.ivCount, fd, users0 - (if closes then 1 else 0),
            log0 + (if closes then [Del(fd0)] else []) + [Mod(fd, Out)])
  }

  /** read keeps ValidParser: recv writes only at and after m_read_idx, which is
      past the scan cursor, and moves only m_read_idx, within the buffer. */
  lemma {:induction false} RecvKeepsValid(p: ParserState, recvs: seq<RecvResult>)
    requires ValidParser(p)
    ensures var r := RecvLoop(p.buf, p.readIdx, recvs);
      ValidParser(p.(buf := r.buf, readIdx := r.idx))
  {
    RecvLoopFrame(p.buf, p.readIdx, recvs);
    var r := RecvLoop(p.buf, p.readIdx, recvs);
    if p.checked > 0 {
      assert r.buf[p.checked - 1] == r.buf[..p.readIdx][p.checked - 1];
    }
  }

  class HttpConn {
    const readBuf: array<char>
    const writeBuf: array<char>
    const realFile: array<char>
    const users: UserCount

    var sockfd: int
    var checkedIdx: nat
    var readIdx: nat
    var startLine: nat
    var checkState: CheckState
    var requestMethod: Method
    /** m_url, m_version and m_host as offsets into readBuf; None is a null pointer. */
    var url: Option<nat>
    var version: Option<nat>
    var host: Option<nat>
    var contentLength: int
    var linger: bool
    var writeIdx: nat
    /** m_file_stat as the last successful stat left it. */
    var fileStat: FileStat
    /** m_file_address: the mapped contents, None for a null pointer. */
    var fileAddress: Option<seq<char>>
    var iv: seq<IoVec>
    var ivCount: nat
    /** The epoll_ctl calls made for this connection's socket, oldest first. */
    var epollLog: seq<EpollCall>

    /** The sizes of the three buffers; being different, they also keep the three arrays apart. */
    predicate Sized()
    {
      && readBuf.Length == READ_BUFFER_SIZE
      && writeBuf.Length == WRITE_BUFFER_SIZE
      && realFile.Length == FILENAME_LEN
    }

    /** The invariant every member function keeps: the indices are ordered inside the
        read buffer, the byte behind the scan cursor is not a CR, the staged response
        leaves room for vsnprintf's NUL, the last byte of m_real_file is NUL, and past
        the request line m_url points into the read buffer. */
    ghost predicate Valid()
      reads this`checkedIdx, this`readIdx, this`startLine, this`checkState, this`requestMethod,
             this`url, this`version, this`host, this`linger, this`contentLength,
             this`writeIdx, this`iv, readBuf, realFile
    {
      ReadSideValid() && WriteSideValid()
    }

    /** The half of Valid about the parser and the path buffer. */
    ghost predicate ReadSideValid()
      reads this`checkedIdx, this`readIdx, this`startLine, this`checkState, this`requestMethod,
             this`url, this`version, this`host, this`linger, this`contentLength, readBuf, realFile
    {
      && Sized()
      && ValidParser(Parser())
      && realFile[FILENAME_LEN - 1] == '\0'
    }

    /** The half of Valid about the staged response. */
    predicate WriteSideValid()
      reads this`writeIdx, this`iv
    {
      writeIdx < WRITE_BUFFER_SIZE - 1 && |iv| == 2
    }

    /** The parser fields as a value. */
    ghost function Parser(): ParserState
      reads this`checkedIdx, this`readIdx, this`startLine, this`checkState, this`requestMethod,
             this`url, this`version, this`host, this`linger, this`contentLength, readBuf
    {
      ParserState(readBuf[..], checkedIdx, readIdx, startLine, checkState, requestMethod,
                  url, version, host, linger, contentLength)
    }

    /** The write buffer and its mark as a value. */
    ghost function WState(): WriteState
      reads this`writeIdx, writeBuf
    {
      WriteState(writeBuf[..], writeIdx)
    }

    /** Whatever leaves the read buffer, the path buffer and the parser fields
        alone leaves Parser() and the path as they were. */
    twostate lemma ReadSideKept()
      requires unchanged(readBuf, realFile)
      requires unchanged(this`checkedIdx, this`readIdx, this`startLine, this`checkState, this`requestMethod,
                         this`url, this`version, this`host, this`linger, this`contentLength)
      ensures Parser() == old(Parser()) && realFile[..] == old(realFile[..])
    {
    }

    /** The writing side as a value. */
    ghost function Outgoing(): Outcome
      reads this`writeIdx, writeBuf, this`iv, this`ivCount, this`sockfd, users, this`epollLog
    {
      Outcome(WState(), iv, ivCount, sockfd, users.count, epollLog)
    }

    /** The state init() leaves, m_sockfd and the file fields aside. */
    ghost predicate Cleared()
      reads this`checkedIdx, this`readIdx, this`startLine, this`checkState, this`requestMethod,
             this`url, this`version, this`host, this`linger, this`contentLength,
             this`writeIdx, readBuf, writeBuf, realFile
    {
      && Parser() == InitialParser()
      && WState() == InitialWrite()
      && realFile[..] == Nuls(FILENAME_LEN)
    }

    /** A slot of the connection table before any client is accepted on it. */
    constructor (users: UserCount)
      ensures Valid() && Cleared()
      ensures this.users == users && sockfd == -1 && epollLog == []
      ensures fileAddress == None && ivCount == 0
    {
      readBuf := new char[READ_BUFFER_SIZE](_ => '\0');
      writeBuf := new char[WRITE_BUFFER_SIZE](_ => '\0');
      realFile := new char[FILENAME_LEN](_ => '\0');
      this.users := users;
      sockfd := -1;
      checkedIdx, readIdx, startLine := 0, 0, 0;
      checkState := RequestLineState;
      requestMethod := Get;
      url, version, host := None, None, None;
      contentLength := 0;
      linger := false;
      writeIdx := 0;
      fileStat := FileStat(false, false, []);
      fileAddress := None;
      iv := [IoVec(WriteBuffer, 0), IoVec(WriteBuffer, 0)];
      ivCount := 0;
      epollLog := [];
    }

    /** init() (lines 93-110): the parser back to the request line, every index to 0,
        the three buffers cleared. The socket, the file fields and the iovecs stay. */
    method Init()
      requires Sized() && |iv| == 2
      modifies this`checkState, this`linger, this`requestMethod, this`url, this`version,
               this`contentLength, this`host, this`startLine, this`checkedIdx, this`readIdx,
               this`writeIdx, readBuf, writeBuf, realFile
      ensures Valid() && Cleared()
    {
      ClearBuffers();
      checkState := RequestLineState;
      linger := false;
      requestMethod := Get;
      url := None;
      version := None;
      contentLength := 0;
      host := None;
      startLine := 0;
      checkedIdx := 0;
      readIdx := 0;
      writeIdx := 0;
      InitialParserValid();
    }

    /** The three memsets of init() (lines 107-109). */
    method ClearBuffers()
      modifies readBuf, writeBuf, realFile
      ensures readBuf[..] == Nuls(readBuf.Length)
      ensures writeBuf[..] == Nuls(writeBuf.Length)
      ensures realFile[..] == Nuls(realFile.Length)
    {
      forall i | 0 <= i < readBuf.Length {
        readBuf[i] := '\0';
      }
      forall i | 0 <= i < writeBuf.Length {
        writeBuf[i] := '\0';
      }
      forall i | 0 <= i < realFile.Length {
        realFile[i] := '\0';
      }
    }

    /** init(sockfd, addr) (lines 74-91): take the socket, register it with epoll,
        count the user, then init(). */
    method Accept(fd: int)
      requires Sized() && |iv| == 2
      modifies this, users, readBuf, writeBuf, realFile
      ensures Valid() && Cleared()
      ensures sockfd == fd && users.count == old(users.count) + 1
      ensures epollLog == old(epollLog) + [Add(fd)]
      ensures fileStat == old(fileStat) && fileAddress == old(fileAddress)
      ensures iv == old(iv) && ivCount == old(ivCount)
    {
      sockfd := fd;
      epollLog := epollLog + [Add(fd)];
      users.count := users.count + 1;
      Init();
    }

    /** close_conn (lines 62-71): a real close of an open socket unregisters it, marks
        the slot closed and uncounts the user; closing again does nothing. */
    method CloseConn(realClose: bool)
      modifies this`sockfd, this`epollLog, users
      ensures realClose && old(sockfd) != -1 ==>
        sockfd == -1 && epollLog == old(epollLog) + [Del(old(sockfd))] && users.count == old(users.count) - 1
      ensures !(realClose && old(sockfd) != -1) ==>
        sockfd == old(sockfd) && epollLog == old(epollLog) && users.count == old(users.count)
    {
      if realClose && sockfd != -1 {
        epollLog := epollLog + [Del(sockfd)];
        sockfd := -1;
        users.count := users.count - 1;
      }
    }

    /** parse_line (lines 115-157): the scan loop over [m_checked_idx, m_read_idx).
        Under Valid the LF-after-CR branch never completes a line (Scanner.NoCrBehind),
        so the method asks only for the indices it reads. */
    method ParseLine() returns (status: LineStatus)
      requires Sized() && checkedIdx <= readIdx <= READ_BUFFER_SIZE
      modifies this`checkedIdx, readBuf
      ensures var r := ScanLine(old(readBuf[..]), old(checkedIdx), readIdx);
        status == r.status && checkedIdx == r.cursor && readBuf[..] == r.buf
    {
      ghost var buf0 := readBuf[..];
      ghost var c0 := checkedIdx;
      while checkedIdx < readIdx
        invariant c0 <= checkedIdx <= readIdx
        invariant readBuf[..] == buf0
        invariant forall i :: c0 <= i < checkedIdx ==> !IsTerminator(buf0[i])
        decreases readIdx - checkedIdx
      {
        var temp := readBuf[checkedIdx];
        if temp == '\r' {
          if checkedIdx + 1 == readIdx {
            ScanCrLast(buf0, c0, readIdx);
            return LineOpen;
          } else if readBuf[checkedIdx + 1] == '\n' {
            ScanCrLf(buf0, c0, readIdx, checkedIdx);
            readBuf[checkedIdx] := '\0';
            checkedIdx := checkedIdx + 1;
            readBuf[checkedIdx] := '\0';
            checkedIdx := checkedIdx + 1;
            return LineOk;
          }
          ScanCrOther(buf0, c0, readIdx, checkedIdx);
          return LineBad;
        } else if temp == '\n' {
          if checkedIdx >= 1 && readBuf[checkedIdx - 1] == '\r' {
            FirstTerminatorIs(buf0, c0, readIdx, checkedIdx);
            readBuf[checkedIdx - 1] := '\0';
            readBuf[checkedIdx] := '\0';
            checkedIdx := checkedIdx + 1;
            return LineOk;
          }
          ScanBareLf(buf0, c0, readIdx, checkedIdx);
          return LineBad;
        }
        checkedIdx := checkedIdx + 1;
      }
      ScanNoTerminator(buf0, c0, readIdx);
      return LineOpen;
    }

    /** parse_request_line (lines 199-259) on the line that starts at text: find the
        end of the method (lines 203-207), then cut there and go on (ParseMethod,
        ParseUrl, ParseVersion, ParseTarget, the stages of the one C function);
        positions are indices into readBuf, as the code's pointers are. */
    method ParseRequestLine(text: nat) returns (code: HttpCode)
      requires Valid() && checkState == RequestLineState && text <= READ_BUFFER_SIZE
      modifies this`requestMethod, this`url, this`version, this`checkState, readBuf
      ensures Valid()
      ensures (code, Parser()) == RequestLineStep(old(Parser()), text)
    {
      ghost var p0 := Parser();
      var mp := Strpbrk(CStr(readBuf[..], text), BLANKS);
      if mp.None? {
        url := None;
        code := BadRequest;
      } else {
        code := ParseMethod(text, text + mp.value);
      }
      RequestLineWalkIs(p0, text);
      RequestLineStepKeeps(p0, text);
      assert (code, Parser()) == RequestLineStep(p0, text);
      assert ValidParser(Parser());
    }

    /** Lines 208-220 of parse_request_line: cut the line at c1, leave m_url just
        past the cut and compare the method with GET. */
    method ParseMethod(text: nat, c1: nat) returns (code: HttpCode)
      requires Sized() && text <= c1 < READ_BUFFER_SIZE
      modifies this`requestMethod, this`url, this`version, this`checkState, readBuf
      ensures (code, Parser()) == RequestLineWalk(old(Parser()), CutMethod(text, c1))
    {
      readBuf[c1] := '\0';
      var get := CaseEq(CStr(readBuf[..], text), "GET");
      url := Some(c1 + 1);
      if !get {
        return BadRequest;
      }
      requestMethod := Get;
      code := ParseUrl();
    }

    /** Lines 226-231 of parse_request_line, from m_url just past the method: skip
        the blanks and look for the end of the URL token. */
    method ParseUrl() returns (code: HttpCode)
      requires Sized() && url.Some? && url.value <= READ_BUFFER_SIZE
      modifies this`url, this`version, this`checkState, readBuf
      ensures (code, Parser()) == RequestLineWalk(old(Parser()), SkipToUrl(old(url.value)))
    {
      var u := url.value + Strspn(CStr(readBuf[..], url.value), BLANKS);
      var kp := Strpbrk(CStr(readBuf[..], u), BLANKS);
      SkipToUrlStep(Parser(), url.value, u);
      url := Some(u);
      if kp.None? {
        version := None;
        return BadRequest;
      }
      code := ParseVersion(u + kp.value);
    }

    /** Lines 232-238 of parse_request_line, with m_url at the URL token: cut after
        it at c2, skip the blanks behind and compare the version. */
    method ParseVersion(c2: nat) returns (code: HttpCode)
      requires Sized() && url.Some? && url.value <= c2 < READ_BUFFER_SIZE
      modifies this`url, this`version, this`checkState, readBuf
      ensures (code, Parser()) == RequestLineWalk(old(Parser()), CutUrl(old(url.value), c2))
    {
      ghost var p := Parser();
      readBuf[c2] := '\0';
      var v := c2 + 1 + Strspn(CStr(readBuf[..], c2 + 1), BLANKS);
      CutUrlStep(p, url.value, c2, v);
      var http11 := CaseEq(CStr(readBuf[..], v), "HTTP/1.1");
      version := Some(v);
      if !http11 {
        return BadRequest;
      }
      code := ParseTarget();
    }

    /** Lines 240-258 of parse_request_line: strip an "http://" prefix up to the first
        '/', insist on a target that starts with '/', and move to the headers. */
    method ParseTarget() returns (code: HttpCode)
      requires Sized() && url.Some? && url.value < READ_BUFFER_SIZE
      modifies this`url, this`checkState
      ensures (code, Parser()) == RequestLineWalk(old(Parser()), CheckUrl(old(url.value)))
    {
      var t := url;
      if PrefixCaseEq(CStr(readBuf[..], t.value), "http://") {
        var sp := Strchr(CStr(readBuf[..], t.value + 7), '/');
        t := if sp.None? then None else Some(t.value + 7 + sp.value);
      }
      var slash := t.Some? && readBuf[t.value] == '/';
      url := t;
      if !slash {
        return BadRequest;
      }
      checkState := HeaderState;
      return NoRequest;
    }

    /** parse_headers (lines 262-314) on the line that starts at text: a blank line
        ends the headers, and Connection, Content-Length and Host are read after the
        name and the blanks that follow it. */
    method ParseHeaders(text: nat) returns (code: HttpCode)
      requires Sized() && text <= READ_BUFFER_SIZE
      modifies this`linger, this`contentLength, this`host, this`checkState
      ensures (code, Parser()) == HeaderStep(old(Parser()), text)
    {
      var line := CStr(readBuf[..], text);
      if line == [] {
        code := EndHeaders(text);
      } else if PrefixCaseEq(line, "Connection:") {
        code := ReadConnection(text);
      } else if PrefixCaseEq(line, "Content-Length:") {
        code := ReadContentLength(text);
      } else if PrefixCaseEq(line, "Host:") {
        code := ReadHost(text);
      } else {
        OtherHeaderIs(Parser(), text);
        code := NoRequest;
      }
    }

    /** Lines 266-283 of parse_headers: the blank line ends the headers; a HEAD
        request is complete here, and so is a GET without a body. */
    method EndHeaders(text: nat) returns (code: HttpCode)
      requires Sized() && text <= READ_BUFFER_SIZE && CStr(readBuf[..], text) == []
      modifies this`checkState
      ensures (code, Parser()) == HeaderStep(old(Parser()), text)
    {
      BlankHeaderIs(Parser(), text);
      if requestMethod == Head {
        return GetRequest;
      }
      if contentLength != 0 {
        checkState := ContentState;
        return NoRequest;
      }
      return GetRequest;
    }

    /** Lines 285-293 of parse_headers: keep-alive (any case), after the name and the
        blanks, sets m_linger; any other value leaves it as it was. */
    method ReadConnection(text: nat) returns (code: HttpCode)
      requires Sized() && text <= READ_BUFFER_SIZE
      requires var line := CStr(readBuf[..], text); line != [] && PrefixCaseEq(line, "Connection:")
      modifies this`linger
      ensures code == NoRequest && linger == (old(linger) || CaseEq(Value(CStr(readBuf[..], text), 11), "keep-alive"))
      ensures (code, Parser()) == HeaderStep(old(Parser()), text)
    {
      ghost var p0 := Parser();
      ConnectionHeaderIs(p0, text);
      var b := readBuf[..];
      var t := text + 11;
      t := t + Strspn(CStr(b, t), BLANKS);
      ValueAt(b, text, 11, t);
      if CaseEq(CStr(b, t), "keep-alive") {
        linger := true;
      }
      assert Parser() == p0.(linger := linger);
      return NoRequest;
    }

    /** Lines 295-300 of parse_headers: atol of the value. */
    method ReadContentLength(text: nat) returns (code: HttpCode)
      requires Sized() && text <= READ_BUFFER_SIZE
      requires var line := CStr(readBuf[..], text);
        line != [] && !PrefixCaseEq(line, "Connection:") && PrefixCaseEq(line, "Content-Length:")
      modifies this`contentLength
      ensures code == NoRequest && contentLength == Atol(Value(CStr(readBuf[..], text), 15))
      ensures (code, Parser()) == HeaderStep(old(Parser()), text)
    {
      ghost var p0 := Parser();
      ContentLengthHeaderIs(p0, text);
      var b := readBuf[..];
      var t := text + 15;
      t := t + Strspn(CStr(b, t), BLANKS);
      ValueAt(b, text, 15, t);
      contentLength := Atol(CStr(b, t));
      assert Parser() == p0.(contentLength := contentLength);
      return NoRequest;
    }

    /** Lines 302-307 of parse_headers: m_host is left at the value, past the name
        and the blanks. */
    method ReadHost(text: nat) returns (code: HttpCode)
      requires Sized() && text <= READ_BUFFER_SIZE
      requires var line := CStr(readBuf[..], text);
        && line != [] && !PrefixCaseEq(line, "Connection:") && !PrefixCaseEq(line, "Content-Length:")
        && PrefixCaseEq(line, "Host:")
      modifies this`host
      ensures code == NoRequest && host == Some(text + 5 + Strspn(CStr(readBuf[..], text)[5..], BLANKS))
      ensures (code, Parser()) == HeaderStep(old(Parser()), text)
    {
      ghost var p0 := Parser();
      HostHeaderIs(p0, text);
      var b := readBuf[..];
      var t := text + 5;
      CStrSuffix(b, text, 5);
      t := t + Strspn(CStr(b, t), BLANKS);
      host := Some(t);
      assert Parser() == p0.(host := host);
      return NoRequest;
    }

    /** parse_content (lines 318-327): the body is complete once m_read_idx reaches
        m_checked_idx + m_content_length, and then a NUL goes after it, at
        text[m_content_length]; the write is made only where that byte lies inside
        the buffer (see RequestParser.Sentinel). */
    method ParseContent(text: nat) returns (code: HttpCode)
      requires Valid() && text <= READ_BUFFER_SIZE
      modifies readBuf
      ensures Valid()
      ensures (code, Parser()) == ContentStep(old(Parser()), text)
    {
      ghost var p0 := Parser();
      if readIdx >= contentLength + checkedIdx {
        if 0 <= contentLength && text + contentLength < READ_BUFFER_SIZE {
          readBuf[text + contentLength] := '\0';
          NulKeepsValid(p0, text + contentLength);
        }
        return GetRequest;
      }
      return NoRequest;
    }

    /** One pass of the process_read loop once the line is there (lines 342-389):
        remember the line start, move m_start_line to the cursor and hand the line to
        the parser of the current state. done says the code returns here; GET_REQUEST
        is where it calls do_request. */
    method DispatchLine() returns (done: bool, ret: HttpCode, ls: LineStatus)
      requires Valid()
      modifies readBuf, this`startLine, this`checkState, this`requestMethod, this`url,
               this`version, this`host, this`linger, this`contentLength
      ensures Valid()
      ensures var s := Dispatch(old(Parser()));
        && done == s.Done? && Parser() == s.p
        && (s.Done? ==> ret == s.code) && (s.Next? ==> ls == s.ls)
    {
      ghost var p := Parser();
      DispatchKeeps(p);
      var text := startLine;
      startLine := checkedIdx;
      ghost var q := Parser();
      assert q == p.(startLine := p.checked);
      match checkState
      case RequestLineState =>
        ret := ParseRequestLine(text);
        done, ls := ret == BadRequest, LineOk;
      case HeaderState =>
        ret := ParseHeaders(text);
        done, ls := ret == BadRequest || ret == GetRequest, LineOk;
      case ContentState =>
        ret := ParseContent(text);
        done, ls := ret == GetRequest, LineOpen;
    }

    /** One evaluation of the loop condition of process_read (lines 339-340) and, when
        it holds, the body without do_request: in the body state with a good status
        the line is not scanned again. */
    method Round(ls0: LineStatus) returns (done: bool, ret: HttpCode, ls: LineStatus)
      requires Valid()
      modifies readBuf, this`checkedIdx, this`startLine, this`checkState, this`requestMethod,
               this`url, this`version, this`host, this`linger, this`contentLength
      ensures Valid()
      ensures var s := ReadStep(old(Parser()), ls0);
        && done == s.Done? && Parser() == s.p
        && (s.Done? ==> ret == s.code) && (s.Next? ==> ls == s.ls)
    {
      ghost var p := Parser();
      if checkState == ContentState && ls0 == LineOk {
        done, ret, ls := DispatchLine();
        return;
      }
      ReadStepKeeps(p, ls0);
      ScanLineEffect(p.buf, p.checked, p.readIdx);
      ScanKeepsNoCrBehind(p.buf, p.checked, p.readIdx);
      var status := ParseLine();
      ghost var q := Parser();
      assert q == p.(buf := q.buf, checked := q.checked);
      assert ValidParser(q);
      if status != LineOk {
        return true, NoRequest, status;
      }
      done, ret, ls := DispatchLine();
    }

    /** process_read (lines 330-394): read lines until one of the parsers answers,
        and resolve the target when the request is complete. */
    method ProcessRead(fs: FileSystem) returns (code: HttpCode)
      requires Valid()
      modifies readBuf, realFile, this`checkedIdx, this`startLine, this`checkState,
               this`requestMethod, this`url, this`version, this`host, this`linger,
               this`contentLength, this`fileStat, this`fileAddress
      ensures Valid()
      ensures var (c, q) := ProcessReadF(old(Parser()), LineOk);
        && Parser() == q
        && (c != GetRequest ==>
              code == c && realFile[..] == old(realFile[..]) && fileStat == old(fileStat) && fileAddress == old(fileAddress))
        && (c == GetRequest ==>
              && q.url.Some? && q.url.value < |q.buf|
              && Resolved(fs, CStr(q.buf, q.url.value), old(realFile[..]), old(fileStat), old(fileAddress),
                          code, realFile[..], fileStat, fileAddress))
    {
      ghost var p0 := Parser();
      ProcessReadKeeps(p0, LineOk);
      var lineStatus := LineOk;
      while true
        invariant Valid()
        invariant ProcessReadF(Parser(), lineStatus) == ProcessReadF(p0, LineOk)
        invariant realFile[..] == old(realFile[..]) && fileStat == old(fileStat) && fileAddress == old(fileAddress)
        decreases Measure(Parser(), lineStatus)
      {
        ghost var p := Parser();
        ReadStepAdvances(p, lineStatus);
        ReadStepKeeps(p, lineStatus);
        var done, ret, ls := Round(lineStatus);
        if done {
          if ret == GetRequest {
            code := DoRequest(fs);
          } else {
            code := ret;
          }
          return;
        }
        lineStatus := ls;
      }
    }

    /** do_request (lines 398-432): m_real_file becomes the document root followed by
        the target at m_url, copied by strncpy (at most URL_ROOM bytes, NUL padded);
        then stat it, refuse what others may not read and directories, and map the
        file. open and mmap are taken to succeed. */
    method DoRequest(fs: FileSystem) returns (code: HttpCode)
      requires Valid() && url.Some? && url.value < READ_BUFFER_SIZE
      modifies realFile, this`fileStat, this`fileAddress
      ensures Valid()
      ensures Resolved(fs, CStr(readBuf[..], url.value), old(realFile[..]), old(fileStat), old(fileAddress),
                       code, realFile[..], fileStat, fileAddress)
    {
      var src := CStr(readBuf[..], url.value);
      CStrHasNoNul(readBuf[..], url.value);
      ghost var before := realFile[..];
      BuildRealFile(src);
      RealFileIsRequestPath(before, src);
      var path := CStr(realFile[..], 0);
      code := StatFile(fs, path);
    }

    /** The two copies of do_request (lines 400-411): the document root, then at most
        URL_ROOM bytes of the target, NUL padded; the last byte is left alone. */
    method BuildRealFile(src: seq<char>)
      requires Sized()
      modifies realFile
      ensures realFile[..] == RealFileBytes(old(realFile[..]), src)
    {
      ghost var before := realFile[..];
      var len := |DOC_ROOT|;
      forall i | 0 <= i < len {
        realFile[i] := DOC_ROOT[i];
      }
      realFile[len] := '\0';
      forall i | 0 <= i < URL_ROOM {
        realFile[len + i] := if i < |src| then src[i] else '\0';
      }
      RealFileIndex(before, src);
      assert realFile[..] == RealFileBytes(before, src);
    }

    /** The stat checks and the mapping of do_request (lines 412-431) for path. */
    method StatFile(fs: FileSystem, path: seq<char>) returns (code: HttpCode)
      modifies this`fileStat, this`fileAddress
      ensures code == Classify(fs, path)
      ensures fileStat == if path in fs then fs[path] else old(fileStat)
      ensures fileAddress == if code == FileRequest then Some(fs[path].data) else old(fileAddress)
    {
      if path !in fs {
        return NoResource;
      }
      fileStat := fs[path];
      if !fileStat.otherReadable {
        return ForbiddenRequest;
      }
      if fileStat.isDirectory {
        return BadRequest;
      }
      fileAddress := Some(fileStat.data);
      return FileRequest;
    }

    /** unmap (lines 435-441): release the mapping and clear m_file_address; with no
        mapping it does nothing, so a second call changes nothing. */
    method Unmap()
      modifies this`fileAddress
      ensures fileAddress == None
    {
      if fileAddress.Some? {
        fileAddress := None;
      }
    }

    /** add_response (lines 503-518) with the format expanded to s: vsnprintf into the
        room left before the last byte, and a mark that moves only when all of s fit. */
    method AddResponse(s: seq<char>) returns (ok: bool)
      requires Sized() && writeIdx <= WRITE_BUFFER_SIZE
      modifies writeBuf, this`writeIdx
      ensures (ok, WState()) == Response.Add(old(WState()), s)
    {
      if writeIdx >= WRITE_BUFFER_SIZE {
        return false;
      }
      var size := WRITE_BUFFER_SIZE - 1 - writeIdx;
      ghost var b0 := writeBuf[..];
      if size > 0 {
        var k := if |s| < size then |s| else size - 1;
        var at := writeIdx;
        forall i | 0 <= i < k {
          writeBuf[at + i] := s[i];
        }
        writeBuf[at + k] := '\0';
        VsnprintfIndex(b0, at, size, s);
        assert writeBuf[..] == Vsnprintf(b0, at, size, s);
      }
      if |s| >= size {
        return false;
      }
      writeIdx := writeIdx + |s|;
      return true;
    }

    /** add_status_line (lines 521-524). */
    method AddStatusLine(status: int, title: seq<char>) returns (ok: bool)
      requires Sized() && writeIdx <= WRITE_BUFFER_SIZE
      modifies writeBuf, this`writeIdx
      ensures (ok, WState()) == Response.Add(old(WState()), StatusLine(status, title))
    {
      ok := AddResponse("HTTP/1.1" + " " + FormatInt(status) + " " + title + "\r\n");
    }

    /** add_content_length (lines 533-536). */
    method AddContentLength(n: int) returns (ok: bool)
      requires Sized() && writeIdx <= WRITE_BUFFER_SIZE
      modifies writeBuf, this`writeIdx
      ensures (ok, WState()) == Response.Add(old(WState()), ContentLengthLine(n))
    {
      ok := AddResponse("Content-Length: " + FormatInt(n) + "\r\n");
    }

    /** add_linger (lines 538-541): keep-alive or close, after m_linger. */
    method AddLinger() returns (ok: bool)
      requires Sized() && writeIdx <= WRITE_BUFFER_SIZE
      modifies writeBuf, this`writeIdx
      ensures (ok, WState()) == Response.Add(old(WState()), LingerLine(linger))
    {
      ok := AddResponse("Connection: " + (if linger then "keep-alive" else "close") + "\r\n");
    }

    /** add_blank_line (lines 543-546). */
    method AddBlankLine() returns (ok: bool)
      requires Sized() && writeIdx <= WRITE_BUFFER_SIZE
      modifies writeBuf, this`writeIdx
      ensures (ok, WState()) == Response.Add(old(WState()), BLANK_LINE)
    {
      ok := AddResponse("\r\n");
    }

    /** add_content (lines 548-551). */
    method AddContent(content: seq<char>) returns (ok: bool)
      requires Sized() && writeIdx <= WRITE_BUFFER_SIZE
      modifies writeBuf, this`writeIdx
      ensures (ok, WState()) == Response.Add(old(WState()), content)
    {
      ok := AddResponse(content);
    }

    /** add_headers (lines 526-531): the three header helpers, their verdicts
        dropped; the C function returns nothing, so the model returns nothing. */
    method AddHeaders(n: int)
      requires Sized() && writeIdx <= WRITE_BUFFER_SIZE
      modifies writeBuf, this`writeIdx
      ensures WState() == Response.AddHeaders(old(WState()), n, linger)
    {
      var okLength := AddContentLength(n);
      var okLinger := AddLinger();
      var okBlank := AddBlankLine();
    }

    /** One error-answer case of process_write (lines 558-597 and 627-630): status line, headers,
        the page; one iovec over the buffer when the page fits. */
    method AddPage(status: int, title: seq<char>, form: seq<char>) returns (ok: bool)
      requires Sized() && writeIdx <= WRITE_BUFFER_SIZE && |iv| == 2
      modifies writeBuf, this`writeIdx, this`iv, this`ivCount
      ensures Parser() == old(Parser()) && realFile[..] == old(realFile[..])
      ensures Staged(ok, WState(), iv, ivCount) ==
        PageResponse(ErrorPage(status, title, form), linger, old(WState()), old(iv), old(ivCount))
    {
      ghost var w0 := WState();
      ok := AddPageText(status, title, form);
      PageResponseIs(ErrorPage(status, title, form), linger, w0, iv, ivCount,
                     Response.Add(w0, StatusLine(status, title)).1,
                     Response.AddHeaders(Response.Add(w0, StatusLine(status, title)).1, |form|, linger), ok, WState());
      if ok {
        iv := iv[0 := IoVec(WriteBuffer, writeIdx)];
        ivCount := 1;
      }
    }

    /** The three calls of an error case of process_write (lines 560-562 for
        INTERNAL_ERROR, the same for the other three): status line, headers and body. */
    method AddPageText(status: int, title: seq<char>, form: seq<char>) returns (ok: bool)
      requires Sized() && writeIdx <= WRITE_BUFFER_SIZE
      modifies writeBuf, this`writeIdx
      ensures Parser() == old(Parser()) && realFile[..] == old(realFile[..])
      ensures (ok, WState()) ==
        Response.Add(Response.AddHeaders(Response.Add(old(WState()), StatusLine(status, title)).1, |form|, linger), form)
    {
      var okStatus := AddStatusLine(status, title);
      AddHeaders(|form|);
      ok := AddContent(form);
      ReadSideKept();
    }

    /** process_write (lines 554-631): the switch on the verdict of process_read. */
    method ProcessWrite(code: HttpCode) returns (ok: bool)
      requires Sized() && writeIdx <= WRITE_BUFFER_SIZE && |iv| == 2
      modifies writeBuf, this`writeIdx, this`iv, this`ivCount
      ensures Parser() == old(Parser()) && realFile[..] == old(realFile[..])
      ensures Staged(ok, WState(), iv, ivCount) ==
        ProcessWriteF(code, linger, |fileStat.data|, old(WState()), old(iv), old(ivCount))
    {
      match code
      case InternalError =>
        ProcessWritePage(code, linger, |fileStat.data|, WState(), iv, ivCount);
        ok := AddPage(500, ERROR_500_TITLE, ERROR_500_FORM);
      case BadRequest =>
        ProcessWritePage(code, linger, |fileStat.data|, WState(), iv, ivCount);
        ok := AddPage(400, ERROR_400_TITLE, ERROR_400_FORM);
      case NoResource =>
        ProcessWritePage(code, linger, |fileStat.data|, WState(), iv, ivCount);
        ok := AddPage(404, ERROR_404_TITLE, ERROR_404_FORM);
      case ForbiddenRequest =>
        ProcessWritePage(code, linger, |fileStat.data|, WState(), iv, ivCount);
        ok := AddPage(403, ERROR_403_TITLE, ERROR_403_FORM);
      case FileRequest =>
        ProcessWriteFile(linger, |fileStat.data|, WState(), iv, ivCount);
        ok := AddFile();
      case _ =>
        ProcessWriteOthers(code, linger, |fileStat.data|, WState(), iv, ivCount);
        return false;
    }

    /** The FILE_REQUEST case of process_write (lines 598-625). */
    method AddFile() returns (ok: bool)
      requires Sized() && writeIdx <= WRITE_BUFFER_SIZE && |iv| == 2
      modifies writeBuf, this`writeIdx, this`iv, this`ivCount
      ensures Parser() == old(Parser()) && realFile[..] == old(realFile[..])
      ensures Staged(ok, WState(), iv, ivCount) ==
        FileResponse(linger, |fileStat.data|, old(WState()), old(iv), old(ivCount))
    {
      ghost var w0 := WState();
      var size := |fileStat.data|;
      AddFileText(size);
      ghost var w1 := Response.Add(w0, StatusLine(200, OK_200_TITLE)).1;
      if size != 0 {
        FileResponseIs(linger, size, w0, iv, ivCount, w1, WState(), WState());
        iv := [IoVec(WriteBuffer, writeIdx), IoVec(FileMapping, size)];
        ivCount := 2;
        return true;
      }
      FileResponseIs(linger, size, w0, iv, ivCount, w1, Response.AddHeaders(w1, |EMPTY_FILE_BODY|, linger), WState());
      return false;
    }

    /** Lines 600-620 without the iovecs: the status line and the headers, and for an
        empty file the placeholder body. */
    method AddFileText(size: nat)
      requires Sized() && writeIdx <= WRITE_BUFFER_SIZE
      modifies writeBuf, this`writeIdx
      ensures Parser() == old(Parser()) && realFile[..] == old(realFile[..])
      ensures size != 0 ==>
        WState() == Response.AddHeaders(Response.Add(old(WState()), StatusLine(200, OK_200_TITLE)).1, ToInt32(size), linger)
      ensures size == 0 ==>
        WState() == Response.Add(Response.AddHeaders(Response.Add(old(WState()), StatusLine(200, OK_200_TITLE)).1,
                                                     |EMPTY_FILE_BODY|, linger), EMPTY_FILE_BODY).1
    {
      var okStatus := AddStatusLine(200, OK_200_TITLE);
      if size != 0 {
        AddHeaders(ToInt32(size));
      } else {
        AddHeaders(|EMPTY_FILE_BODY|);
        var okBody := AddContent(EMPTY_FILE_BODY);
      }
      ReadSideKept();
    }

    /** process (lines 634-650): parse what has been read; with no complete request
        wait for more input, otherwise stage the answer, close the connection when that
        fails, and wait until the socket is writable. After a close m_sockfd is -1, and
        it is -1 that the last modfd is asked to re-arm. */
    method Process(fs: FileSystem)
      requires Valid()
      modifies readBuf, realFile, writeBuf, this`checkedIdx, this`startLine, this`checkState,
               this`requestMethod, this`url, this`version, this`host, this`linger,
               this`contentLength, this`fileStat, this`fileAddress, this`writeIdx, this`iv,
               this`ivCount, this`epollLog, this`sockfd, users
      ensures Valid()
      ensures Parser() == ProcessReadF(old(Parser()), LineOk).1
      ensures var (c, q) := ProcessReadF(old(Parser()), LineOk);
        && (c != GetRequest ==>
              realFile[..] == old(realFile[..]) && fileStat == old(fileStat) && fileAddress == old(fileAddress))
        && (c == GetRequest ==>
              && q.url.Some? && q.url.value < |q.buf|
              && Resolved(fs, CStr(q.buf, q.url.value), old(realFile[..]), old(fileStat), old(fileAddress),
                          Verdict(fs, old(Parser())), realFile[..], fileStat, fileAddress))
      ensures Verdict(fs, old(Parser())) == FileRequest ==> fileAddress == Some(fileStat.data)
      ensures Outgoing() == Answered(Verdict(fs, old(Parser())), linger, |fileStat.data|, old(Outgoing()))
    {
      ghost var p0 := Parser();
      ghost var before, stat0, addr0 := realFile[..], fileStat, fileAddress;
      var readRet := ProcessRead(fs);
      VerdictOfRead(fs, p0, readRet, before, stat0, addr0, realFile[..], fileStat, fileAddress);
      ghost var file := realFile[..];
      assert Outgoing() == old(Outgoing());
      Answer(readRet);
      assert realFile[..] == file;
    }

    /** The answering half of process (lines 637-649). */
    method Answer(code: HttpCode)
      requires Valid()
      modifies writeBuf, this`writeIdx, this`iv, this`ivCount, this`epollLog, this`sockfd, users
      ensures Valid() && Parser() == old(Parser())
      ensures Outgoing() == Answered(code, linger, |fileStat.data|, old(Outgoing()))
    {
      if code == NoRequest {
        ghost var o0 := Outgoing();
        WaitReadable();
        assert Outgoing() == o0.(log := o0.log + [Mod(o0.fd, In)]);
        return;
      }
      Respond(code);
    }

    /** Lines 642-649: stage the answer, close on failure, wait until writable. */
    method Respond(code: HttpCode)
      requires Valid() && code != NoRequest
      modifies writeBuf, this`writeIdx, this`iv, this`ivCount, this`epollLog, this`sockfd, users
      ensures Valid() && Parser() == old(Parser())
      ensures Outgoing() == Answered(code, linger, |fileStat.data|, old(Outgoing()))
    {
      ghost var o0, size := Outgoing(), |fileStat.data|;
      var writeRet := ProcessWrite(code);
      ghost var st := Staged(writeRet, WState(), iv, ivCount);
      assert st == ProcessWriteF(code, linger, size, o0.w, o0.iv, o0.ivCount);
      Conclude(writeRet);
    }

    /** modfd(EPOLLIN) of process (line 639). */
    method WaitReadable()
      modifies this`epollLog
      ensures epollLog == old(epollLog) + [Mod(sockfd, In)]
    {
      epollLog := epollLog + [Mod(sockfd, In)];
    }

    /** What process does with the verdict of process_write (lines 644-649): close on
        failure, then re-arm EPOLLOUT for whatever m_sockfd now holds. */
    method Conclude(writeRet: bool)
      modifies this`epollLog, this`sockfd, users
      ensures old(Valid()) ==> Valid()
      ensures Parser() == old(Parser())
      ensures Outgoing() == Concluded(Staged(writeRet, old(WState()), old(iv), old(ivCount)),
                                      old(sockfd), old(users.count), old(epollLog))
    {
      if !writeRet {
        CloseConn(true);
      }
      WaitWritable();
    }

    /** read (lines 160-196): refuse a full buffer, else recv into the room left until
        the socket would block. recvs are the results the socket gives, oldest first. */
    method Read(recvs: seq<RecvResult>) returns (ok: bool)
      requires Valid()
      modifies readBuf, this`readIdx
      ensures Valid()
      ensures old(readIdx) == READ_BUFFER_SIZE ==> !ok && readBuf[..] == old(readBuf[..]) && readIdx == old(readIdx)
      ensures old(readIdx) < READ_BUFFER_SIZE ==>
        var r := RecvLoop(old(readBuf[..]), old(readIdx), recvs);
        ok == r.ok && readBuf[..] == r.buf && readIdx == r.idx
    {
      ghost var p0 := Parser();
      ghost var r0 := RecvLoop(readBuf[..], readIdx, recvs);
      RecvKeepsValid(p0, recvs);
      if readIdx >= READ_BUFFER_SIZE {
        return false;
      }
      var i := 0;
      while true
        invariant 0 <= i <= |recvs| && readIdx <= READ_BUFFER_SIZE
        invariant SameEnd(RecvLoop(readBuf[..], readIdx, recvs[i..]), r0)
        decreases |recvs| - i
      {
        if i == |recvs| {
          ok := true;
          break;
        }
        var res := recvs[i];
        ghost var b, x, rest := readBuf[..], readIdx, recvs[i..];
        RecvStep(b, x, rest);
        assert rest[1..] == recvs[i + 1..];
        i := i + 1;
        if res == RecvWouldBlock {
          ok := true;
          break;
        } else if res == RecvFailed || res == PeerClosed {
          ok := false;
          break;
        }
        var n := Min(|res.data|, READ_BUFFER_SIZE - readIdx);
        if n == 0 {
          ok := false;
          break;
        }
        Store(res.data, n);
        RecvStored(b, x, rest, r0, readBuf[..], readIdx, recvs[i..]);
      }
      assert Parser() == p0.(buf := r0.buf, readIdx := r0.idx);
    }

    /** What one successful recv does (lines 181 and 192): its n bytes land at
        m_read_idx and the index moves past them. */
    method Store(data: seq<char>, n: nat)
      requires Sized() && n <= |data| && readIdx + n <= READ_BUFFER_SIZE
      modifies readBuf, this`readIdx
      ensures readBuf[..] == old(readBuf[..])[..old(readIdx)] + data[..n] + old(readBuf[..])[old(readIdx) + n..]
      ensures readIdx == old(readIdx) + n
    {
      ghost var b := readBuf[..];
      var at := readIdx;
      forall k | 0 <= k < n {
        readBuf[at + k] := data[k];
      }
      SpliceIndex(b, at, data[..n]);
      assert readBuf[..] == b[..at] + data[..n] + b[at + n..];
      readIdx := readIdx + n;
    }

    /** write (lines 445-498): writev the staged iovecs until the socket would block,
        writev fails, or the bytes counted from m_write_idx have gone. sends are the
        results the socket gives, oldest first. */
    method Write(sends: seq<WritevResult>) returns (ok: bool)
      requires Valid()
      modifies this`checkState, this`linger, this`requestMethod, this`url, this`version,
               this`contentLength, this`host, this`startLine, this`checkedIdx, this`readIdx,
               this`writeIdx, readBuf, writeBuf, realFile, this`epollLog, this`fileAddress
      ensures Valid()
      ensures old(writeIdx) == 0 ==>
        ok && epollLog == old(epollLog) + [Mod(sockfd, In)] && Cleared() && fileAddress == old(fileAddress)
      ensures var end := WriteLoop(old(writeIdx), sends).0;
        && (old(writeIdx) != 0 && end == WriteBlocked ==>
              ok && epollLog == old(epollLog) + [Mod(sockfd, Out)] && fileAddress == old(fileAddress)
              && Parser() == old(Parser()) && WState() == old(WState()) && realFile[..] == old(realFile[..]))
        && (old(writeIdx) != 0 && end == WriteFailed ==>
              !ok && epollLog == old(epollLog) && fileAddress == None
              && Parser() == old(Parser()) && WState() == old(WState()) && realFile[..] == old(realFile[..]))
        && (old(writeIdx) != 0 && end == WriteDone ==>
              ok == old(linger) && epollLog == old(epollLog) + [Mod(sockfd, In)] && fileAddress == None
              && (old(linger) ==> Cleared())
              && (!old(linger) ==> Parser() == old(Parser()) && WState() == old(WState()) && realFile[..] == old(realFile[..])))
    {
      var bytesHaveSend := 0;
      var bytesToSend: int := writeIdx;
      if bytesToSend == 0 {
        epollLog := epollLog + [Mod(sockfd, In)];
        Init();
        return true;
      }
      var i := 0;
      var end := WriteBlocked;
      while true
        invariant 0 <= i <= |sends| && bytesToSend > 0
        invariant WriteLoop(bytesToSend, sends[i..]).0 == WriteLoop(writeIdx, sends).0
        decreases |sends| - i
      {
        if i == |sends| {
          end := WriteBlocked;
          break;
        }
        var temp := sends[i];
        assert sends[i..][1..] == sends[i + 1..];
        i := i + 1;
        if temp == WritevWouldBlock {
          end := WriteBlocked;
          break;
        } else if temp == WritevFailed {
          end := WriteFailed;
          break;
        }
        bytesToSend := bytesToSend - temp.n;
        bytesHaveSend := bytesHaveSend + temp.n;
        if bytesToSend <= 0 {
          end := WriteDone;
          break;
        }
      }
      if end == WriteBlocked {
        WaitWritable();
        return true;
      }
      if end == WriteFailed {
        Unmap();
        return false;
      }
      ok := Finished();
    }

    /** writev would block: wait for the next EPOLLOUT (line 469). */
    method WaitWritable()
      modifies this`epollLog
      ensures epollLog == old(epollLog) + [Mod(sockfd, Out)]
    {
      epollLog := epollLog + [Mod(sockfd, Out)];
    }

    /** The whole answer has gone (lines 483-495): unmap the file, then keep the
        connection for the next request when it lingers, or report that it should close. */
    method Finished() returns (ok: bool)
      requires Valid()
      modifies this`checkState, this`linger, this`requestMethod, this`url, this`version,
               this`contentLength, this`host, this`startLine, this`checkedIdx, this`readIdx,
               this`writeIdx, readBuf, writeBuf, realFile, this`epollLog, this`fileAddress
      ensures Valid()
      ensures ok == old(linger) && epollLog == old(epollLog) + [Mod(sockfd, In)] && fileAddress == None
      ensures old(linger) ==> Cleared()
      ensures !old(linger) ==> Parser() == old(Parser()) && WState() == old(WState()) && realFile[..] == old(realFile[..])
    {
      Unmap();
      if linger {
        Init();
        epollLog := epollLog + [Mod(sockfd, In)];
        return true;
      }
      epollLog := epollLog + [Mod(sockfd, In)];
      return false;
    }
  }
}
