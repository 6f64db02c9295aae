/** The request parser of http_conn as functions of the connection's parser fields:
    parse_request_line (the request line of section 3 of RFC 9112, absolute form of
    section 3.2.2 included), parse_headers (Connection, Content-Length of section 8.6
    of RFC 9110, Host), parse_content, and the process_read loop that drives the
    three-state machine. The methods of Connection.HttpConn are proved to act as
    these functions say. */
module RequestParser {
  import opened CString
  import opened Http
  import opened Scanner

  /** The fields of a connection the parser reads and writes. url, version and host
      are offsets into buf (m_url, m_version, m_host). */
  datatype ParserState = ParserState(
    buf: seq<char>,
    checked: nat,
    readIdx: nat,
    startLine: nat,
    state: CheckState,
    requestMethod: Method,
    url: Option<nat>,
    version: Option<nat>,
    host: Option<nat>,
    linger: bool,
    contentLength: int)
  {
    /** m_start_line <= m_checked_idx <= m_read_idx <= READ_BUFFER_SIZE */
    predicate Valid() {
      startLine <= checked <= readIdx <= |buf|
    }
  }

  /** b is a the same buffer as a except that some bytes became NUL. */
  predicate OnlyNuls(a: seq<char>, b: seq<char>) {
    |a| == |b| && forall i :: 0 <= i < |a| && b[i] != a[i] ==> b[i] == '\0'
  }

  lemma {:induction false} OnlyNulsTrans(a: seq<char>, b: seq<char>, c: seq<char>)
    requires OnlyNuls(a, b) && OnlyNuls(b, c)
    ensures OnlyNuls(a, c)
  {
  }

  // ---------------------------------------------------------------- request line

  /** How parse_request_line ends. `cuts` are the offsets in the line it overwrote
      with NUL before giving up, `getSeen` whether the method had matched GET, `urlLeft`
      the offset m_url was left at (None for a null m_url), `versionSet` whether
      m_version was assigned and `versionLeft` the offset it got. On success the line was
      cut after the method and after the URL; url is where the target (after any
      "http://host" prefix) starts, version where the version does. */
  datatype RequestLineParse =
    | RequestLineBad(cuts: seq<nat>, getSeen: bool, urlLeft: Option<nat>, versionSet: bool, versionLeft: Option<nat>)
    | RequestLineGood(methodEnd: nat, urlStart: nat, urlEnd: nat, url: nat, version: nat)

  /** The stages of parse_request_line on the line, with the offsets it has reached:
      the method ends at the blank m, the URL token runs from u to the blank at e,
      the version starts at v. */
  datatype LineStage =
    | MethodEnd
    | UrlStart(m: nat)
    | UrlEnd(m: nat, u: nat)
    | VersionStart(m: nat, u: nat, e: nat)
    | TargetCheck(m: nat, u: nat, e: nat, v: nat)

  /** The stages left after st. */
  function StageRank(st: LineStage): nat {
    match st
    case MethodEnd => 4
    case UrlStart(_) => 3
    case UrlEnd(_, _) => 2
    case VersionStart(_, _, _) => 1
    case TargetCheck(_, _, _, _) => 0
  }

  /** The offsets of a stage lie inside the line. */
  predicate StageFits(line: seq<char>, st: LineStage) {
    match st
    case MethodEnd => true
    case UrlStart(m) => m < |line|
    case UrlEnd(_, u) => u <= |line|
    case VersionStart(_, u, e) => u <= e < |line|
    case TargetCheck(_, u, e, _) => u <= e < |line|
  }

  /** parse_request_line (lines 203-259) on the C string line, from stage st on.
      Every C string the code reads after a cut is a slice of the original line
      (CString.CStrAfterCut), so the cuts are recorded rather than made. */
  function ParseFrom(line: seq<char>, st: LineStage): RequestLineParse
    requires StageFits(line, st)
    decreases StageRank(st)
  {
    match st
    case MethodEnd =>
      (match Strpbrk(line, BLANKS)
       case None => RequestLineBad([], false, None, false, None)
       case Some(m) =>
         if !CaseEq(line[..m], "GET") then RequestLineBad([m], false, Some(m + 1), false, None)
         else ParseFrom(line, UrlStart(m)))
    case UrlStart(m) =>
      ParseFrom(line, UrlEnd(m, m + 1 + Strspn(line[m + 1..], BLANKS)))
    case UrlEnd(m, u) =>
      (match Strpbrk(line[u..], BLANKS)
       case None => RequestLineBad([m], true, Some(u), true, None)
       case Some(k) => ParseFrom(line, VersionStart(m, u, u + k)))
    case VersionStart(m, u, e) =>
      var v := e + 1 + Strspn(line[e + 1..], BLANKS);
      if !CaseEq(line[v..], "HTTP/1.1") then RequestLineBad([m, e], true, Some(u), true, Some(v))
      else ParseFrom(line, TargetCheck(m, u, e, v))
    case TargetCheck(m, u, e, v) =>
      (match TargetStart(line, u, e)
       case None =>
         var url := if PrefixCaseEq(line[u..e], "http://") then None else Some(u);
         RequestLineBad([m, e], true, url, true, Some(v))
       case Some(t) => RequestLineGood(m, u, e, t, v))
  }

  /** parse_request_line on the whole line. */
  function ParseRequestLineText(line: seq<char>): RequestLineParse {
    ParseFrom(line, MethodEnd)
  }

  /** Where the target starts inside the URL token line[u..e]: after "http://" (any
      case) at the first '/', otherwise at u if the token starts with '/'. */
  function TargetStart(line: seq<char>, u: nat, e: nat): Option<nat>
    requires u <= e < |line|
  {
    if PrefixCaseEq(line[u..e], "http://") then
      match Strchr(line[u + 7..e], '/')
      case None => None
      case Some(s) => Some(u + 7 + s)
    else if line[u] == '/' then Some(u)
    else None
  }

  /** Every character of line[a..b] is a blank. */
  predicate AllBlank(line: seq<char>, a: nat, b: nat)
    requires a <= b <= |line|
  {
    forall i :: a <= i < b ==> line[i] in BLANKS
  }

  /** No character of line[a..b] is a blank. */
  predicate NoBlank(line: seq<char>, a: nat, b: nat)
    requires a <= b <= |line|
  {
    forall i :: a <= i < b ==> line[i] !in BLANKS
  }

  /** line[a..b] holds no blank and a blank follows it. */
  predicate Token(line: seq<char>, a: nat, b: nat) {
    a <= b < |line| && NoBlank(line, a, b) && line[b] in BLANKS
  }

  /** line[a..b] is a maximal run of blanks. */
  predicate Blanks(line: seq<char>, a: nat, b: nat) {
    a <= b <= |line| && AllBlank(line, a, b) && (b < |line| ==> line[b] !in BLANKS)
  }

  /** The target inside the URL token line[u..e]: the token itself when it starts with
      '/', or, when it starts with "http://" up to case, the rest from the first '/'
      after those seven characters. */
  predicate Target(line: seq<char>, u: nat, e: nat, t: nat) {
    && u <= t < e < |line|
    && line[t] == '/'
    && (t == u || (PrefixCaseEq(line[u..e], "http://") && u + 7 <= t && forall i :: u + 7 <= i < t ==> line[i] != '/'))
  }

  /** The shape of an accepted request line, stated without the C routines: a method
      token equal to GET up to case, a run of blanks, a non-empty URL token, a run of
      blanks, then exactly HTTP/1.1 up to case with nothing after it. */
  predicate AcceptedShape(line: seq<char>, m: nat, u: nat, e: nat, t: nat, v: nat) {
    && m < u < e < v <= |line|
    && Token(line, 0, m) && CaseEq(line[..m], "GET")
    && Blanks(line, m + 1, u)
    && Token(line, u, e)
    && Blanks(line, e + 1, v)
    && CaseEq(line[v..], "HTTP/1.1")
    && Target(line, u, e, t)
  }

  lemma {:induction false} TokenFound(line: seq<char>, a: nat)
    requires a <= |line| && Strpbrk(line[a..], BLANKS).Some?
    ensures Token(line, a, a + Strpbrk(line[a..], BLANKS).value)
  {
    var k := Strpbrk(line[a..], BLANKS).value;
    StrpbrkSpec(line[a..], BLANKS);
    assert line[a + k] == line[a..][k];
    assert forall i :: a <= i < a + k ==> line[i] == line[a..][i - a];
  }

  lemma {:induction false} TokenIs(line: seq<char>, a: nat, b: nat)
    requires Token(line, a, b)
    ensures Strpbrk(line[a..], BLANKS) == Some(b - a)
  {
    assert forall i :: 0 <= i < b - a ==> line[a..][i] == line[a + i];
    assert line[a..][b - a] == line[b];
    StrpbrkIs(line[a..], BLANKS, b - a);
  }

  lemma {:induction false} BlanksFound(line: seq<char>, a: nat)
    requires a <= |line|
    ensures Blanks(line, a, a + Strspn(line[a..], BLANKS))
  {
    var n := Strspn(line[a..], BLANKS);
    StrspnSpec(line[a..], BLANKS);
    if a + n < |line| { assert line[a + n] == line[a..][n]; }
    assert forall i :: a <= i < a + n ==> line[i] == line[a..][i - a];
  }

  lemma {:induction false} BlanksIs(line: seq<char>, a: nat, b: nat)
    requires Blanks(line, a, b)
    ensures Strspn(line[a..], BLANKS) == b - a
  {
    assert forall i :: 0 <= i < b - a ==> line[a..][i] == line[a + i];
    if b < |line| { assert line[a..][b - a] == line[b]; }
    StrspnIs(line[a..], BLANKS, b - a);
  }

  lemma {:induction false} TargetFound(line: seq<char>, u: nat, e: nat)
    requires u < e < |line| && TargetStart(line, u, e).Some?
    ensures Target(line, u, e, TargetStart(line, u, e).value)
  {
    if PrefixCaseEq(line[u..e], "http://") {
      var s := Strchr(line[u + 7..e], '/').value;
      StrpbrkSpec(line[u + 7..e], ['/']);
      assert line[u + 7..e][s] == line[u + 7 + s];
      assert forall i :: u + 7 <= i < u + 7 + s ==> line[i] == line[u + 7..e][i - u - 7];
    }
  }

  lemma {:induction false} TargetIs(line: seq<char>, u: nat, e: nat, t: nat)
    requires Target(line, u, e, t)
    ensures TargetStart(line, u, e) == Some(t)
  {
    if t > u {
      var url := line[u + 7..e];
      assert forall i :: 0 <= i < t - u - 7 ==> url[i] == line[u + 7 + i];
      assert url[t - u - 7] == line[t];
      StrpbrkIs(url, ['/'], t - u - 7);
    } else if e - u >= 7 {
      assert line[u..e][..7][0] == '/';
    }
  }

  lemma {:induction false} AfterUrlShape(line: seq<char>, m: nat, u: nat, e: nat)
    requires u < e < |line| && ParseFrom(line, VersionStart(m, u, e)).RequestLineGood?
    ensures var r := ParseFrom(line, VersionStart(m, u, e));
      && r.methodEnd == m && r.urlStart == u && r.urlEnd == e && e < r.version <= |line|
      && Blanks(line, e + 1, r.version)
      && CaseEq(line[r.version..], "HTTP/1.1")
      && Target(line, u, e, r.url)
  {
    var v := e + 1 + Strspn(line[e + 1..], BLANKS);
    ParseVersion(line, m, u, e, v);
    BlanksFound(line, e + 1);
    TargetFound(line, u, e);
  }

  lemma {:induction false} AfterMethodShape(line: seq<char>, m: nat)
    requires m < |line| && ParseFrom(line, UrlStart(m)).RequestLineGood?
    ensures var r := ParseFrom(line, UrlStart(m));
      && r.methodEnd == m && m < r.urlStart < r.urlEnd < r.version <= |line|
      && Blanks(line, m + 1, r.urlStart)
      && Token(line, r.urlStart, r.urlEnd)
      && Blanks(line, r.urlEnd + 1, r.version)
      && CaseEq(line[r.version..], "HTTP/1.1")
      && Target(line, r.urlStart, r.urlEnd, r.url)
  {
    var u := m + 1 + Strspn(line[m + 1..], BLANKS);
    AfterMethodFindsUrlEnd(line, m);
    var e := u + Strpbrk(line[u..], BLANKS).value;
    AfterMethodUnfold(line, m, u, e);
    BlanksFound(line, m + 1);
    TokenFound(line, u);
    assert Token(line, u, e);
    AfterUrlShape(line, m, u, e);
    var r := ParseFrom(line, VersionStart(m, u, e));
    assert r.urlStart == u && r.urlEnd == e;
  }

  lemma {:induction false} AfterMethodFindsUrlEnd(line: seq<char>, m: nat)
    requires m < |line| && ParseFrom(line, UrlStart(m)).RequestLineGood?
    ensures var u := m + 1 + Strspn(line[m + 1..], BLANKS);
      && u <= |line| && Strpbrk(line[u..], BLANKS).Some?
      && u < u + Strpbrk(line[u..], BLANKS).value
  {
    var u := m + 1 + Strspn(line[m + 1..], BLANKS);
    BlanksFound(line, m + 1);
    if Strpbrk(line[u..], BLANKS).None? {
      ParseNoUrlEnd(line, m, u);
    }
    StrpbrkSpec(line[u..], BLANKS);
    if u < |line| { assert line[u..][0] == line[u]; }
  }

  /** Soundness: whatever parse_request_line accepts has the shape above. */
  lemma {:induction false} AcceptedHasShape(line: seq<char>)
    requires ParseRequestLineText(line).RequestLineGood?
    ensures var r := ParseRequestLineText(line);
      AcceptedShape(line, r.methodEnd, r.urlStart, r.urlEnd, r.url, r.version)
  {
    assert line[0..] == line;
    TokenFound(line, 0);
    var m := Strpbrk(line, BLANKS).value;
    assert line[..m] == line[0..m];
    AfterMethodShape(line, m);
  }

  /** Completeness: every line of that shape is accepted, with exactly those offsets.
      With AcceptedHasShape this makes the shape an exact description of the lines
      parse_request_line accepts. */
  lemma {:induction false} ShapeIsAccepted(line: seq<char>, m: nat, u: nat, e: nat, t: nat, v: nat)
    requires AcceptedShape(line, m, u, e, t, v)
    ensures ParseRequestLineText(line) == RequestLineGood(m, u, e, t, v)
  {
    assert line[0..] == line;
    assert line[..m] == line[0..m];
    TokenIs(line, 0, m);
    AfterMethodIs(line, m, u, e, t, v);
  }

  lemma {:induction false} AfterMethodIs(line: seq<char>, m: nat, u: nat, e: nat, t: nat, v: nat)
    requires m < u < e < v <= |line|
    requires Blanks(line, m + 1, u) && Token(line, u, e) && Blanks(line, e + 1, v)
    requires CaseEq(line[v..], "HTTP/1.1") && Target(line, u, e, t)
    ensures ParseFrom(line, UrlStart(m)) == RequestLineGood(m, u, e, t, v)
  {
    BlanksIs(line, m + 1, u);
    TokenIs(line, u, e);
    AfterMethodUnfold(line, m, u, e);
    AfterUrlIs(line, m, u, e, t, v);
  }

  lemma {:induction false} AfterMethodUnfold(line: seq<char>, m: nat, u: nat, e: nat)
    requires m < |line| && u <= e < |line|
    requires Strspn(line[m + 1..], BLANKS) == u - m - 1
    requires Strpbrk(line[u..], BLANKS) == Some(e - u)
    ensures ParseFrom(line, UrlStart(m)) == ParseFrom(line, VersionStart(m, u, e))
  {
    assert ParseFrom(line, UrlStart(m)) == ParseFrom(line, UrlEnd(m, u));
  }

  lemma {:induction false} AfterUrlIs(line: seq<char>, m: nat, u: nat, e: nat, t: nat, v: nat)
    requires u < e < v <= |line|
    requires Blanks(line, e + 1, v) && CaseEq(line[v..], "HTTP/1.1") && Target(line, u, e, t)
    ensures ParseFrom(line, VersionStart(m, u, e)) == RequestLineGood(m, u, e, t, v)
  {
    BlanksIs(line, e + 1, v);
    TargetIs(line, u, e, t);
  }

  // The outcomes of parse_request_line one exit at a time.

  lemma {:induction false} ParseNoBlank(line: seq<char>)
    requires Strpbrk(line, BLANKS).None?
    ensures ParseRequestLineText(line) == RequestLineBad([], false, None, false, None)
  {
  }

  lemma {:induction false} ParseMethod(line: seq<char>, m: nat)
    requires Strpbrk(line, BLANKS) == Some(m)
    ensures !CaseEq(line[..m], "GET") ==> ParseRequestLineText(line) == RequestLineBad([m], false, Some(m + 1), false, None)
    ensures CaseEq(line[..m], "GET") ==> ParseRequestLineText(line) == ParseFrom(line, UrlStart(m))
  {
  }

  lemma {:induction false} ParseNoUrlEnd(line: seq<char>, m: nat, u: nat)
    requires m < |line| && u == m + 1 + Strspn(line[m + 1..], BLANKS)
    requires Strpbrk(line[u..], BLANKS).None?
    ensures ParseFrom(line, UrlStart(m)) == RequestLineBad([m], true, Some(u), true, None)
  {
    assert ParseFrom(line, UrlStart(m)) == ParseFrom(line, UrlEnd(m, u));
  }

  lemma {:induction false} ParseVersion(line: seq<char>, m: nat, u: nat, e: nat, v: nat)
    requires u <= e < |line| && v == e + 1 + Strspn(line[e + 1..], BLANKS)
    ensures !CaseEq(line[v..], "HTTP/1.1") ==>
      ParseFrom(line, VersionStart(m, u, e)) == RequestLineBad([m, e], true, Some(u), true, Some(v))
    ensures CaseEq(line[v..], "HTTP/1.1") && TargetStart(line, u, e).Some? ==>
      ParseFrom(line, VersionStart(m, u, e)) == RequestLineGood(m, u, e, TargetStart(line, u, e).value, v)
    ensures CaseEq(line[v..], "HTTP/1.1") && TargetStart(line, u, e).None? ==>
      ParseFrom(line, VersionStart(m, u, e))
        == RequestLineBad([m, e], true, if PrefixCaseEq(line[u..e], "http://") then None else Some(u), true, Some(v))
  {
    if CaseEq(line[v..], "HTTP/1.1") {
      assert ParseFrom(line, VersionStart(m, u, e)) == ParseFrom(line, TargetCheck(m, u, e, v));
    }
  }

  /** The URL token found after the blanks is never empty. */
  lemma {:induction false} UrlTokenNonEmpty(line: seq<char>, m: nat, u: nat)
    requires m < |line| && u == m + 1 + Strspn(line[m + 1..], BLANKS)
    requires Strpbrk(line[u..], BLANKS).Some?
    ensures Strpbrk(line[u..], BLANKS).value > 0
  {
    BlanksFound(line, m + 1);
    StrpbrkSpec(line[u..], BLANKS);
    assert line[u..][0] == line[u];
  }

  /** The exits of parse_request_line after a GET method, with the offsets the code
      computes: u past the blanks, e = u + k at the next blank, v past the blanks
      after it. The URL token is never empty, and the version decides between the
      rejection with both cuts made and the target check. */
  lemma {:induction false} AfterMethodExits(line: seq<char>, m: nat, u: nat, k: nat, e: nat, v: nat)
    requires m < |line| && u == m + 1 + Strspn(line[m + 1..], BLANKS)
    requires Strpbrk(line[u..], BLANKS) == Some(k) && e == u + k
    requires v == e + 1 + Strspn(line[e + 1..], BLANKS)
    ensures m < u < e < v <= |line|
    ensures !CaseEq(line[v..], "HTTP/1.1") ==>
      ParseFrom(line, UrlStart(m)) == RequestLineBad([m, e], true, Some(u), true, Some(v))
    ensures CaseEq(line[v..], "HTTP/1.1") ==> ParseFrom(line, UrlStart(m)) == ParseFrom(line, TargetCheck(m, u, e, v))
  {
    UrlTokenNonEmpty(line, m, u);
    AfterMethodUnfold(line, m, u, e);
    ParseVersion(line, m, u, e, v);
  }

  /** Overwrites with NUL the bytes at base + c for every offset c in cuts. */
  function CutAt(buf: seq<char>, base: nat, cuts: seq<nat>): (r: seq<char>)
    ensures |r| == |buf|
    decreases |cuts|
  {
    if cuts == [] then buf
    else
      var b := if base + cuts[0] < |buf| then buf[base + cuts[0] := '\0'] else buf;
      CutAt(b, base, cuts[1..])
  }

  /** The cuts only ever write NUL. */
  lemma {:induction false} CutAtOnlyNuls(buf: seq<char>, base: nat, cuts: seq<nat>)
    ensures OnlyNuls(buf, CutAt(buf, base, cuts))
    decreases |cuts|
  {
    if cuts != [] {
      var b := if base + cuts[0] < |buf| then buf[base + cuts[0] := '\0'] else buf;
      CutAtOnlyNuls(b, base, cuts[1..]);
      OnlyNulsTrans(buf, b, CutAt(b, base, cuts[1..]));
    }
  }

  lemma {:induction false} CutAtShort(buf: seq<char>, base: nat, a: nat, b: nat)
    requires base + a < |buf| && base + b < |buf|
    ensures CutAt(buf, base, [a]) == buf[base + a := '\0']
    ensures CutAt(buf, base, [a, b]) == buf[base + a := '\0'][base + b := '\0']
  {
    var b1 := buf[base + a := '\0'];
    assert [a][1..] == [];
    assert [a, b][1..] == [b];
    assert CutAt(buf, base, [a, b]) == CutAt(b1, base, [b]);
    assert CutAt(b1, base, [b]) == CutAt(b1[base + b := '\0'], base, []);
  }

  /** An offset inside the line as an offset inside the buffer. */
  function Shift(text: nat, o: Option<nat>): Option<nat> {
    match o
    case None => None
    case Some(k) => Some(text + k)
  }

  /** A target that starts with '/' accepts the request line: both cuts made, the
      URL at the target, the version recorded and the parser on to the headers. */
  lemma {:induction false} CheckTargetAccepted(p: ParserState, text: nat, m: nat, u: nat, e: nat, v: nat)
    requires text <= |p.buf| && u <= e < |CStr(p.buf, text)| && text + m < |p.buf|
    requires TargetStart(CStr(p.buf, text), u, e).Some?
    ensures ApplyRequestLine(p, text, ParseFrom(CStr(p.buf, text), TargetCheck(m, u, e, v)))
      == (NoRequest, p.(buf := p.buf[text + m := '\0'][text + e := '\0'], requestMethod := Get,
                        url := Some(text + TargetStart(CStr(p.buf, text), u, e).value),
                        version := Some(text + v), state := HeaderState))
  {
    var line := CStr(p.buf, text);
    CutAtShort(p.buf, text, m, e);
    assert ParseFrom(line, TargetCheck(m, u, e, v)) == RequestLineGood(m, u, e, TargetStart(line, u, e).value, v);
  }

  /** A target without '/' rejects it, with both cuts made and the version recorded;
      the URL is left unset after "http://" and at the token otherwise. */
  lemma {:induction false} CheckTargetRejected(p: ParserState, text: nat, m: nat, u: nat, e: nat, v: nat)
    requires text <= |p.buf| && u <= e < |CStr(p.buf, text)| && text + m < |p.buf|
    requires TargetStart(CStr(p.buf, text), u, e).None?
    ensures ApplyRequestLine(p, text, ParseFrom(CStr(p.buf, text), TargetCheck(m, u, e, v)))
      == (BadRequest, p.(buf := p.buf[text + m := '\0'][text + e := '\0'], requestMethod := Get,
                         url := if PrefixCaseEq(CStr(p.buf, text)[u..e], "http://") then None else Some(text + u),
                         version := Some(text + v)))
  {
    var line := CStr(p.buf, text);
    CutAtShort(p.buf, text, m, e);
    var url := if PrefixCaseEq(line[u..e], "http://") then None else Some(u);
    assert ParseFrom(line, TargetCheck(m, u, e, v)) == RequestLineBad([m, e], true, url, true, Some(v));
  }

  /** The effect on the connection of a parse_request_line outcome for the line at text. */
  function ApplyRequestLine(p: ParserState, text: nat, r: RequestLineParse): (HttpCode, ParserState) {
    match r
    case RequestLineBad(cuts, getSeen, url, versionSet, version) =>
      (BadRequest, p.(buf := CutAt(p.buf, text, cuts),
                      requestMethod := if getSeen then Get else p.requestMethod,
                      url := Shift(text, url),
                      version := if versionSet then Shift(text, version) else p.version))
    case RequestLineGood(m, u, e, t, v) =>
      (NoRequest, p.(buf := CutAt(p.buf, text, [m, e]), requestMethod := Get, url := Some(text + t),
                     version := Some(text + v), state := HeaderState))
  }

  /** parse_request_line applied to the connection, the line being the C string at text. */
  function RequestLineStep(p: ParserState, text: nat): (HttpCode, ParserState)
    requires text <= |p.buf|
  {
    ApplyRequestLine(p, text, ParseRequestLineText(CStr(p.buf, text)))
  }

  // ---------------------------------------------------------------- headers

  /** What parse_headers makes of one header line. Host carries the offset of the
      value inside the line. */
  datatype Header = BlankLine | Connection(keepAlive: bool) | ContentLength(n: int) | Host(value: nat) | Other

  /** The value of a header after its name: leading blanks skipped (strspn). */
  function Value(line: seq<char>, nameLen: nat): seq<char>
    requires nameLen <= |line|
  {
    var rest := line[nameLen..];
    rest[Strspn(rest, BLANKS)..]
  }

  /** The classification of lines 266-311: names matched case-insensitively as
      prefixes, in the order Connection, Content-Length, Host. */
  function HeaderLine(line: seq<char>): Header {
    if line == [] then BlankLine
    else if PrefixCaseEq(line, "Connection:") then Connection(CaseEq(Value(line, 11), "keep-alive"))
    else if PrefixCaseEq(line, "Content-Length:") then ContentLength(Atol(Value(line, 15)))
    else if PrefixCaseEq(line, "Host:") then Host(5 + Strspn(line[5..], BLANKS))
    else Other
  }

  /** parse_headers applied to the connection (lines 266-313). */
  function HeaderStep(p: ParserState, text: nat): (HttpCode, ParserState)
    requires text <= |p.buf|
  {
    match HeaderLine(CStr(p.buf, text))
    case BlankLine =>
      if p.requestMethod == Head then (GetRequest, p)
      else if p.contentLength != 0 then (NoRequest, p.(state := ContentState))
      else (GetRequest, p)
    case Connection(keepAlive) => (NoRequest, if keepAlive then p.(linger := true) else p)
    case ContentLength(n) => (NoRequest, p.(contentLength := n))
    case Host(value) => (NoRequest, p.(host := Some(text + value)))
    case Other => (NoRequest, p)
  }

  /** The blank line ends the headers: the request is complete unless a body was
      announced, in which case the parser moves on to it. */
  lemma {:induction false} BlankLineEndsHeaders(p: ParserState, text: nat)
    requires text <= |p.buf| && CStr(p.buf, text) == [] && p.requestMethod == Get
    ensures var (code, q) := HeaderStep(p, text);
      && (code == GetRequest <==> p.contentLength == 0)
      && (code == NoRequest <==> p.contentLength != 0)
      && q == (if p.contentLength == 0 then p else p.(state := ContentState))
  {
  }

  /** Connection: keep-alive (any case, after any blanks) sets m_linger; no header
      clears it, and a header the parser does not know changes nothing. */
  lemma {:induction false} HeaderLinger(p: ParserState, text: nat)
    requires text <= |p.buf|
    ensures var (code, q) := HeaderStep(p, text);
      && (p.linger ==> q.linger)
      && (!p.linger ==> (q.linger <==> HeaderLine(CStr(p.buf, text)) == Connection(true)))
      && (HeaderLine(CStr(p.buf, text)) == Other ==> code == NoRequest && q == p)
      && code != BadRequest
  {
  }

  lemma {:induction false} ValueAfterSpace(name: seq<char>, v: seq<char>)
    requires |v| > 0 ==> v[0] !in BLANKS
    ensures Value(name + (" " + v), |name|) == v
  {
    var line := name + (" " + v);
    assert line[|name|..] == " " + v;
    if |v| > 0 { assert (" " + v)[1] == v[0]; }
    StrspnIs(" " + v, BLANKS, 1);
    assert (" " + v)[1..] == v;
  }

  /** A Content-Length line with one space before a value that does not start with a
      blank: the two name tests and the value the parser reads. */
  lemma {:induction false} ContentLengthLineParts(d: seq<char>)
    requires |d| > 0 && d[0] !in BLANKS
    ensures var line := "Content-Length: " + d;
      && line != [] && !PrefixCaseEq(line, "Connection:") && PrefixCaseEq(line, "Content-Length:")
      && Value(line, 15) == d
  {
    var line := "Content-Length:" + (" " + d);
    assert line == "Content-Length: " + d;
    PrefixCaseEqSelf("Content-Length:", " " + d);
    assert line[3] == 't' && ToLower('t') == 't' && ToLower('n') == 'n';
    PrefixCaseEqDiffers(line, "Connection:", 3);
    ValueAfterSpace("Content-Length:", d);
  }

  /** The Content-Length line the response builder emits reads back as the same number. */
  lemma {:induction false} ContentLengthParsesBack(n: int)
    ensures HeaderLine("Content-Length: " + FormatInt(n)) == ContentLength(n)
  {
    var d := FormatInt(n);
    if n >= 0 { assert IsDigit(d[0]); }
    ContentLengthLineParts(d);
    AtolFormatInt(n);
  }

  /** The Connection line the response builder emits reads back as the same choice. */
  lemma {:induction false} ConnectionParsesBack(keepAlive: bool)
    ensures HeaderLine("Connection: " + (if keepAlive then "keep-alive" else "close")) == Connection(keepAlive)
  {
    var v := if keepAlive then "keep-alive" else "close";
    var line := "Connection:" + (" " + v);
    assert line == "Connection: " + v;
    PrefixCaseEqSelf("Connection:", " " + v);
    ValueAfterSpace("Connection:", v);
    if keepAlive {
      CaseEqRefl(v);
    } else {
      assert |v| != |"keep-alive"|;
    }
  }

  // ---------------------------------------------------------------- body

  /** The NUL parse_content puts after the body, text[m_content_length], written only
      when that byte lies at or after text and inside the buffer. The code writes it
      unconditionally (see ContentStepAsWritten). */
  function Sentinel(buf: seq<char>, text: nat, contentLength: int): (r: seq<char>)
    ensures |r| == |buf|
  {
    if 0 <= contentLength && text + contentLength < |buf| then buf[text + contentLength := '\0'] else buf
  }

  /** The body test of parse_content (line 320): measured from m_checked_idx. */
  predicate BodyComplete(p: ParserState) {
    p.readIdx >= p.contentLength + p.checked
  }

  /** parse_content applied to the connection (lines 318-327); text is the start of
      the current line. */
  function ContentStep(p: ParserState, text: nat): (HttpCode, ParserState) {
    if BodyComplete(p) then (GetRequest, p.(buf := Sentinel(p.buf, text, p.contentLength)))
    else (NoRequest, p)
  }

  /** The sentinel changes at most one byte, the one contentLength bytes after text,
      and only when that byte is inside the buffer; in the body state text is the
      start of the body, so the byte lies between the body start and the end of the
      buffer. */
  lemma {:induction false} ContentSentinelInBounds(p: ParserState, text: nat)
    ensures var (code, q) := ContentStep(p, text);
      && (code == GetRequest <==> BodyComplete(p))
      && |q.buf| == |p.buf|
      && (forall i :: 0 <= i < |p.buf| && q.buf[i] != p.buf[i] ==>
            text <= i == text + p.contentLength < |p.buf| && q.buf[i] == '\0')
      && q == p.(buf := q.buf)
  {
  }

  /** parse_content as written: the verdict and the index it writes the NUL at. */
  function ContentStepAsWritten(p: ParserState, text: nat): (r: (HttpCode, int))
    ensures r.0 == GetRequest <==> BodyComplete(p)
  {
    if BodyComplete(p) then (GetRequest, text + p.contentLength) else (NoRequest, -1)
  }

  /** As written, a body that ends exactly at the end of the read buffer makes
      parse_content write one byte past m_read_buf, and a negative Content-Length
      makes it write before the body, into the header lines. */
  lemma {:induction false} ContentStepAsWrittenEscapes(buf: seq<char>)
    requires |buf| == READ_BUFFER_SIZE
    ensures var p := ParserState(buf, 2000, READ_BUFFER_SIZE, 2000, ContentState, Get, Some(4), Some(20), None, false, 48);
      ContentStepAsWritten(p, 2000) == (GetRequest, READ_BUFFER_SIZE)
    ensures var p := ParserState(buf, 100, 100, 100, ContentState, Get, Some(4), Some(20), None, false, -3);
      ContentStepAsWritten(p, 100) == (GetRequest, 97)
  {
  }

  // ---------------------------------------------------------------- driver

  /** One pass of the process_read loop: either it returns, or it goes round again
      with the given line status. */
  datatype Step = Done(code: HttpCode, p: ParserState) | Next(p: ParserState, ls: LineStatus)

  /** The part of the loop body after the line has been obtained (lines 342-389):
      remember the line start, then act according to the state. */
  function Dispatch(p: ParserState): Step
    requires p.Valid()
  {
    var text := p.startLine;
    var q := p.(startLine := p.checked);
    match q.state
    case RequestLineState =>
      var (code, q2) := RequestLineStep(q, text);
      if code == BadRequest then Done(BadRequest, q2) else Next(q2, LineOk)
    case HeaderState =>
      var (code, q2) := HeaderStep(q, text);
      if code == BadRequest then Done(BadRequest, q2)
      else if code == GetRequest then Done(GetRequest, q2)
      else Next(q2, LineOk)
    case ContentState =>
      var (code, q2) := ContentStep(q, text);
      if code == GetRequest then Done(GetRequest, q2) else Next(q2, LineOpen)
  }

  /** One evaluation of the loop condition (lines 339-340) and, when it holds, one pass
      of the body. In the body state with a good line status the scanner is not run. */
  function ReadStep(p: ParserState, ls: LineStatus): Step
    requires p.Valid()
  {
    if p.state == ContentState && ls == LineOk then Dispatch(p)
    else
      var r := ScanLine(p.buf, p.checked, p.readIdx);
      var q := p.(buf := r.buf, checked := r.cursor);
      if r.status != LineOk then Done(NoRequest, q) else Dispatch(q)
  }

  /** Each pass of the loop either returns or consumes input: the scan cursor moves,
      or the status drops from LineOk to LineOpen. */
  function Measure(p: ParserState, ls: LineStatus): nat
    requires p.Valid()
  {
    2 * (p.readIdx - p.checked) + (if p.state == ContentState && ls == LineOk then 1 else 0)
  }

  /** What one step may do to the parser fields: keep them valid, leave m_read_idx
      alone, only add NULs to the buffer, never move the cursor or the state back,
      never clear m_linger. */
  predicate Advances(p: ParserState, q: ParserState) {
    && q.Valid()
    && q.readIdx == p.readIdx
    && OnlyNuls(p.buf, q.buf)
    && p.checked <= q.checked
    && Rank(p.state) <= Rank(q.state)
    && (p.linger ==> q.linger)
  }

  lemma {:induction false} RequestLineStepAdvances(p: ParserState, text: nat)
    requires p.Valid() && text <= |p.buf| && p.state == RequestLineState
    ensures var q := RequestLineStep(p, text).1;
      Advances(p, q) && q.checked == p.checked && q.startLine == p.startLine
  {
    var r := ParseRequestLineText(CStr(p.buf, text));
    assert RequestLineStep(p, text) == ApplyRequestLine(p, text, r);
    match r
    case RequestLineBad(cuts, _, _, _, _) => CutAtOnlyNuls(p.buf, text, cuts);
    case RequestLineGood(m, _, e, _, _) => CutAtOnlyNuls(p.buf, text, [m, e]);
  }

  /** An accepted request line leaves m_url inside the buffer. */
  lemma {:induction false} RequestLineStepUrl(p: ParserState, text: nat)
    requires text <= |p.buf| && p.state == RequestLineState
    ensures var q := RequestLineStep(p, text).1;
      q.state != RequestLineState ==> q.url.Some? && q.url.value < |p.buf|
  {
    var line := CStr(p.buf, text);
    var r := ParseRequestLineText(line);
    assert RequestLineStep(p, text) == ApplyRequestLine(p, text, r);
    if r.RequestLineGood? {
      AcceptedTargetInLine(line);
    }
  }

  lemma {:induction false} AcceptedTargetInLine(line: seq<char>)
    requires ParseRequestLineText(line).RequestLineGood?
    ensures ParseRequestLineText(line).url < |line|
  {
    AcceptedHasShape(line);
  }

  lemma {:induction false} DispatchAdvances(p: ParserState)
    requires p.Valid()
    ensures var s := Dispatch(p);
      && Advances(p, s.p)
      && s.p.checked == p.checked
      && (s.Next? && s.ls == LineOpen ==> p.state == ContentState)
  {
    var q := p.(startLine := p.checked);
    match p.state
    case RequestLineState => RequestLineStepAdvances(q, p.startLine);
    case HeaderState => HeaderStepAdvances(q, p.startLine);
    case ContentState => ContentStepAdvances(q, p.startLine);
  }

  lemma {:induction false} HeaderStepAdvances(p: ParserState, text: nat)
    requires p.Valid() && text <= |p.buf| && p.state == HeaderState
    ensures var q := HeaderStep(p, text).1;
      Advances(p, q) && q.checked == p.checked && q.startLine == p.startLine
  {
  }

  lemma {:induction false} ContentStepAdvances(p: ParserState, text: nat)
    requires p.Valid() && p.state == ContentState
    ensures var q := ContentStep(p, text).1;
      Advances(p, q) && q.checked == p.checked && q.startLine == p.startLine && q.state == ContentState
  {
    ContentSentinelInBounds(p, text);
  }

  lemma {:induction false} ReadStepAdvances(p: ParserState, ls: LineStatus)
    requires p.Valid()
    ensures var s := ReadStep(p, ls);
      && Advances(p, s.p)
      && (s.Next? ==> Measure(s.p, s.ls) < Measure(p, ls))
  {
    if p.state == ContentState && ls == LineOk {
      DispatchAdvances(p);
    } else {
      var r := ScanLine(p.buf, p.checked, p.readIdx);
      ScanLineEffect(p.buf, p.checked, p.readIdx);
      var q := p.(buf := r.buf, checked := r.cursor);
      if r.status == LineOk {
        DispatchAdvances(q);
      }
    }
  }

  /** process_read (lines 330-394) on the parser fields, starting with the line status
      LineOk as the code does. GetRequest is where the code calls do_request. */
  function ProcessReadF(p: ParserState, ls: LineStatus): (HttpCode, ParserState)
    requires p.Valid()
    decreases Measure(p, ls)
  {
    ReadStepAdvances(p, ls);
    match ReadStep(p, ls)
    case Done(code, q) => (code, q)
    case Next(q, ls') => ProcessReadF(q, ls')
  }

  /** process_read moves everything forward: the state (request line, headers, body)
      never goes back, the cursor never moves back, m_read_idx is untouched, the buffer
      only gains NULs, m_linger is never cleared; the verdict is one of NO_REQUEST,
      BAD_REQUEST and GET_REQUEST. */
  lemma {:induction false} ProcessReadAdvances(p: ParserState, ls: LineStatus)
    requires p.Valid()
    ensures var (code, q) := ProcessReadF(p, ls);
      && Advances(p, q)
      && code in {NoRequest, BadRequest, GetRequest}
    decreases Measure(p, ls)
  {
    ReadStepAdvances(p, ls);
    match ReadStep(p, ls)
    case Done(code, q) =>
      assert code in {NoRequest, BadRequest, GetRequest};
    case Next(q, ls') =>
      ProcessReadAdvances(q, ls');
      OnlyNulsTrans(p.buf, q.buf, ProcessReadF(q, ls').1.buf);
  }

  /** A LINE_BAD or LINE_OPEN scan ends process_read with NO_REQUEST (the loop exit
      at lines 339-340 and the return at 393): a malformed line is not answered with
      400. Only the cursor moves; the buffer is untouched. */
  lemma {:induction false} ScanVerdictEndsRead(p: ParserState, ls: LineStatus)
    requires p.Valid() && !(p.state == ContentState && ls == LineOk)
    requires ScanLine(p.buf, p.checked, p.readIdx).status != LineOk
    ensures ProcessReadF(p, ls) == (NoRequest, p.(checked := ScanLine(p.buf, p.checked, p.readIdx).cursor))
  {
    ScanLineEffect(p.buf, p.checked, p.readIdx);
  }

  /** The verdicts one pass of the loop body returns at once: BAD_REQUEST only from
      the request line, GET_REQUEST only from the headers or the body; a request line
      that does not end the loop has moved the parser on to the headers. */
  lemma {:induction false} DispatchVerdicts(p: ParserState)
    requires p.Valid()
    ensures Dispatch(p).Done? ==> Dispatch(p).code in {BadRequest, GetRequest}
    ensures Dispatch(p).Done? && Dispatch(p).code == BadRequest ==> p.state == RequestLineState
    ensures Dispatch(p).Done? && Dispatch(p).code == GetRequest ==> p.state != RequestLineState
    ensures p.state == RequestLineState ==> Dispatch(p).Done? || Dispatch(p).p.state == HeaderState
  {
    var q := p.(startLine := p.checked);
    if p.state == HeaderState {
      HeaderLinger(q, p.startLine);
    }
  }
}
