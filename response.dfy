/** The response builder of http_conn: add_response's bounded formatting into the
    write buffer, the header helpers, and process_write's choice of status, headers,
    body and iovecs for each HttpCode. The texts follow section 4 (status line) and
    section 5 (fields) of RFC 9112. Connection.HttpConn's methods are proved to act
    as these functions say. */
module Response {
  import opened CString
  import opened Http

  /** m_write_buf and m_write_idx. */
  datatype WriteState = WriteState(buf: seq<char>, idx: nat)

  /** The response staged so far. */
  function Contents(w: WriteState): seq<char>
    requires w.idx <= |w.buf|
  {
    w.buf[..w.idx]
  }

  /** What vsnprintf(buf + at, size, ...) stores when the formatted text is s: as much
      of s as fits before a terminating NUL; nothing at all when size is 0. */
  function Vsnprintf(buf: seq<char>, at: nat, size: nat, s: seq<char>): (r: seq<char>)
    requires at + size <= |buf|
    ensures |r| == |buf|
  {
    if size == 0 then buf
    else
      var k := if |s| < size then |s| else size - 1;
      buf[..at] + s[..k] + ['\0'] + buf[at + k + 1..]
  }

  /** What vsnprintf stores, one index at a time. */
  lemma {:induction false} VsnprintfIndex(buf: seq<char>, at: nat, size: nat, s: seq<char>)
    requires at + size <= |buf| && size > 0
    ensures var k := if |s| < size then |s| else size - 1;
      forall j :: 0 <= j < |buf| ==>
        Vsnprintf(buf, at, size, s)[j] == if at <= j < at + k then s[j - at] else if j == at + k then '\0' else buf[j]
  {
    var k := if |s| < size then |s| else size - 1;
    var d := s[..k] + ['\0'];
    SpliceIndex(buf, at, d);
    assert Vsnprintf(buf, at, size, s) == buf[..at] + d + buf[at + |d|..];
  }

  /** add_response (lines 503-518) once the format has been expanded to s. */
  function Add(w: WriteState, s: seq<char>): (r: (bool, WriteState))
    requires |w.buf| == WRITE_BUFFER_SIZE
    ensures |r.1.buf| == WRITE_BUFFER_SIZE
    ensures w.idx <= WRITE_BUFFER_SIZE ==> r.1.idx <= WRITE_BUFFER_SIZE
    ensures w.idx < WRITE_BUFFER_SIZE - 1 ==> r.1.idx < WRITE_BUFFER_SIZE - 1
  {
    if w.idx >= WRITE_BUFFER_SIZE then (false, w)
    else
      var size := WRITE_BUFFER_SIZE - 1 - w.idx;
      var b := Vsnprintf(w.buf, w.idx, size, s);
      if |s| >= size then (false, w.(buf := b)) else (true, WriteState(b, w.idx + |s|))
  }

  /** The staged response grows by exactly s when s fits, with one byte kept for the
      NUL, and not at all when it does not; the mark stays strictly below the last
      byte either way, and nothing before the mark is ever overwritten. */
  lemma AddMeaning(w: WriteState, s: seq<char>)
    requires |w.buf| == WRITE_BUFFER_SIZE && w.idx < WRITE_BUFFER_SIZE - 1
    ensures var (ok, w2) := Add(w, s);
      && |w2.buf| == WRITE_BUFFER_SIZE
      && (ok <==> w.idx + |s| < WRITE_BUFFER_SIZE - 1)
      && (ok ==> w2.idx == w.idx + |s| && Contents(w2) == Contents(w) + s && w2.buf[w2.idx] == '\0')
      && (!ok ==> w2.idx == w.idx && Contents(w2) == Contents(w))
      && w2.idx < WRITE_BUFFER_SIZE - 1
  {
    var (ok, w2) := Add(w, s);
    var size := WRITE_BUFFER_SIZE - 1 - w.idx;
    var k := if |s| < size then |s| else size - 1;
    assert w2.buf[..w.idx] == w.buf[..w.idx];
    if ok {
      assert w2.buf[..w2.idx] == w.buf[..w.idx] + s;
      assert w2.buf[w2.idx] == ([ '\0' ] + w.buf[w.idx + k + 1..])[0];
    }
  }

  /** The texts of the helpers. */
  function StatusLine(status: int, title: seq<char>): seq<char> {
    "HTTP/1.1" + " " + FormatInt(status) + " " + title + "\r\n"
  }

  function ContentLengthLine(n: int): seq<char> {
    "Content-Length: " + FormatInt(n) + "\r\n"
  }

  function LingerLine(linger: bool): seq<char> {
    "Connection: " + (if linger then "keep-alive" else "close") + "\r\n"
  }

  const BLANK_LINE: seq<char> := "\r\n"

  /** add_headers: Content-Length, Connection and the blank line; their verdicts are
      dropped. */
  function AddHeaders(w: WriteState, n: int, linger: bool): (r: WriteState)
    requires |w.buf| == WRITE_BUFFER_SIZE
    ensures |r.buf| == WRITE_BUFFER_SIZE
    ensures w.idx <= WRITE_BUFFER_SIZE ==> r.idx <= WRITE_BUFFER_SIZE
    ensures w.idx < WRITE_BUFFER_SIZE - 1 ==> r.idx < WRITE_BUFFER_SIZE - 1
  {
    var w1 := Add(w, ContentLengthLine(n)).1;
    var w2 := Add(w1, LingerLine(linger)).1;
    Add(w2, BLANK_LINE).1
  }

  /** st_size passed to add_headers' int parameter: reduced to 32 bits, two's complement. */
  function ToInt32(n: nat): int {
    var m := n % 0x1_0000_0000;
    if m < 0x8000_0000 then m else m - 0x1_0000_0000
  }

  /** The status, title and body of each error answer. */
  datatype ErrorPage = ErrorPage(status: int, title: seq<char>, form: seq<char>)

  function ErrorPageOf(code: HttpCode): Option<ErrorPage> {
    match code
    case InternalError => Some(ErrorPage(500, ERROR_500_TITLE, ERROR_500_FORM))
    case BadRequest => Some(ErrorPage(400, ERROR_400_TITLE, ERROR_400_FORM))
    case NoResource => Some(ErrorPage(404, ERROR_404_TITLE, ERROR_404_FORM))
    case ForbiddenRequest => Some(ErrorPage(403, ERROR_403_TITLE, ERROR_403_FORM))
    case _ => None
  }

  /** What process_write leaves behind: its verdict, the write buffer, the iovecs and
      their count. */
  datatype Staged = Staged(ok: bool, w: WriteState, iv: seq<IoVec>, ivCount: nat)

  /** An error answer (lines 558-597 and 627-630): status line, headers, the page as body, and one
      iovec over the buffer when the body fits. */
  function PageResponse(page: ErrorPage, linger: bool, w: WriteState, iv: seq<IoVec>, ivCount: nat): (st: Staged)
    requires |w.buf| == WRITE_BUFFER_SIZE && |iv| == 2
    ensures |st.w.buf| == WRITE_BUFFER_SIZE && (w.idx <= WRITE_BUFFER_SIZE ==> st.w.idx <= WRITE_BUFFER_SIZE)
    ensures w.idx < WRITE_BUFFER_SIZE - 1 ==> st.w.idx < WRITE_BUFFER_SIZE - 1
    ensures |st.iv| == 2
  {
    var w1 := Add(w, StatusLine(page.status, page.title)).1;
    var w2 := AddHeaders(w1, |page.form|, linger);
    var (ok, w3) := Add(w2, page.form);
    if !ok then Staged(false, w3, iv, ivCount)
    else Staged(true, w3, iv[0 := IoVec(WriteBuffer, w3.idx)], 1)
  }

  /** PageResponse from the three stages an error answer goes through. */
  lemma {:induction false} PageResponseIs(page: ErrorPage, linger: bool, w: WriteState, iv: seq<IoVec>, ivCount: nat,
                                          w1: WriteState, w2: WriteState, ok: bool, w3: WriteState)
    requires |w.buf| == WRITE_BUFFER_SIZE && |iv| == 2
    requires w1 == Add(w, StatusLine(page.status, page.title)).1
    requires w2 == AddHeaders(w1, |page.form|, linger)
    requires (ok, w3) == Add(w2, page.form)
    ensures PageResponse(page, linger, w, iv, ivCount) ==
      if ok then Staged(true, w3, iv[0 := IoVec(WriteBuffer, w3.idx)], 1) else Staged(false, w3, iv, ivCount)
  {
  }

  /** The file answer (lines 598-625): status line and headers, then a second iovec over
      the mapping; an empty file stages a placeholder body instead and then falls into
      the default branch, so it is answered false. */
  function FileResponse(linger: bool, size: nat, w: WriteState, iv: seq<IoVec>, ivCount: nat): (st: Staged)
    requires |w.buf| == WRITE_BUFFER_SIZE && |iv| == 2
    ensures |st.w.buf| == WRITE_BUFFER_SIZE && (w.idx <= WRITE_BUFFER_SIZE ==> st.w.idx <= WRITE_BUFFER_SIZE)
    ensures w.idx < WRITE_BUFFER_SIZE - 1 ==> st.w.idx < WRITE_BUFFER_SIZE - 1
    ensures |st.iv| == 2
  {
    var w1 := Add(w, StatusLine(200, OK_200_TITLE)).1;
    if size != 0 then
      var w2 := AddHeaders(w1, ToInt32(size), linger);
      Staged(true, w2, [IoVec(WriteBuffer, w2.idx), IoVec(FileMapping, size)], 2)
    else
      var w2 := AddHeaders(w1, |EMPTY_FILE_BODY|, linger);
      Staged(false, Add(w2, EMPTY_FILE_BODY).1, iv, ivCount)
  }

  /** FileResponse from the stages the file answer goes through. */
  lemma {:induction false} FileResponseIs(linger: bool, size: nat, w: WriteState, iv: seq<IoVec>, ivCount: nat,
                                          w1: WriteState, w2: WriteState, w3: WriteState)
    requires |w.buf| == WRITE_BUFFER_SIZE && |iv| == 2
    requires w1 == Add(w, StatusLine(200, OK_200_TITLE)).1
    requires size != 0 ==> w2 == AddHeaders(w1, ToInt32(size), linger)
    requires size == 0 ==> w2 == AddHeaders(w1, |EMPTY_FILE_BODY|, linger) && w3 == Add(w2, EMPTY_FILE_BODY).1
    ensures FileResponse(linger, size, w, iv, ivCount) ==
      if size != 0 then Staged(true, w2, [IoVec(WriteBuffer, w2.idx), IoVec(FileMapping, size)], 2)
      else Staged(false, w3, iv, ivCount)
  {
  }

  /** process_write (lines 554-631): the switch on the HttpCode. Every other code takes
      the default branch and is answered false. */
  function ProcessWriteF(code: HttpCode, linger: bool, size: nat, w: WriteState, iv: seq<IoVec>, ivCount: nat): (st: Staged)
    requires |w.buf| == WRITE_BUFFER_SIZE && |iv| == 2
    ensures |st.w.buf| == WRITE_BUFFER_SIZE && (w.idx <= WRITE_BUFFER_SIZE ==> st.w.idx <= WRITE_BUFFER_SIZE)
    ensures w.idx < WRITE_BUFFER_SIZE - 1 ==> st.w.idx < WRITE_BUFFER_SIZE - 1
    ensures |st.iv| == 2
  {
    match ErrorPageOf(code)
    case Some(page) => PageResponse(page, linger, w, iv, ivCount)
    case None =>
      if code == FileRequest then FileResponse(linger, size, w, iv, ivCount)
      else Staged(false, w, iv, ivCount)
  }

  /** An error code goes to the page branch of process_write. */
  lemma {:induction false} ProcessWritePage(code: HttpCode, linger: bool, size: nat, w: WriteState, iv: seq<IoVec>, ivCount: nat)
    requires |w.buf| == WRITE_BUFFER_SIZE && |iv| == 2 && ErrorPageOf(code).Some?
    ensures ProcessWriteF(code, linger, size, w, iv, ivCount) == PageResponse(ErrorPageOf(code).value, linger, w, iv, ivCount)
  {
  }

  /** Exactly the four error codes have a page; NO_REQUEST and GET_REQUEST take
      the default branch and leave everything as it was. */
  lemma {:induction false} ProcessWriteOthers(code: HttpCode, linger: bool, size: nat, w: WriteState, iv: seq<IoVec>, ivCount: nat)
    requires |w.buf| == WRITE_BUFFER_SIZE && |iv| == 2
    ensures ErrorPageOf(code).Some? <==> code in {InternalError, BadRequest, NoResource, ForbiddenRequest}
    ensures code !in {InternalError, BadRequest, NoResource, ForbiddenRequest, FileRequest} ==>
      ProcessWriteF(code, linger, size, w, iv, ivCount) == Staged(false, w, iv, ivCount)
  {
  }

  lemma AddFits(w: WriteState, s: seq<char>)
    requires |w.buf| == WRITE_BUFFER_SIZE && w.idx + |s| < WRITE_BUFFER_SIZE - 1
    ensures var (ok, w2) := Add(w, s);
      ok && |w2.buf| == WRITE_BUFFER_SIZE && w2.idx == w.idx + |s| && Contents(w2) == Contents(w) + s
  {
    AddMeaning(w, s);
  }

  /** The whole text of a page answer. */
  function PageText(page: ErrorPage, linger: bool): seq<char> {
    StatusLine(page.status, page.title) + ContentLengthLine(|page.form|) + LingerLine(linger) + BLANK_LINE + page.form
  }

  /** The head of a file answer; the file itself follows from the mapping. */
  function FileHead(size: nat, linger: bool): seq<char> {
    StatusLine(200, OK_200_TITLE) + ContentLengthLine(ToInt32(size)) + LingerLine(linger) + BLANK_LINE
  }

  /** In every page answer the body is longer than each line before it. */
  lemma PageLinesShorterThanForm(code: HttpCode, linger: bool)
    requires ErrorPageOf(code).Some?
    ensures var page := ErrorPageOf(code).value;
      && |StatusLine(page.status, page.title)| < |page.form|
      && |ContentLengthLine(|page.form|)| < |page.form|
      && |LingerLine(linger)| < |page.form|
      && |BLANK_LINE| < |page.form|
      && |PageText(page, linger)| < 200
  {
    var page := ErrorPageOf(code).value;
    DecimalLength(page.status, 3);
    DecimalLength(|page.form|, 3);
  }

  /** Five successive add_response calls where the last text is the longest: the
      last succeeds exactly when all five texts fit together, and then the buffer
      holds all five. */
  function Add5(w: WriteState, a: seq<char>, b: seq<char>, c: seq<char>, d: seq<char>, f: seq<char>): (bool, WriteState)
    requires |w.buf| == WRITE_BUFFER_SIZE
  {
    var w1 := Add(w, a).1;
    var w2 := Add(w1, b).1;
    var w3 := Add(w2, c).1;
    var w4 := Add(w3, d).1;
    Add(w4, f)
  }

  lemma Add5Meaning(w: WriteState, a: seq<char>, b: seq<char>, c: seq<char>, d: seq<char>, f: seq<char>)
    requires |w.buf| == WRITE_BUFFER_SIZE && w.idx < WRITE_BUFFER_SIZE - 1
    requires |a| < |f| && |b| < |f| && |c| < |f| && |d| < |f|
    ensures var (ok, w5) := Add5(w, a, b, c, d, f);
      && |w5.buf| == WRITE_BUFFER_SIZE && w5.idx < WRITE_BUFFER_SIZE - 1
      && (ok <==> w.idx + |a + b + c + d + f| < WRITE_BUFFER_SIZE - 1)
      && (ok ==> Contents(w5) == Contents(w) + (a + b + c + d + f) && w5.idx == w.idx + |a + b + c + d + f|)
  {
    var w1 := Add(w, a).1;
    AddMeaning(w, a);
    var w2 := Add(w1, b).1;
    AddMeaning(w1, b);
    var w3 := Add(w2, c).1;
    AddMeaning(w2, c);
    var w4 := Add(w3, d).1;
    AddMeaning(w3, d);
    AddMeaning(w4, f);
    if Add(w4, f).0 {
      var x := Contents(w);
      assert Contents(w4) == x + a + b + c + d;
      Append5(x, a, b, c, d, f);
    }
  }

  /** An answer staged whole or reported failed: true exactly when text fits after what
      the buffer held, and then the buffer holds that text and one iovec covers it;
      a failure leaves the iovecs as they were. */
  predicate StagedWhole(st: Staged, text: seq<char>, w: WriteState, iv: seq<IoVec>, ivCount: nat)
    requires |iv| == 2 && w.idx <= |w.buf| && st.w.idx <= |st.w.buf|
  {
    && (st.ok <==> w.idx + |text| < WRITE_BUFFER_SIZE - 1)
    && (st.ok ==> Contents(st.w) == Contents(w) + text
                  && st.iv == iv[0 := IoVec(WriteBuffer, w.idx + |text|)] && st.ivCount == 1)
    && (!st.ok ==> st.iv == iv && st.ivCount == ivCount)
  }

  /** A page whose body is longer than each line before it is staged whole or reported
      failed: true exactly when status line, headers and body all fit, and then the
      buffer holds exactly that text after what was there and one iovec covers it. */
  lemma {:induction false} PageResponseMeaning(page: ErrorPage, linger: bool, w: WriteState, iv: seq<IoVec>, ivCount: nat)
    requires |w.buf| == WRITE_BUFFER_SIZE && w.idx < WRITE_BUFFER_SIZE - 1 && |iv| == 2
    requires var form := page.form;
      && |StatusLine(page.status, page.title)| < |form| && |ContentLengthLine(|form|)| < |form|
      && |LingerLine(linger)| < |form| && |BLANK_LINE| < |form|
    ensures StagedWhole(PageResponse(page, linger, w, iv, ivCount), PageText(page, linger), w, iv, ivCount)
  {
    var a, b, c, d, f := StatusLine(page.status, page.title), ContentLengthLine(|page.form|), LingerLine(linger), BLANK_LINE, page.form;
    var r := Add5(w, a, b, c, d, f);
    PageResponseAdd5(page, linger, w, iv, ivCount);
    assert PageText(page, linger) == a + b + c + d + f;
    Add5Meaning(w, a, b, c, d, f);
  }

  /** A page answer is the five adds of its lines and body. */
  lemma {:induction false} PageResponseAdd5(page: ErrorPage, linger: bool, w: WriteState, iv: seq<IoVec>, ivCount: nat)
    requires |w.buf| == WRITE_BUFFER_SIZE && |iv| == 2
    ensures var r := Add5(w, StatusLine(page.status, page.title), ContentLengthLine(|page.form|), LingerLine(linger), BLANK_LINE, page.form);
      PageResponse(page, linger, w, iv, ivCount)
      == if r.0 then Staged(true, r.1, iv[0 := IoVec(WriteBuffer, r.1.idx)], 1) else Staged(false, r.1, iv, ivCount)
  {
  }

  /** Each error answer is staged whole or reported failed. A header line that does not
      fit is dropped silently, but then the body does not fit either. */
  lemma PageAnswer(code: HttpCode, linger: bool, size: nat, w: WriteState, iv: seq<IoVec>, ivCount: nat)
    requires |w.buf| == WRITE_BUFFER_SIZE && w.idx < WRITE_BUFFER_SIZE - 1 && |iv| == 2
    requires ErrorPageOf(code).Some?
    ensures StagedWhole(ProcessWriteF(code, linger, size, w, iv, ivCount), PageText(ErrorPageOf(code).value, linger), w, iv, ivCount)
  {
    var page := ErrorPageOf(code).value;
    PageLinesShorterThanForm(code, linger);
    PageResponseMeaning(page, linger, w, iv, ivCount);
  }

  lemma Append5(x: seq<char>, a: seq<char>, b: seq<char>, c: seq<char>, d: seq<char>, f: seq<char>)
    ensures x + a + b + c + d + f == x + (a + b + c + d + f)
  {
  }

  function Add4(w: WriteState, a: seq<char>, b: seq<char>, c: seq<char>, d: seq<char>): WriteState
    requires |w.buf| == WRITE_BUFFER_SIZE
  {
    Add(Add(Add(Add(w, a).1, b).1, c).1, d).1
  }

  /** Four successive add_response calls whose texts fit together stage all four. */
  lemma Add4Fits(w: WriteState, a: seq<char>, b: seq<char>, c: seq<char>, d: seq<char>)
    requires |w.buf| == WRITE_BUFFER_SIZE && w.idx + |a + b + c + d| < WRITE_BUFFER_SIZE - 1
    ensures Contents(Add4(w, a, b, c, d)) == Contents(w) + (a + b + c + d)
  {
    AddFits(w, a);
    var w1 := Add(w, a).1;
    AddFits(w1, b);
    var w2 := Add(w1, b).1;
    AddFits(w2, c);
    var w3 := Add(w2, c).1;
    AddFits(w3, d);
    var x := Contents(w);
    assert x + a + b + c + d == x + (a + b + c + d);
  }

  /** FILE_REQUEST has no error page: process_write goes to the file branch. */
  lemma {:induction false} ProcessWriteFile(linger: bool, size: nat, w: WriteState, iv: seq<IoVec>, ivCount: nat)
    requires |w.buf| == WRITE_BUFFER_SIZE && |iv| == 2
    ensures ProcessWriteF(FileRequest, linger, size, w, iv, ivCount) == FileResponse(linger, size, w, iv, ivCount)
  {
    assert ErrorPageOf(FileRequest) == None;
  }

  /** A non-empty file is always answered true, with a second iovec over the whole
      mapping; when the head fits, the buffer holds exactly the head. */
  lemma {:induction false} FileAnswer(linger: bool, size: nat, w: WriteState, iv: seq<IoVec>, ivCount: nat)
    requires |w.buf| == WRITE_BUFFER_SIZE && w.idx < WRITE_BUFFER_SIZE - 1 && |iv| == 2 && size != 0
    ensures var st := ProcessWriteF(FileRequest, linger, size, w, iv, ivCount);
      && st.ok && st.ivCount == 2
      && st.iv == [IoVec(WriteBuffer, st.w.idx), IoVec(FileMapping, size)]
      && (w.idx + |FileHead(size, linger)| < WRITE_BUFFER_SIZE - 1 ==> Contents(st.w) == Contents(w) + FileHead(size, linger))
  {
    ProcessWriteFile(linger, size, w, iv, ivCount);
    var a, b, c, d := StatusLine(200, OK_200_TITLE), ContentLengthLine(ToInt32(size)), LingerLine(linger), BLANK_LINE;
    var w4 := Add4(w, a, b, c, d);
    var st := FileResponse(linger, size, w, iv, ivCount);
    assert st == Staged(true, w4, [IoVec(WriteBuffer, w4.idx), IoVec(FileMapping, size)], 2);
    if w.idx + |FileHead(size, linger)| < WRITE_BUFFER_SIZE - 1 {
      assert FileHead(size, linger) == a + b + c + d;
      Add4Fits(w, a, b, c, d);
    }
  }

  /** An empty file is answered false: the placeholder body is staged, then the code
      falls into the default branch. The iovecs are left as they were. */
  lemma {:induction false} EmptyFileAnsweredFalse(linger: bool, w: WriteState, iv: seq<IoVec>, ivCount: nat)
    requires |w.buf| == WRITE_BUFFER_SIZE && |iv| == 2
    ensures var st := ProcessWriteF(FileRequest, linger, 0, w, iv, ivCount);
      !st.ok && st.iv == iv && st.ivCount == ivCount
  {
    ProcessWriteFile(linger, 0, w, iv, ivCount);
    var st := FileResponse(linger, 0, w, iv, ivCount);
    assert !st.ok && st.iv == iv && st.ivCount == ivCount;
  }

  /** From an empty buffer every page answer is staged whole and answered true. */
  lemma PageFitsFromEmpty(code: HttpCode, linger: bool, size: nat, buf: seq<char>, iv: seq<IoVec>, ivCount: nat)
    requires |buf| == WRITE_BUFFER_SIZE && |iv| == 2 && ErrorPageOf(code).Some?
    ensures var st := ProcessWriteF(code, linger, size, WriteState(buf, 0), iv, ivCount);
      st.ok && Contents(st.w) == PageText(ErrorPageOf(code).value, linger) && st.ivCount == 1
  {
    assert Contents(WriteState(buf, 0)) == [];
    PageLinesShorterThanForm(code, linger);
    PageAnswer(code, linger, size, WriteState(buf, 0), iv, ivCount);
  }

  lemma FileHeadShort(size: nat, linger: bool)
    ensures |FileHead(size, linger)| < 100
  {
    var n := ToInt32(size);
    if n < 0 {
      DecimalLength(-n, 10);
    } else {
      DecimalLength(n, 10);
    }
    DecimalLength(200, 3);
  }

  /** From an empty buffer the whole head of a file answer is staged. */
  lemma FileHeadFitsFromEmpty(linger: bool, size: nat, buf: seq<char>, iv: seq<IoVec>, ivCount: nat)
    requires |buf| == WRITE_BUFFER_SIZE && |iv| == 2 && size != 0
    ensures var st := ProcessWriteF(FileRequest, linger, size, WriteState(buf, 0), iv, ivCount);
      st.ok && Contents(st.w) == FileHead(size, linger)
      && st.iv == [IoVec(WriteBuffer, |FileHead(size, linger)|), IoVec(FileMapping, size)]
  {
    assert Contents(WriteState(buf, 0)) == [];
    FileHeadShort(size, linger);
    FileAnswer(linger, size, WriteState(buf, 0), iv, ivCount);
  }

  /** The Content-Length of a file answer is st_size in 32-bit two's complement: exact
      below 2^31 bytes, negative from 2^31, and 0 again at 2^32. */
  lemma FileLengthWraps(size: nat)
    ensures size < 0x8000_0000 ==> ToInt32(size) == size
    ensures ToInt32(0x8000_0000) == -0x8000_0000
    ensures ToInt32(0x1_0000_0000) == 0
    ensures -0x8000_0000 <= ToInt32(size) < 0x8000_0000
  {
  }
}
