/** The line scanner of http_conn (parse_line): the search for a CRLF, the line
    terminator of section 2.2 of RFC 9112, between the scan cursor m_checked_idx
    and the fill mark m_read_idx of the read buffer. This module gives the scan's
    meaning as a function of the buffer; the loop itself is
    Connection.HttpConn.ParseLine. */
module Scanner {
  import opened Http

  predicate IsTerminator(c: char) { c == '\r' || c == '\n' }

  /** The first CR or LF in buf[lo..hi], or `hi` when there is none. */
  function FirstTerminator(buf: seq<char>, lo: nat, hi: nat): (j: nat)
    requires lo <= hi <= |buf|
    ensures lo <= j <= hi
    ensures forall i :: lo <= i < j ==> !IsTerminator(buf[i])
    ensures j < hi ==> IsTerminator(buf[j])
    decreases hi - lo
  {
    if lo == hi || IsTerminator(buf[lo]) then lo else FirstTerminator(buf, lo + 1, hi)
  }

  /** The verdict, the new cursor and the new buffer of one scan. */
  datatype LineScan = LineScan(status: LineStatus, cursor: nat, buf: seq<char>)

  /** What parse_line does to (m_read_buf, m_checked_idx), decided by the first
      terminator at or after the cursor. */
  function ScanLine(buf: seq<char>, checked: nat, readIdx: nat): (r: LineScan)
    requires checked <= readIdx <= |buf|
    ensures |r.buf| == |buf|
    ensures checked <= r.cursor <= readIdx
  {
    var j := FirstTerminator(buf, checked, readIdx);
    if j == readIdx then LineScan(LineOpen, readIdx, buf)
    else if buf[j] == '\r' then
      if j + 1 == readIdx then LineScan(LineOpen, j, buf)
      else if buf[j + 1] == '\n' then LineScan(LineOk, j + 2, buf[j := '\0'][j + 1 := '\0'])
      else LineScan(LineBad, j, buf)
    else if j >= 1 && buf[j - 1] == '\r' then LineScan(LineOk, j + 1, buf[j - 1 := '\0'][j := '\0'])
    else LineScan(LineBad, j, buf)
  }

  /** The lowest index the scan looks at: the LF branch also reads the byte just
      before the cursor. */
  function WindowStart(checked: nat): nat {
    if checked > 0 then checked - 1 else 0
  }

  lemma FirstTerminatorIs(buf: seq<char>, lo: nat, hi: nat, j: nat)
    requires lo <= j <= hi <= |buf|
    requires forall i :: lo <= i < j ==> !IsTerminator(buf[i])
    requires j < hi ==> IsTerminator(buf[j])
    ensures FirstTerminator(buf, lo, hi) == j
  {
  }

  /** "\r\n" completes the line: both bytes become NUL and the cursor moves past them. */
  lemma ScanCrLf(buf: seq<char>, checked: nat, readIdx: nat, j: nat)
    requires checked <= j && j + 1 < readIdx <= |buf|
    requires forall i :: checked <= i < j ==> !IsTerminator(buf[i])
    requires buf[j] == '\r' && buf[j + 1] == '\n'
    ensures ScanLine(buf, checked, readIdx) == LineScan(LineOk, j + 2, buf[j := '\0'][j + 1 := '\0'])
  {
    FirstTerminatorIs(buf, checked, readIdx, j);
  }

  /** A CR that is the last buffered byte asks for more data and keeps the cursor on it. */
  lemma ScanCrLast(buf: seq<char>, checked: nat, readIdx: nat)
    requires checked < readIdx <= |buf|
    requires forall i :: checked <= i < readIdx - 1 ==> !IsTerminator(buf[i])
    requires buf[readIdx - 1] == '\r'
    ensures ScanLine(buf, checked, readIdx) == LineScan(LineOpen, readIdx - 1, buf)
  {
    FirstTerminatorIs(buf, checked, readIdx, readIdx - 1);
  }

  /** A CR followed by anything but LF is malformed; nothing changes. */
  lemma ScanCrOther(buf: seq<char>, checked: nat, readIdx: nat, j: nat)
    requires checked <= j && j + 1 < readIdx <= |buf|
    requires forall i :: checked <= i < j ==> !IsTerminator(buf[i])
    requires buf[j] == '\r' && buf[j + 1] != '\n'
    ensures ScanLine(buf, checked, readIdx) == LineScan(LineBad, j, buf)
  {
    FirstTerminatorIs(buf, checked, readIdx, j);
  }

  /** An LF that does not follow a CR is malformed, at index 0 too. */
  lemma ScanBareLf(buf: seq<char>, checked: nat, readIdx: nat, j: nat)
    requires checked <= j < readIdx <= |buf|
    requires forall i :: checked <= i < j ==> !IsTerminator(buf[i])
    requires buf[j] == '\n' && (j == 0 || buf[j - 1] != '\r')
    ensures ScanLine(buf, checked, readIdx) == LineScan(LineBad, j, buf)
  {
    FirstTerminatorIs(buf, checked, readIdx, j);
  }

  /** Without a terminator the whole buffered tail is consumed and more data is needed. */
  lemma ScanNoTerminator(buf: seq<char>, checked: nat, readIdx: nat)
    requires checked <= readIdx <= |buf|
    requires forall i :: checked <= i < readIdx ==> !IsTerminator(buf[i])
    ensures ScanLine(buf, checked, readIdx) == LineScan(LineOpen, readIdx, buf)
  {
    FirstTerminatorIs(buf, checked, readIdx, readIdx);
  }

  /** The scan changes only terminator bytes, only to NUL, only inside its window, and
      only when it completes a line; a completed line ends in two NULs. A LineOpen
      verdict leaves the cursor at the fill mark or on a CR that is the last byte. */
  lemma ScanLineEffect(buf: seq<char>, checked: nat, readIdx: nat)
    requires checked <= readIdx <= |buf|
    ensures var r := ScanLine(buf, checked, readIdx);
      && (forall i :: 0 <= i < |buf| && r.buf[i] != buf[i] ==>
            r.buf[i] == '\0' && IsTerminator(buf[i]) && WindowStart(checked) <= i < r.cursor)
      && (r.status != LineOk ==> r.buf == buf)
      && (r.status == LineOk ==> 2 <= r.cursor && r.buf[r.cursor - 2] == '\0' && r.buf[r.cursor - 1] == '\0')
      && (r.status == LineOk ==> checked < r.cursor)
      && (r.status == LineOpen ==> r.cursor == readIdx || (r.cursor + 1 == readIdx && buf[r.cursor] == '\r'))
  {
  }

  /** The scan depends on nothing but the bytes in its window [WindowStart(checked),
      readIdx) and writes nowhere else. */
  lemma ScanLineFrame(buf1: seq<char>, buf2: seq<char>, checked: nat, readIdx: nat)
    requires checked <= readIdx <= |buf1| == |buf2|
    requires forall i :: WindowStart(checked) <= i < readIdx ==> buf1[i] == buf2[i]
    ensures var r1, r2 := ScanLine(buf1, checked, readIdx), ScanLine(buf2, checked, readIdx);
      && r1.status == r2.status && r1.cursor == r2.cursor
      && (forall i :: WindowStart(checked) <= i < readIdx ==> r1.buf[i] == r2.buf[i])
      && (forall i :: 0 <= i < |buf1| && !(WindowStart(checked) <= i < readIdx) ==>
            r1.buf[i] == buf1[i] && r2.buf[i] == buf2[i])
  {
    var j := FirstTerminator(buf1, checked, readIdx);
    FirstTerminatorIs(buf2, checked, readIdx, j);
  }

  /** The byte behind the cursor is never a CR. init() and every scan keep this,
      and with it the LF-after-CR branch of parse_line (lines 145-150) can never
      complete a line: a CR is always seen, and handled, before its LF. */
  predicate NoCrBehind(buf: seq<char>, checked: nat)
    requires checked <= |buf|
  {
    checked == 0 || buf[checked - 1] != '\r'
  }

  lemma ScanKeepsNoCrBehind(buf: seq<char>, checked: nat, readIdx: nat)
    requires checked <= readIdx <= |buf|
    requires NoCrBehind(buf, checked)
    ensures var r := ScanLine(buf, checked, readIdx);
      NoCrBehind(r.buf, r.cursor)
    ensures var j := FirstTerminator(buf, checked, readIdx);
      j < readIdx && buf[j] == '\n' ==> ScanLine(buf, checked, readIdx).status == LineBad
  {
    var j := FirstTerminator(buf, checked, readIdx);
    if j == checked && checked > 0 {
      assert buf[j - 1] != '\r';
    } else if j > checked {
      assert !IsTerminator(buf[j - 1]);
    }
  }

  /** Resumption: after a LineOpen verdict, scanning again from the saved cursor once
      more bytes have arrived behind the fill mark gives exactly what one scan from
      the original cursor over all the bytes gives. A line delivered in pieces is
      therefore found as if it had arrived at once, including a CRLF split between
      two reads. */
  lemma ScanResumes(buf: seq<char>, checked: nat, readIdx: nat, more: seq<char>, readIdx2: nat)
    requires checked <= readIdx <= readIdx2 <= |buf| == |more|
    requires ScanLine(buf, checked, readIdx).status == LineOpen
    requires forall i :: WindowStart(checked) <= i < readIdx ==> more[i] == buf[i]
    ensures var c := ScanLine(buf, checked, readIdx).cursor;
      ScanLine(more, c, readIdx2) == ScanLine(more, checked, readIdx2)
  {
    var c := ScanLine(buf, checked, readIdx).cursor;
    var j := FirstTerminator(buf, checked, readIdx);
    var j2 := FirstTerminator(more, c, readIdx2);
    assert forall i :: checked <= i < c ==> !IsTerminator(more[i]);
    FirstTerminatorIs(more, checked, readIdx2, j2);
  }

  /** The split CRLF case spelled out: a CR left as the last byte, then an LF as the
      first byte of the next read, completes the line on the next scan. */
  lemma SplitCrLf(buf: seq<char>, checked: nat, readIdx: nat, more: seq<char>, readIdx2: nat)
    requires checked < readIdx < readIdx2 <= |buf| == |more|
    requires forall i :: checked <= i < readIdx - 1 ==> !IsTerminator(buf[i])
    requires buf[readIdx - 1] == '\r'
    requires forall i :: 0 <= i < readIdx ==> more[i] == buf[i]
    requires more[readIdx] == '\n'
    ensures ScanLine(buf, checked, readIdx).status == LineOpen
    ensures var c := ScanLine(buf, checked, readIdx).cursor;
      ScanLine(more, c, readIdx2) == LineScan(LineOk, readIdx + 1, more[readIdx - 1 := '\0'][readIdx := '\0'])
  {
    ScanCrLast(buf, checked, readIdx);
    ScanCrLf(more, readIdx - 1, readIdx2, readIdx - 1);
  }
}
