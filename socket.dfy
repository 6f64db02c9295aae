/** The two non-blocking socket loops of http_conn, read (lines 160-196) and write
    (lines 445-498), as functions of what the kernel answers. A socket is replaced by
    the sequence of results its recv or writev calls return, oldest first; once that
    sequence is used up the socket has nothing more to give or to take, which the
    code sees as EAGAIN. Connection.HttpConn.Read and Connection.HttpConn.Write are
    proved to act as these functions say. */
module Socket {
  import opened CString
  import opened Http

  /** What one recv call returns: some bytes (at most the room it was given), -1 with
      EAGAIN/EWOULDBLOCK, -1 with any other errno, or 0 for a peer that closed its end. */
  datatype RecvResult = Received(data: seq<char>) | RecvWouldBlock | RecvFailed | PeerClosed

  /** How the recv loop ends: the verdict of read, the buffer and fill mark it
      leaves, and how many results it used. */
  datatype RecvEnd = RecvEnd(ok: bool, buf: seq<char>, idx: nat, calls: nat)

  /** The recv loop of lines 168-194 from fill mark idx, with the results still to
      come. recv is asked for the room left, so bytes beyond the room stay with the
      kernel. The full-buffer test of lines 162-165 is made once, before the loop, so
      a recv that fills the last free byte is followed by one more recv asking for
      zero bytes; what it answers is the next result: bytes delivered count as the
      0 of lines 188-191 (nothing fits), EAGAIN as the break of lines 182-185. */
  function RecvLoop(buf: seq<char>, idx: nat, recvs: seq<RecvResult>): (r: RecvEnd)
    requires idx <= |buf|
    ensures |r.buf| == |buf| && idx <= r.idx <= |buf| && r.calls <= |recvs|
    decreases |recvs|
  {
    if recvs == [] then RecvEnd(true, buf, idx, 0)
    else match recvs[0]
      case RecvWouldBlock => RecvEnd(true, buf, idx, 1)
      case RecvFailed => RecvEnd(false, buf, idx, 1)
      case PeerClosed => RecvEnd(false, buf, idx, 1)
      case Received(data) =>
        var n := Min(|data|, |buf| - idx);
        if n == 0 then RecvEnd(false, buf, idx, 1)
        else
          var r := RecvLoop(buf[..idx] + data[..n] + buf[idx + n..], idx + n, recvs[1..]);
          r.(calls := r.calls + 1)
  }

  /** Two ends of the recv loop that agree on what the connection sees. */
  predicate SameEnd(a: RecvEnd, b: RecvEnd) {
    a.ok == b.ok && a.buf == b.buf && a.idx == b.idx
  }

  /** One recv call asking for the room left, which may be none. */
  lemma {:induction false} RecvStep(buf: seq<char>, idx: nat, recvs: seq<RecvResult>)
    requires idx <= |buf| && recvs != []
    ensures recvs[0] == RecvWouldBlock ==> RecvLoop(buf, idx, recvs) == RecvEnd(true, buf, idx, 1)
    ensures recvs[0] == RecvFailed || recvs[0] == PeerClosed ==> RecvLoop(buf, idx, recvs) == RecvEnd(false, buf, idx, 1)
    ensures recvs[0].Received? ==>
      var d := recvs[0].data;
      var n := Min(|d|, |buf| - idx);
      && (n == 0 ==> RecvLoop(buf, idx, recvs) == RecvEnd(false, buf, idx, 1))
      && (n > 0 ==> SameEnd(RecvLoop(buf, idx, recvs), RecvLoop(buf[..idx] + d[..n] + buf[idx + n..], idx + n, recvs[1..])))
  {
  }

  /** The loop after a recv that delivered bytes ends as the loop before it, stated
      for the buffer and mark the bytes were stored into. */
  lemma {:induction false} RecvStored(buf: seq<char>, idx: nat, recvs: seq<RecvResult>, r0: RecvEnd,
                                      buf': seq<char>, idx': nat, rest: seq<RecvResult>)
    requires idx <= |buf| && recvs != [] && recvs[0].Received? && rest == recvs[1..]
    requires SameEnd(RecvLoop(buf, idx, recvs), r0)
    requires var n := Min(|recvs[0].data|, |buf| - idx);
      n > 0 && buf' == buf[..idx] + recvs[0].data[..n] + buf[idx + n..] && idx' == idx + n
    ensures idx' <= |buf'| && SameEnd(RecvLoop(buf', idx', rest), r0)
  {
    RecvStep(buf, idx, recvs);
  }

  /** The loop writes only between the old fill mark and the new one. */
  lemma {:induction false} RecvLoopKeeps(buf: seq<char>, idx: nat, recvs: seq<RecvResult>)
    requires idx <= |buf|
    ensures var r := RecvLoop(buf, idx, recvs);
      forall i :: 0 <= i < |buf| && !(idx <= i < r.idx) ==> r.buf[i] == buf[i]
    decreases |recvs|
  {
    if recvs != [] {
      RecvStep(buf, idx, recvs);
      if recvs[0].Received? {
        var data := recvs[0].data;
        var n := Min(|data|, |buf| - idx);
        if n > 0 {
          SpliceIndex(buf, idx, data[..n]);
          RecvLoopKeeps(buf[..idx] + data[..n] + buf[idx + n..], idx + n, recvs[1..]);
        }
      }
    }
  }

  /** Nothing before the old fill mark or after the new one is written. */
  lemma {:induction false} RecvLoopFrame(buf: seq<char>, idx: nat, recvs: seq<RecvResult>)
    requires idx <= |buf|
    ensures var r := RecvLoop(buf, idx, recvs);
      r.buf[..idx] == buf[..idx] && r.buf[r.idx..] == buf[r.idx..]
  {
    RecvLoopKeeps(buf, idx, recvs);
  }

  /** The results a recv loop used that delivered bytes are all before the last one.
      The loop that ends true ended on EAGAIN or ran out of results (the buffer may be
      full by then); a false one met an error, a closed peer, or a recv that returned
      0 because the peer sent nothing or because no room was left. */
  lemma {:induction false} RecvLoopOutcome(buf: seq<char>, idx: nat, recvs: seq<RecvResult>)
    requires idx <= |buf|
    ensures var r := RecvLoop(buf, idx, recvs);
      && (forall i :: 0 <= i < r.calls - 1 ==> recvs[i].Received?)
      && (r.ok ==> r.calls == |recvs| || recvs[r.calls - 1] == RecvWouldBlock)
      && (!r.ok ==>
            && r.calls >= 1
            && (|| recvs[r.calls - 1] in {RecvFailed, PeerClosed}
                || (recvs[r.calls - 1].Received? && (recvs[r.calls - 1].data == [] || r.idx == |buf|))))
    decreases |recvs|
  {
    if recvs != [] && recvs[0].Received? {
      var data := recvs[0].data;
      var n := Min(|data|, |buf| - idx);
      if n > 0 {
        var b := buf[..idx] + data[..n] + buf[idx + n..];
        RecvLoopOutcome(b, idx + n, recvs[1..]);
        var r := RecvLoop(b, idx + n, recvs[1..]);
        assert forall i :: 1 <= i < r.calls + 1 ==> recvs[i] == recvs[1..][i - 1];
      }
    }
  }

  /** A recv that fills the buffer does not end the loop: the zero-byte recv after it
      decides, and when the socket answers EAGAIN read ends true with the buffer full. */
  lemma {:induction false} RecvFillsThenWouldBlock(buf: seq<char>, idx: nat, data: seq<char>)
    requires idx + |data| == |buf| && data != []
    ensures var r := RecvLoop(buf, idx, [Received(data), RecvWouldBlock]);
      r.ok && r.idx == |buf| && r.calls == 2 && r.buf[idx..] == data
  {
    var recvs := [Received(data), RecvWouldBlock];
    RecvStep(buf, idx, recvs);
    assert data[..|data|] == data;
    var b := buf[..idx] + data + buf[idx + |data|..];
    assert recvs[1..] == [RecvWouldBlock];
    RecvStep(b, |buf|, recvs[1..]);
    assert b[idx..] == data;
  }

  /** Bytes that fit arrive at the fill mark, in order, and the mark moves past them. */
  lemma {:induction false} RecvAppends(buf: seq<char>, idx: nat, data: seq<char>, rest: seq<RecvResult>)
    requires idx + |data| <= |buf| && data != []
    ensures var r := RecvLoop(buf, idx, [Received(data)] + rest);
      idx + |data| <= r.idx && r.buf[idx..idx + |data|] == data
  {
    var b := buf[..idx] + data + buf[idx + |data|..];
    assert data[..|data|] == data;
    assert ([Received(data)] + rest)[1..] == rest;
    RecvLoopFrame(b, idx + |data|, rest);
    var r := RecvLoop(b, idx + |data|, rest);
    assert r.buf[..idx + |data|] == b[..idx + |data|];
    assert b[idx..idx + |data|] == data;
  }

  /** What one writev call returns: a byte count, -1 with EAGAIN, or -1 otherwise. */
  datatype WritevResult = Sent(n: nat) | WritevWouldBlock | WritevFailed

  /** How the writev loop ends: the socket would block, writev failed, or the bytes
      to send have all gone. */
  datatype WriteEnd = WriteBlocked | WriteFailed | WriteDone

  /** The writev loop with toSend bytes still to go. bytes_to_send starts from
      m_write_idx, so the mapped file of a two-iovec answer is not counted. */
  function WriteLoop(toSend: int, sends: seq<WritevResult>): (r: (WriteEnd, nat))
    ensures r.1 <= |sends|
    decreases |sends|
  {
    if sends == [] then (WriteBlocked, 0)
    else match sends[0]
      case WritevWouldBlock => (WriteBlocked, 1)
      case WritevFailed => (WriteFailed, 1)
      case Sent(n) =>
        if toSend - n <= 0 then (WriteDone, 1)
        else var r := WriteLoop(toSend - n, sends[1..]); (r.0, r.1 + 1)
  }

  /** The bytes the first k results report sent. */
  function SentTotal(sends: seq<WritevResult>, k: nat): nat
    requires k <= |sends|
  {
    if k == 0 then 0
    else SentTotal(sends, k - 1) + (if sends[k - 1].Sent? then sends[k - 1].n else 0)
  }

  lemma {:induction false} SentTotalTail(sends: seq<WritevResult>, k: nat)
    requires 1 <= k <= |sends| && sends[0].Sent?
    ensures SentTotal(sends, k) == sends[0].n + SentTotal(sends[1..], k - 1)
    decreases k
  {
    if k > 1 {
      SentTotalTail(sends, k - 1);
      assert sends[1..][k - 2] == sends[k - 1];
    }
  }

  /** The write loop is done exactly at the first writev after which the bytes sent
      reach toSend; every call before that sent bytes and fell short. */
  lemma {:induction false} WriteDoneMeaning(toSend: int, sends: seq<WritevResult>)
    requires toSend > 0
    ensures var (end, calls) := WriteLoop(toSend, sends);
      && (forall i :: 0 <= i < calls - 1 ==> sends[i].Sent?)
      && (forall k :: 1 <= k < calls ==> SentTotal(sends, k) < toSend)
      && (end == WriteDone <==> calls >= 1 && sends[calls - 1].Sent? && SentTotal(sends, calls) >= toSend)
    decreases |sends|
  {
    if sends != [] && sends[0].Sent? && toSend - sends[0].n > 0 {
      var rest := sends[1..];
      var t := toSend - sends[0].n;
      WriteDoneMeaning(t, rest);
      var (end, calls) := WriteLoop(t, rest);
      assert forall i :: 1 <= i < calls + 1 ==> sends[i] == rest[i - 1];
      forall k | 1 <= k <= calls + 1
        ensures SentTotal(sends, k) == sends[0].n + SentTotal(rest, k - 1)
      {
        SentTotalTail(sends, k);
      }
    } else if sends != [] && sends[0].Sent? {
      assert SentTotal(sends, 1) == sends[0].n;
    }
  }

  /** The loop is done at call k when the first k writevs all sent bytes and the k-th
      is the one whose total first reaches toSend. */
  lemma {:induction false} WriteDoneAt(toSend: int, sends: seq<WritevResult>, k: nat)
    requires 1 <= k <= |sends| && forall i :: 0 <= i < k ==> sends[i].Sent?
    requires SentTotal(sends, k - 1) < toSend <= SentTotal(sends, k)
    ensures WriteLoop(toSend, sends) == (WriteDone, k)
    decreases k
  {
    if k > 1 {
      var rest := sends[1..];
      var n0 := sends[0].n;
      SentTotalTail(sends, k - 1);
      SentTotalTail(sends, k);
      forall i | 0 <= i < k - 1
        ensures rest[i].Sent?
      {
        assert rest[i] == sends[i + 1];
      }
      WriteDoneAt(toSend - n0, rest, k - 1);
    }
  }

  /** The accounting counts only the write buffer (line 449): whatever the socket
      answers, the loop is done at the first writev whose total reaches m_write_idx,
      even when fewer bytes than the head and the mapped file together have gone; a
      loop that counted the file too would not be done there. */
  lemma {:induction false} WriteIgnoresFile(writeIdx: nat, fileLen: nat, sends: seq<WritevResult>, k: nat)
    requires 1 <= k <= |sends| && forall i :: 0 <= i < k ==> sends[i].Sent?
    requires SentTotal(sends, k - 1) < writeIdx <= SentTotal(sends, k) < writeIdx + fileLen
    ensures WriteLoop(writeIdx, sends) == (WriteDone, k)
    ensures WriteLoop(writeIdx + fileLen, sends) != (WriteDone, k)
  {
    WriteDoneAt(writeIdx, sends, k);
    WriteDoneMeaning(writeIdx + fileLen, sends);
  }
}
