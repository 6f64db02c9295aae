/** do_request: building m_real_file from the document root and the request target,
    and classifying the result of stat. The file system is a map from path to what
    stat reports; Connection.HttpConn.DoRequest is proved to act as these functions say. */
module Resolver {
  import opened CString
  import opened Http

  /** The third argument of the strncpy call: the room left for the target after the
      document root and before the last byte of m_real_file. */
  const URL_ROOM: nat := FILENAME_LEN - |DOC_ROOT| - 1

  /** The n bytes strncpy(dest, src, n) writes: the first n characters of the C string
      src, padded with NUL when src is shorter. */
  function StrncpyBytes(src: seq<char>, n: nat): (r: seq<char>)
    ensures |r| == n
  {
    if |src| >= n then src[..n] else src + seq(n - |src|, _ => '\0')
  }

  /** m_real_file after strcpy(m_real_file, doc_root) and the strncpy of the target:
      the root, the copied target, and the last byte as it was. */
  function RealFileBytes(before: seq<char>, url: seq<char>): (r: seq<char>)
    requires |before| == FILENAME_LEN
    ensures |r| == FILENAME_LEN
  {
    DOC_ROOT + StrncpyBytes(url, URL_ROOM) + [before[FILENAME_LEN - 1]]
  }

  /** The path stat and open receive: the root followed by at most URL_ROOM characters
      of the target. */
  function RequestPath(url: seq<char>): seq<char> {
    DOC_ROOT + url[..Min(|url|, URL_ROOM)]
  }

  /** m_real_file after the two copies, one index at a time. */
  lemma {:induction false} RealFileIndex(before: seq<char>, url: seq<char>)
    requires |before| == FILENAME_LEN
    ensures forall j :: 0 <= j < FILENAME_LEN ==>
      RealFileBytes(before, url)[j] ==
        if j < |DOC_ROOT| then DOC_ROOT[j]
        else if j < FILENAME_LEN - 1 then (if j - |DOC_ROOT| < |url| then url[j - |DOC_ROOT|] else '\0')
        else before[j]
  {
    var r := RealFileBytes(before, url);
    var part := StrncpyBytes(url, URL_ROOM);
    assert forall j :: |DOC_ROOT| <= j < FILENAME_LEN - 1 ==> r[j] == part[j - |DOC_ROOT|];
  }

  /** With the last byte of m_real_file NUL (memset by init, never written after), the C
      string in m_real_file is exactly RequestPath: the root, then the target cut to the
      room left, so the path is always terminated inside the buffer. */
  lemma {:induction false} RealFileIsRequestPath(before: seq<char>, url: seq<char>)
    requires |before| == FILENAME_LEN && before[FILENAME_LEN - 1] == '\0'
    requires '\0' !in url
    ensures CStr(RealFileBytes(before, url), 0) == RequestPath(url)
    ensures |RequestPath(url)| < FILENAME_LEN
  {
    assert '\0' !in DOC_ROOT;
    CopiedPath(DOC_ROOT, url, URL_ROOM, before[FILENAME_LEN - 1]);
  }

  /** The C string of root, then n bytes strncpy'd from url, then a NUL: the root and
      at most n characters of url. */
  lemma {:induction false} CopiedPath(root: seq<char>, url: seq<char>, n: nat, last: char)
    requires '\0' !in root && '\0' !in url && last == '\0'
    ensures CStr(root + StrncpyBytes(url, n) + [last], 0) == root + url[..Min(|url|, n)]
  {
    var part := StrncpyBytes(url, n);
    var r := root + part + [last];
    var k := Min(|url|, n);
    var e := |root| + k;
    assert forall i :: 0 <= i < |root| ==> r[i] == root[i];
    assert forall i :: |root| <= i < e ==> r[i] == part[i - |root|] == url[i - |root|];
    assert forall i :: 0 <= i < e ==> r[i] != '\0';
    assert r[e] == '\0' by {
      if k < n {
        assert r[e] == part[k];
      } else {
        assert r[e] == last;
      }
    }
    CEndUnique(r, 0, e);
    assert r[..e] == root + url[..k];
  }

  /** What do_request answers for a path, in the order the code checks: stat fails,
      others may not read it, it is a directory, else it is served. */
  function Classify(fs: FileSystem, path: seq<char>): HttpCode {
    if path !in fs then NoResource
    else if !fs[path].otherReadable then ForbiddenRequest
    else if fs[path].isDirectory then BadRequest
    else FileRequest
  }

  /** Each verdict in terms of the file system alone. A directory that others may not
      read is Forbidden, not Bad: the permission check comes first. */
  lemma {:induction false} ClassifyMeaning(fs: FileSystem, path: seq<char>)
    ensures Classify(fs, path) == NoResource <==> path !in fs
    ensures Classify(fs, path) == ForbiddenRequest <==> path in fs && !fs[path].otherReadable
    ensures Classify(fs, path) == BadRequest <==> path in fs && fs[path].otherReadable && fs[path].isDirectory
    ensures Classify(fs, path) == FileRequest <==> path in fs && fs[path].otherReadable && !fs[path].isDirectory
    ensures Classify(fs, path) in {NoResource, ForbiddenRequest, BadRequest, FileRequest}
  {
  }

  /** The path always lies under the document root, and targets that agree on their
      first URL_ROOM characters name the same file: the rest of a long target is
      ignored. */
  lemma {:induction false} RequestPathTruncation(url1: seq<char>, url2: seq<char>)
    requires |url1| >= URL_ROOM && |url2| >= URL_ROOM && url1[..URL_ROOM] == url2[..URL_ROOM]
    ensures RequestPath(url1) == RequestPath(url2)
    ensures RequestPath(url1)[..|DOC_ROOT|] == DOC_ROOT
    ensures |RequestPath(url1)| == FILENAME_LEN - 1
  {
  }

  /** A target that fits is kept whole. */
  lemma {:induction false} RequestPathShort(url: seq<char>)
    requires |url| <= URL_ROOM
    ensures RequestPath(url) == DOC_ROOT + url
  {
  }

  /** What do_request leaves behind for the target src, from m_real_file, m_file_stat
      and m_file_address as they were before: m_real_file holds the root and the
      copied target, the verdict is Classify's for the request path, stat overwrote
      m_file_stat when the path exists, and only a served file is mapped. */
  predicate Resolved(fs: FileSystem, src: seq<char>, before: seq<char>, stat0: FileStat, addr0: Option<seq<char>>,
                     code: HttpCode, after: seq<char>, stat: FileStat, addr: Option<seq<char>>)
    requires |before| == FILENAME_LEN
  {
    var path := RequestPath(src);
    && after == RealFileBytes(before, src)
    && code == Classify(fs, path)
    && stat == (if path in fs then fs[path] else stat0)
    && addr == (if code == FileRequest then Some(fs[path].data) else addr0)
  }
}
