# http_conn, modelled and verified in Dafny

This project models the per-connection HTTP engine of simple_webserver, the C++
class `http_conn` in `http_conn/http_conn.cpp`, and proves properties of that model.
One object serves one client socket. It has a read buffer that `read()` fills from
the socket, and a line scanner (`parse_line`) that cuts that buffer into
CRLF-terminated lines in place. A three-state request parser runs over those lines:
`parse_request_line`, then `parse_headers`, then `parse_content`, driven by
`process_read`. `do_request` then resolves the target under the document root. A
response builder (`add_response`, its `add_*` helpers, `process_write`) stages the
answer in a write buffer plus at most two iovecs. `write()` drains them to the
socket, and `process()`, `init()`, `close_conn()` and `unmap()` tie these together.

The model has the same imperative shape as the code. `Connection.HttpConn` is a
class with the fields of `http_conn`:

- `readBuf`, `writeBuf` and `realFile` are arrays of `READ_BUFFER_SIZE`,
  `WRITE_BUFFER_SIZE` and `FILENAME_LEN` characters.
- The indices, the check state, the method and `linger` are plain fields.
- `url`, `version` and `host` are optional offsets into the read buffer, as the
  code's pointers are.
- The file fields are `fileStat` and `fileAddress`, plus the iovecs and their count.
- `sockfd`, a shared `UserCount` object (the static `m_user_count`), and a log of
  the epoll calls made for the socket complete the class.

Each method changes the fields its C++ counterpart changes, and its `ensures`
ties the new state to a function of the old one:

- `Scanner.ScanLine` for the line scanner.
- `RequestParser.RequestLineStep`, `HeaderStep`, `ContentStep`, `Dispatch`,
  `ReadStep` and `ProcessReadF` for the parser.
- `Resolver.Resolved` and `Classify` for `do_request`.
- `Response.Add`, `AddHeaders`, `PageResponse`, `FileResponse` and `ProcessWriteF`
  for the response builder.
- `Socket.RecvLoop` and `WriteLoop` for the two socket loops.

Lemmas about those functions state what the code promises. Among them:

- Verdicts and resumption of the scanner.
- An exact, two-way description of the request lines the parser accepts.
- The header rules.
- The forward-only parser state.
- The order of the resolver's checks and its path truncation.
- The bounded append and the exact texts of the response builder.
- The quirks of `process_write` and `write`.

The system calls are oracles:

- `recv` and `writev` become the sequence of results the socket gives,
  `Socket.RecvResult` and `Socket.WritevResult`. An exhausted sequence behaves as
  EAGAIN.
- `stat` becomes a lookup in a `FileSystem` map from path to
  `FileStat(otherReadable, isDirectory, data)`. `mmap` yields the file's data.
- `epoll_ctl`, behind `addfd`, `modfd` and `removefd`, becomes an entry
  `Add(fd)`, `Mod(fd, In|Out)` or `Del(fd)` appended to `epollLog`.

`http_conn.h` is not part of this model. The constants follow the usual values of
that header: `READ_BUFFER_SIZE` is 2048, `WRITE_BUFFER_SIZE` is 1024 and
`FILENAME_LEN` is 200. The document root and the status texts are those of
`http_conn/http_conn.cpp:4-14`. `get_line()` is taken to be
`m_read_buf + m_start_line`, which is how the loop at
`http_conn/http_conn.cpp:342-344` uses it. `close_conn()` with no argument is taken
to be `close_conn(true)`.

In these places the code departs from what RFC 9112 expects of an HTTP/1.1
server, and the model follows the code:

- A malformed line (`LINE_BAD`) ends `process_read` with `NO_REQUEST`, not with
  400 (`RequestParser.ScanVerdictEndsRead`).
- A world-readable empty file is not answered 200. `process_write` stages the
  placeholder body, then falls into `default` and returns false, so the connection
  is closed (`Response.EmptyFileAnsweredFalse`).
- The body is complete once `m_read_idx >= m_checked_idx + m_content_length`.
  That is measured from the scan cursor, not from the start of the body
  (`RequestParser.BodyComplete`).
- `Content-Length` is read with `atol`, so a negative length is accepted.
- `add_headers` is declared `bool` but has no `return` statement
  (http_conn/http_conn.cpp:526-531). Its callers ignore the result, so the model
  gives it no verdict (`Connection.HttpConn.AddHeaders`).
- A partial `writev` does not move the iovecs. `bytes_to_send` counts only
  `m_write_idx`, not the mapped file: once the bytes sent reach the head's length,
  write unmaps the file (and re-inits a keep-alive connection) although part of
  the file has not gone (`Socket.WriteIgnoresFile`).
- The full-buffer test of read is made only before the loop. A recv that fills
  the last free byte is followed by a recv for zero bytes, and when that one
  answers EAGAIN read returns true with the buffer full
  (`Socket.RecvFillsThenWouldBlock`).

## Model

| member | source | states |
|---|---|---|
| CString.CaseEqSpec | http_conn/http_conn.cpp:214 | strcasecmp equality holds exactly when the lengths agree and every position agrees after folding to lower case |
| CString.CaseEq | http_conn/http_conn.cpp:214 | strcasecmp(a, b) == 0; CaseEqSpec states it as equal length and agreement at every position after folding to lower case |
| CString.PrefixCaseEq | http_conn/http_conn.cpp:241 | strncasecmp(s, p, |p|) == 0 for a pattern without NUL: s is at least as long as p and its first |p| characters equal p ignoring case |
| CString.CaseEqDiffers | http_conn/http_conn.cpp:235 | one position that differs after case folding makes strcasecmp report a difference |
| CString.PrefixCaseEqDiffers | http_conn/http_conn.cpp:241 | one differing position inside the pattern makes strncasecmp report a difference |
| CString.StrpbrkSpec | http_conn/http_conn.cpp:203 | strpbrk returns the first index whose character is in the set, and none only when no character is |
| CString.Strpbrk | http_conn/http_conn.cpp:203 | strpbrk as an index: a found index lies inside the string; StrpbrkSpec and StrpbrkIs state that it is the first character of the accept set and that none means there is none |
| CString.Strchr | http_conn/http_conn.cpp:248 | strchr for a non-NUL character, as strpbrk with a one-character set, so StrpbrkSpec gives its meaning |
| CString.StrpbrkIs | http_conn/http_conn.cpp:227 | an index with a set character and none before it is what strpbrk returns |
| CString.SpanSpec | http_conn/http_conn.cpp:226 | a span is the longest prefix whose characters satisfy the predicate |
| CString.StrspnSpec | http_conn/http_conn.cpp:226 | strspn covers only characters of the set and stops at the first one outside it |
| CString.Strspn | http_conn/http_conn.cpp:226 | strspn: a count no longer than the string; StrspnSpec states that every counted character is in the set and the next one is not |
| CString.StrspnIs | http_conn/http_conn.cpp:233 | a prefix of set characters followed by a non-set character has exactly that strspn |
| CString.DigitChar | http_conn/http_conn.cpp:535 | the digit written for a value below ten reads back as that value |
| CString.Decimal | http_conn/http_conn.cpp:535 | %d of a non-negative value is a non-empty run of digits with no leading zero |
| CString.FormatInt | http_conn/http_conn.cpp:535 | the text of %d: never empty, a minus sign before the digits of a negative value; AtolFormatInt reads every value back from it |
| CString.DecimalLength | http_conn/http_conn.cpp:535 | a value below 10^k is rendered in at most k digits |
| CString.DecimalValue | http_conn/http_conn.cpp:535 | the digits %d writes read back as the value |
| CString.AtolNoSpace | http_conn/http_conn.cpp:299 | atol of a string that does not start with white space decides on its sign at once |
| CString.LeadingValue | http_conn/http_conn.cpp:299 | the unsigned value of the digits at the head of the text; LeadingValueAll states it for a text of digits alone |
| CString.Atol | http_conn/http_conn.cpp:299 | atol: blanks skipped, an optional sign, leading digits, the rest ignored, no digits giving 0; AtolNoSpace, AtolDigits and AtolFormatInt state its results |
| CString.LeadingValueAll | http_conn/http_conn.cpp:299 | a string made only of digits is read in full |
| CString.AtolFormatInt | http_conn/http_conn.cpp:299 | atol of %d gives back every int, negative ones included |
| CString.AtolDigits | http_conn/http_conn.cpp:299 | digits, with or without a leading minus, are read in full with that sign |
| CString.CEndSpec | http_conn/http_conn.cpp:342 | the end of a C string is the first NUL at or after its start, or the end of the buffer |
| CString.CStrHasNoNul | http_conn/http_conn.cpp:411 | a C string taken from a buffer contains no NUL |
| CString.CEndUnique | http_conn/http_conn.cpp:342 | a NUL-free run followed by a NUL, or by the end of the buffer, is exactly where the C string ends |
| CString.CStrAfterCut | http_conn/http_conn.cpp:209 | a NUL written inside a C string cuts it there, and one written before its start leaves it alone |
| CString.CStrSuffix | http_conn/http_conn.cpp:226 | the C string at a later offset of a C string is the matching suffix |
| CString.SpliceIndex | http_conn/http_conn.cpp:170 | bytes stored at an offset replace exactly that window of the buffer |
| Scanner.FirstTerminator | http_conn/http_conn.cpp:118-153 | the first CR or LF in the window, or its end if there is none |
| Scanner.ScanLine | http_conn/http_conn.cpp:115-157 | the buffer length is kept and the cursor stays between the old cursor and `m_read_idx` |
| Scanner.ScanCrLf | http_conn/http_conn.cpp:132-136 | `"\r\n"` gives `LINE_OK`, makes both bytes NUL and puts the cursor just past the LF |
| Scanner.ScanCrLast | http_conn/http_conn.cpp:127-130 | a CR that is the last buffered byte gives `LINE_OPEN` and leaves the cursor on that CR |
| Scanner.ScanCrOther | http_conn/http_conn.cpp:123-140 | a CR followed by another byte gives `LINE_BAD` and changes nothing |
| Scanner.ScanBareLf | http_conn/http_conn.cpp:143-151 | an LF not preceded by a CR gives `LINE_BAD`, at index 0 too |
| Scanner.ScanNoTerminator | http_conn/http_conn.cpp:155-156 | with no terminator, the whole tail is consumed and the result is `LINE_OPEN` |
| Scanner.ScanLineEffect | http_conn/http_conn.cpp:134-135 | only terminator bytes change, only to NUL, only inside the window and only on `LINE_OK`; a completed line ends in two NULs; `LINE_OPEN` leaves the cursor at the fill mark or on a final CR |
| Scanner.ScanLineFrame | http_conn/http_conn.cpp:118-153 | the scan reads nothing outside `[m_checked_idx - 1, m_read_idx)` and writes nothing outside it |
| Scanner.ScanKeepsNoCrBehind | http_conn/http_conn.cpp:145-150 | the byte behind the cursor is never a CR, so the LF-after-CR branch never completes a line |
| Scanner.ScanResumes | http_conn/http_conn.cpp:118-157 | rescanning from the cursor left by `LINE_OPEN`, after more bytes have arrived, equals one scan over all the bytes |
| Scanner.SplitCrLf | http_conn/http_conn.cpp:127-136 | a CRLF split between two reads completes the line on the next scan |
| RequestParser.OnlyNulsTrans | http_conn/http_conn.cpp:209 | "only NULs were added" composes across steps |
| RequestParser.TokenFound | http_conn/http_conn.cpp:203 | strpbrk for a blank ends a token without blanks |
| RequestParser.BlanksFound | http_conn/http_conn.cpp:226 | strspn of the blanks spans a maximal run of blanks |
| RequestParser.TargetFound | http_conn/http_conn.cpp:241-254 | an accepted URL token yields a target that starts with `/`, after any `http://` prefix up to the first `/` |
| RequestParser.TargetIs | http_conn/http_conn.cpp:241-254 | any target of that shape is the one the code selects |
| RequestParser.AcceptedHasShape | http_conn/http_conn.cpp:203-259 | every line parse_request_line accepts has the form: GET (any case), blank, blanks, non-empty URL token, blank, blanks, exactly HTTP/1.1 (any case), with a target that starts with `/` |
| RequestParser.ShapeIsAccepted | http_conn/http_conn.cpp:203-259 | every line of that form is accepted, with exactly those offsets |
| RequestParser.ParseNoBlank | http_conn/http_conn.cpp:203-208 | a line without space or tab is `BAD_REQUEST` and nothing is cut |
| RequestParser.ParseFrom | http_conn/http_conn.cpp:203-259 | parse_request_line on the C string of the line from a given stage on, with its cuts recorded; the ParseNoBlank, ParseMethod, ParseNoUrlEnd and ParseVersion lemmas state each branch, and AcceptedHasShape and ShapeIsAccepted characterise the accepted lines |
| RequestParser.ParseMethod | http_conn/http_conn.cpp:209-221 | a method other than GET (any case) is rejected after the first cut; GET goes on to the URL |
| RequestParser.ParseNoUrlEnd | http_conn/http_conn.cpp:226-231 | a URL token with no blank after it is `BAD_REQUEST` |
| RequestParser.ParseVersion | http_conn/http_conn.cpp:232-254 | the version must be exactly HTTP/1.1 (any case), then the target must start with `/`; each rejection records the cuts and pointers the code leaves |
| RequestParser.UrlTokenNonEmpty | http_conn/http_conn.cpp:226-227 | the URL token found after the blanks is never empty |
| RequestParser.AfterMethodExits | http_conn/http_conn.cpp:226-238 | the exits after a GET method, at the offsets the code computes |
| RequestParser.CutAt | http_conn/http_conn.cpp:209 | the cuts keep the buffer length |
| RequestParser.ApplyRequestLine | http_conn/http_conn.cpp:199-259 | a rejected line gives BAD_REQUEST with the cuts made and whatever of method, URL and version the code had set; an accepted one gives NO_REQUEST, the URL at the target, the version, and the header state; RequestLineStepAdvances states its effect on the fields |
| RequestParser.RequestLineStep | http_conn/http_conn.cpp:199-259 | parse_request_line on the connection, the line being the C string at text; Connection.RequestLineWalkIs states that the code's pointer walk computes exactly this |
| RequestParser.CutAtOnlyNuls | http_conn/http_conn.cpp:209 | the cuts of parse_request_line only write NUL |
| RequestParser.CheckTargetAccepted | http_conn/http_conn.cpp:240-259 | a good target leaves two NUL cuts, the method GET, `m_url` at the target and the parser in the header state with `NO_REQUEST` |
| RequestParser.CheckTargetRejected | http_conn/http_conn.cpp:240-254 | a target without a leading `/` is `BAD_REQUEST`; `m_url` is NULL after `http://` and the token otherwise |
| RequestParser.BlankLineEndsHeaders | http_conn/http_conn.cpp:266-283 | for a GET, the blank line gives `GET_REQUEST` exactly when `m_content_length` is 0, and otherwise moves to the body state with `NO_REQUEST` |
| RequestParser.HeaderLine | http_conn/http_conn.cpp:266-311 | which header a line is: blank, Connection, Content-Length or Host matched as case-insensitive prefixes in that order, anything else unknown; ContentLengthParsesBack and ConnectionParsesBack state that the Content-Length and Connection lines the response side formats read back as the same value |
| RequestParser.HeaderStep | http_conn/http_conn.cpp:263-315 | parse_headers on the connection: the blank line ends the request or starts the body, keep-alive sets m_linger, the length and Host are recorded, other lines change nothing; BlankLineEndsHeaders, HeaderLinger and HeaderStepAdvances state it |
| RequestParser.HeaderLinger | http_conn/http_conn.cpp:285-313 | keep-alive sets `m_linger`, no header clears it, an unknown header changes nothing, and no header gives `BAD_REQUEST` |
| RequestParser.ValueAfterSpace | http_conn/http_conn.cpp:288 | the value after the name and one space is what follows, when it does not start with a blank |
| RequestParser.ContentLengthLineParts | http_conn/http_conn.cpp:285-299 | a Content-Length line is not taken for Connection, and its value is what follows the space |
| RequestParser.ContentLengthParsesBack | http_conn/http_conn.cpp:295-300 | the Content-Length line the builder writes parses back to the same number |
| RequestParser.ConnectionParsesBack | http_conn/http_conn.cpp:285-293 | the Connection line the builder writes parses back to the same keep-alive choice |
| RequestParser.Sentinel | http_conn/http_conn.cpp:322 | the guarded body sentinel keeps the buffer length |
| RequestParser.ContentStep | http_conn/http_conn.cpp:318-327 | parse_content on the connection: GET_REQUEST exactly when the body is in, with at most the one sentinel NUL written; ContentSentinelInBounds states it |
| RequestParser.ContentSentinelInBounds | http_conn/http_conn.cpp:318-327 | `GET_REQUEST` exactly when the body is complete; at most one byte changes, to NUL, at `text + m_content_length` and inside the buffer; no other field changes |
| RequestParser.ContentStepAsWritten | http_conn/http_conn.cpp:318-327 | parse_content as written: `GET_REQUEST` exactly when the body is complete, with the index the NUL goes to |
| RequestParser.ContentStepAsWrittenEscapes | http_conn/http_conn.cpp:320-322 | as written, the NUL lands at index `READ_BUFFER_SIZE` when the body ends at the buffer's end, and before the body when Content-Length is negative |
| RequestParser.RequestLineStepAdvances | http_conn/http_conn.cpp:199-259 | parse_request_line keeps the indices valid, only adds NULs and never moves the state back |
| RequestParser.RequestLineStepUrl | http_conn/http_conn.cpp:251-258 | an accepted request line leaves `m_url` inside the buffer |
| RequestParser.AcceptedTargetInLine | http_conn/http_conn.cpp:251-258 | the accepted target lies inside the line |
| RequestParser.HeaderStepAdvances | http_conn/http_conn.cpp:263-315 | a header line moves nothing back and leaves the cursor and line start where they were |
| RequestParser.ContentStepAdvances | http_conn/http_conn.cpp:318-327 | the body step moves nothing back and stays in the body state |
| RequestParser.DispatchAdvances | http_conn/http_conn.cpp:342-389 | one pass of the loop body moves nothing back, does not move the cursor, and drops the line status to `LINE_OPEN` only in the body state |
| RequestParser.Dispatch | http_conn/http_conn.cpp:342-389 | the loop body after a line is obtained: remember the line start, then hand the line to the parser of the current state; DispatchAdvances and DispatchVerdicts state what it may return and change |
| RequestParser.ReadStep | http_conn/http_conn.cpp:339-389 | one test of the loop condition and, when it holds, one pass; a scan that finds no complete line ends the read with NO_REQUEST (ScanVerdictEndsRead) |
| RequestParser.ReadStepAdvances | http_conn/http_conn.cpp:339-389 | each round moves nothing back and, when the loop goes on, strictly decreases the loop measure, so process_read terminates |
| RequestParser.ProcessReadAdvances | http_conn/http_conn.cpp:330-394 | process_read never moves the state or the cursor back, never touches `m_read_idx`, only adds NULs, never clears `m_linger`, and answers `NO_REQUEST`, `BAD_REQUEST` or `GET_REQUEST` |
| RequestParser.ProcessReadF | http_conn/http_conn.cpp:330-394 | process_read on the parser fields, starting with LINE_OK; ProcessReadAdvances states that it only moves forward and returns NO_REQUEST, BAD_REQUEST or GET_REQUEST |
| RequestParser.ScanVerdictEndsRead | http_conn/http_conn.cpp:339-393 | a `LINE_BAD` or `LINE_OPEN` scan ends process_read with `NO_REQUEST`; only the cursor moves |
| RequestParser.DispatchVerdicts | http_conn/http_conn.cpp:348-389 | `BAD_REQUEST` returns at once and only from the request line; `GET_REQUEST` only from the headers or the body; a request line that does not return moves to the headers |
| Resolver.StrncpyBytes | http_conn/http_conn.cpp:411 | strncpy writes exactly n bytes |
| Resolver.RequestPath | http_conn/http_conn.cpp:400-411 | the path stat and open receive: the root followed by at most the room left of the target; RealFileIsRequestPath ties it to m_real_file and RequestPathTruncation and RequestPathShort to the target |
| Resolver.RealFileBytes | http_conn/http_conn.cpp:400-411 | `m_real_file` keeps its length after the two copies |
| Resolver.RealFileIndex | http_conn/http_conn.cpp:400-411 | byte by byte: the root, then the target or NUL padding, and the last byte untouched |
| Resolver.RealFileIsRequestPath | http_conn/http_conn.cpp:400-411 | the C string in `m_real_file` is the root followed by at most `FILENAME_LEN - strlen(doc_root) - 1` characters of the target, and it is terminated inside the buffer |
| Resolver.CopiedPath | http_conn/http_conn.cpp:411 | root, strncpy'd target and a NUL read back as the root and the target's first n characters |
| Resolver.ClassifyMeaning | http_conn/http_conn.cpp:412-431 | the checks run in order: no stat gives `NO_RESOURCE`; not other-readable gives `FORBIDDEN_REQUEST`, even for a directory; a directory gives `BAD_REQUEST`; anything else gives `FILE_REQUEST`; each direction of each case |
| Resolver.Classify | http_conn/http_conn.cpp:412-431 | do_request's answer for a path, in the code's order: a missing file, then missing read permission for others, then a directory, else the file; ClassifyMeaning states each case |
| Resolver.Resolved | http_conn/http_conn.cpp:398-431 | what do_request leaves behind: m_real_file as the two copies make it, the verdict of Classify, the stat record overwritten only when the path exists, and a mapping only for a served file |
| Resolver.RequestPathTruncation | http_conn/http_conn.cpp:411 | targets that agree on their first `URL_ROOM` characters name the same path: a long target is truncated silently, under the root, to `FILENAME_LEN - 1` characters |
| Resolver.RequestPathShort | http_conn/http_conn.cpp:411 | a target that fits is kept whole |
| Response.Vsnprintf | http_conn/http_conn.cpp:511 | vsnprintf keeps the buffer length |
| Response.VsnprintfIndex | http_conn/http_conn.cpp:511 | byte by byte: as much of the text as fits before a NUL, and nothing else changes |
| Response.Add | http_conn/http_conn.cpp:503-519 | add_response keeps the buffer length and keeps the mark below `WRITE_BUFFER_SIZE - 1` |
| Response.AddMeaning | http_conn/http_conn.cpp:505-518 | add_response succeeds exactly when the text fits with one byte to spare; then the staged text grows by exactly that text and the mark by its length; otherwise the mark and the staged text stay; nothing before the mark is overwritten |
| Response.AddFits | http_conn/http_conn.cpp:505-518 | a text that fits is appended and add_response succeeds |
| Response.AddHeaders | http_conn/http_conn.cpp:526-531 | add_headers keeps the buffer length and the mark bounds |
| Response.StatusLine | http_conn/http_conn.cpp:521-524 | the status line add_status_line formats: "HTTP/1.1", the status, the title and CRLF |
| Response.ContentLengthLine | http_conn/http_conn.cpp:533-536 | the Content-Length line with the value as %d prints it |
| Response.LingerLine | http_conn/http_conn.cpp:538-541 | the Connection line: keep-alive when lingering, close otherwise |
| Response.ToInt32 | http_conn/http_conn.cpp:603 | st_size passed to an int: ToInt32 keeps the low 32 bits in two's complement; FileLengthWraps states when it is exact and when it wraps |
| Response.ErrorPageOf | http_conn/http_conn.cpp:4-12 | the status, title and form of each error answer: 500, 400, 404 and 403 with the texts of the code, none for the other verdicts; PageLinesShorterThanForm and PageResponseMeaning use it |
| Response.PageResponse | http_conn/http_conn.cpp:558-597 | an error answer keeps the buffer length and the mark bounds, and has two iovec slots |
| Response.PageResponseIs | http_conn/http_conn.cpp:558-597 | an error answer is status line, then headers, then page, with one iovec over the buffer when the page fits |
| Response.FileResponse | http_conn/http_conn.cpp:598-625 | a file answer keeps the buffer length and the mark bounds |
| Response.FileResponseIs | http_conn/http_conn.cpp:598-625 | a non-empty file gives true and two iovecs, the buffer and then the mapping of `st_size` bytes; an empty file stages the placeholder and gives false |
| Response.ProcessWriteF | http_conn/http_conn.cpp:554-631 | process_write keeps the buffer length and the mark bounds |
| Response.ProcessWriteOthers | http_conn/http_conn.cpp:556-631 | exactly the four error codes have a page; every code other than those and `FILE_REQUEST` is answered false with nothing staged |
| Response.PageLinesShorterThanForm | http_conn/http_conn.cpp:4-12 | in every error answer the page is longer than each line before it, and the whole answer is under 200 bytes |
| Response.Add5Meaning | http_conn/http_conn.cpp:560-565 | five appends whose last text is the longest succeed at the last exactly when all five fit together, and then the buffer holds all five |
| Response.PageResponseMeaning | http_conn/http_conn.cpp:558-597 | an error answer is true exactly when status line, headers and page all fit; then the buffer gains exactly that text and one iovec covers the whole buffer; otherwise the iovecs stay |
| Response.PageAnswer | http_conn/http_conn.cpp:558-597 | for 500, 400, 404 and 403: the right status, title and form, Content-Length equal to the form's length, and the all-or-nothing staging above |
| Response.Add4Fits | http_conn/http_conn.cpp:600-603 | four appends that fit together stage all four |
| Response.FileAnswer | http_conn/http_conn.cpp:598-610 | a non-empty file is always answered true, with iovecs `[buffer of m_write_idx bytes, mapping of st_size bytes]`; when the head fits, the buffer holds exactly the head |
| Response.EmptyFileAnsweredFalse | http_conn/http_conn.cpp:611-624 | an empty file is answered false and the iovecs are left as they were |
| Response.PageFitsFromEmpty | http_conn/http_conn.cpp:558-597 | from an empty buffer every error answer is staged whole, with one iovec |
| Response.FileHeadShort | http_conn/http_conn.cpp:600-603 | the head of a file answer is under 100 bytes |
| Response.FileHeadFitsFromEmpty | http_conn/http_conn.cpp:598-610 | from an empty buffer the whole head of a file answer is staged and is the first iovec |
| Response.FileLengthWraps | http_conn/http_conn.cpp:603 | the `st_size` passed to the int parameter of add_headers is exact below 2^31, negative from 2^31 and 0 at 2^32 |
| Socket.RecvLoop | http_conn/http_conn.cpp:168-194 | the recv loop keeps the buffer length and moves the fill mark forward, never past the buffer |
| Socket.RecvStep | http_conn/http_conn.cpp:168-194 | one recv: EAGAIN ends true; an error or 0 ends false; bytes are stored at the mark and the loop goes on |
| Socket.RecvStored | http_conn/http_conn.cpp:170-193 | after storing a recv's bytes, the loop ends as it would have before |
| Socket.RecvLoopFrame | http_conn/http_conn.cpp:170 | nothing before the old mark or after the new one is written |
| Socket.RecvLoopOutcome | http_conn/http_conn.cpp:168-194 | all calls before the last one delivered bytes; true only on EAGAIN or when the results run out, full buffer or not; false only on an error, a closed peer, or a recv that returned 0 because nothing came or no room was left |
| Socket.RecvFillsThenWouldBlock | http_conn/http_conn.cpp:162-194 | a recv that fills the buffer is followed by a zero-byte recv; on EAGAIN read ends true with the buffer full and the bytes at its end |
| Socket.RecvAppends | http_conn/http_conn.cpp:170-193 | bytes that fit arrive at the mark, in order |
| Socket.WriteLoop | http_conn/http_conn.cpp:457-497 | the writev loop uses no more results than there are |
| Socket.SentTotalTail | http_conn/http_conn.cpp:477-478 | the bytes sent are counted from the first result on |
| Socket.WriteDoneMeaning | http_conn/http_conn.cpp:457-497 | the loop is done exactly at the first writev after which the bytes sent reach `m_write_idx`; every earlier call sent bytes and fell short |
| Socket.WriteDoneAt | http_conn/http_conn.cpp:457-497 | for any socket answers, when the first k writevs all sent bytes and the k-th brings the total to `bytes_to_send`, the loop is done after exactly k calls |
| Socket.WriteIgnoresFile | http_conn/http_conn.cpp:449-480 | `bytes_to_send` counts only `m_write_idx`: for any answers whose total reaches the head but not head plus file, the loop is done at that call, where a count of head plus file would not be |
| Connection.Nuls | http_conn/http_conn.cpp:107-109 | memset leaves n NUL bytes |
| Connection.InitialParser | http_conn/http_conn.cpp:95-105 | the parser state init() leaves is ordered, at the request line, with `m_linger` false |
| Connection.InitialParserValid | http_conn/http_conn.cpp:93-110 | the state init() leaves satisfies the connection invariant |
| Connection.InitialWrite | http_conn/http_conn.cpp:106-108 | after init() the write buffer is empty and all NUL |
| Connection.RequestLineStepKeeps | http_conn/http_conn.cpp:199-259 | parse_request_line keeps the connection invariant |
| Connection.RequestLineWalk | http_conn/http_conn.cpp:203-259 | parse_request_line as the code runs it over the read buffer, its pointers as offsets and each NUL written where the code writes it, one stage after another; RequestLineWalkIs states what it computes |
| Connection.MethodEndStage | http_conn/http_conn.cpp:203-207 | the search for the blank after the method: none gives BAD_REQUEST with m_url cleared |
| Connection.MethodCutStage | http_conn/http_conn.cpp:208-220 | the cut after the method, m_url past the cut, and the comparison with GET |
| Connection.UrlSkipStage | http_conn/http_conn.cpp:226 | the skip of the blanks before the URL |
| Connection.UrlEndStage | http_conn/http_conn.cpp:227-231 | the search for the blank after the URL: none gives BAD_REQUEST with m_version cleared |
| Connection.UrlCutStage | http_conn/http_conn.cpp:232-233 | the cut after the URL and the skip of the blanks behind it |
| Connection.VersionStage | http_conn/http_conn.cpp:233-238 | m_version recorded, and anything but HTTP/1.1 rejected |
| Connection.TargetStage | http_conn/http_conn.cpp:240-258 | "http://" stripped up to the first '/', a target that does not start with '/' rejected, the header state on success |
| Connection.RequestLineWalkIs | http_conn/http_conn.cpp:199-259 | the code's pointer walk from the start of the line and the parse of the line as a C string agree on every buffer: same verdict, same NULs, same method, URL, version and state |
| Connection.HeaderStepKeeps | http_conn/http_conn.cpp:263-314 | parse_headers keeps the connection invariant |
| Connection.DispatchKeeps | http_conn/http_conn.cpp:342-389 | one pass of the loop body keeps the invariant |
| Connection.ReadStepKeeps | http_conn/http_conn.cpp:339-389 | one round of process_read keeps the invariant |
| Connection.ProcessReadKeeps | http_conn/http_conn.cpp:330-394 | process_read keeps the invariant, and `GET_REQUEST` comes only after the request line |
| Connection.VerdictOfRead | http_conn/http_conn.cpp:636 | the code process_read returns is `Verdict`, and a file answer has the file's data mapped |
| Connection.Verdict | http_conn/http_conn.cpp:634-643 | the verdict process hands to process_write: process_read's, with do_request's answer for the target in place of GET_REQUEST; VerdictOfRead and VerdictRange state what it can be |
| Connection.Answered | http_conn/http_conn.cpp:637-649 | the writing side after process for a verdict: NO_REQUEST only re-arms EPOLLIN, any other verdict is staged by process_write and then Concluded |
| Connection.Concluded | http_conn/http_conn.cpp:644-649 | after a staging: a failed one closes the connection, unregistering and uncounting an open socket, and EPOLLOUT is re-armed for whatever m_sockfd then holds |
| Connection.VerdictRange | http_conn/http_conn.cpp:636-643 | the verdict process acts on is `NO_REQUEST`, `BAD_REQUEST`, `NO_RESOURCE`, `FORBIDDEN_REQUEST` or `FILE_REQUEST`, never `GET_REQUEST` or `INTERNAL_ERROR` |
| Connection.RecvKeepsValid | http_conn/http_conn.cpp:160-196 | read keeps the parser invariant: recv writes only at and after `m_read_idx` |
| Connection.UserCount.constructor | http_conn/http_conn.cpp:58 | the user count starts at 0 |
| Connection.HttpConn.constructor | main.cpp:71 | a slot of the table allocated before any client is cleared and valid, with no socket and no mapping |
| Connection.HttpConn.Init | http_conn/http_conn.cpp:93-110 | init() restores exactly the cleared state: request-line state, every index 0, `m_linger` false, all three buffers NUL |
| Connection.HttpConn.ClearBuffers | http_conn/http_conn.cpp:107-109 | the three memsets leave every byte NUL |
| Connection.HttpConn.Accept | http_conn/http_conn.cpp:74-91 | the slot takes the socket, registers it with epoll, counts one more user and is cleared |
| Connection.HttpConn.CloseConn | http_conn/http_conn.cpp:62-71 | a real close of an open socket unregisters it, sets `m_sockfd` to -1 and uncounts the user once; any other call, a second close included, changes nothing |
| Connection.HttpConn.ParseLine | http_conn/http_conn.cpp:115-157 | the scan loop does exactly what `Scanner.ScanLine` says to the buffer and the cursor |
| Connection.HttpConn.ParseRequestLine | http_conn/http_conn.cpp:199-259 | the verdict and the new parser fields are `RequestLineStep` on the old ones, and the invariant is kept |
| Connection.HttpConn.ParseMethod | http_conn/http_conn.cpp:209-221 | the first cut and the method check, as the walk over the request line says |
| Connection.HttpConn.ParseUrl | http_conn/http_conn.cpp:226-231 | the blanks skipped and the end of the URL token found, as the walk says |
| Connection.HttpConn.ParseVersion | http_conn/http_conn.cpp:232-238 | the second cut and the version check, as the walk says |
| Connection.HttpConn.ParseTarget | http_conn/http_conn.cpp:241-259 | the `http://` strip and the `/` check, as the walk says |
| Connection.HttpConn.ParseHeaders | http_conn/http_conn.cpp:263-314 | the verdict and the new parser fields are `HeaderStep` on the old ones |
| Connection.HttpConn.EndHeaders | http_conn/http_conn.cpp:266-283 | the blank line, as `HeaderStep` says |
| Connection.HttpConn.ReadConnection | http_conn/http_conn.cpp:285-293 | `m_linger` becomes true for keep-alive after the blanks and otherwise stays |
| Connection.HttpConn.ReadContentLength | http_conn/http_conn.cpp:295-300 | `m_content_length` is atol of the value after the blanks |
| Connection.HttpConn.ReadHost | http_conn/http_conn.cpp:302-307 | `m_host` points at the value, past the name and the blanks |
| Connection.HttpConn.ParseContent | http_conn/http_conn.cpp:318-327 | the verdict and the buffer are `ContentStep`'s, with the guarded sentinel |
| Connection.HttpConn.DispatchLine | http_conn/http_conn.cpp:342-389 | one pass of the loop body is `Dispatch` on the parser fields |
| Connection.HttpConn.Round | http_conn/http_conn.cpp:339-389 | one evaluation of the loop condition and the body is `ReadStep` |
| Connection.HttpConn.ProcessRead | http_conn/http_conn.cpp:330-394 | the parser ends as `ProcessReadF` says; with `GET_REQUEST`, do_request runs on the target at `m_url` and its code is returned; otherwise the file fields are untouched |
| Connection.HttpConn.DoRequest | http_conn/http_conn.cpp:398-432 | `m_real_file` holds the root and the truncated target; the code is `Classify` of that path; stat overwrote `m_file_stat` when the path exists; only a served file is mapped |
| Connection.HttpConn.BuildRealFile | http_conn/http_conn.cpp:400-411 | `m_real_file` becomes `RealFileBytes` of the target |
| Connection.HttpConn.StatFile | http_conn/http_conn.cpp:412-431 | the code is `Classify` of the path, and the stat record and the mapping are set as described |
| Connection.HttpConn.Unmap | http_conn/http_conn.cpp:435-441 | after unmap there is no mapping, so a second call changes nothing |
| Connection.HttpConn.AddResponse | http_conn/http_conn.cpp:503-519 | the write buffer and its mark change exactly as `Response.Add` says |
| Connection.HttpConn.AddStatusLine | http_conn/http_conn.cpp:521-524 | appends exactly `"HTTP/1.1 <status> <title>\r\n"` under add_response's rule |
| Connection.HttpConn.AddContentLength | http_conn/http_conn.cpp:533-536 | appends exactly `"Content-Length: <n>\r\n"` |
| Connection.HttpConn.AddLinger | http_conn/http_conn.cpp:538-541 | appends `"Connection: keep-alive\r\n"` or `"Connection: close\r\n"`, chosen by `m_linger` |
| Connection.HttpConn.AddBlankLine | http_conn/http_conn.cpp:543-546 | appends exactly `"\r\n"` |
| Connection.HttpConn.AddContent | http_conn/http_conn.cpp:548-551 | appends exactly the content |
| Connection.HttpConn.AddHeaders | http_conn/http_conn.cpp:526-531 | the three header lines in order, each under add_response's rule, their verdicts dropped |
| Connection.HttpConn.AddPage | http_conn/http_conn.cpp:558-597 | an error case stages exactly `PageResponse` |
| Connection.HttpConn.AddPageText | http_conn/http_conn.cpp:560-562 | the three calls of an error case write status line, headers and body one after the other, and nothing on the parser side changes |
| Connection.HttpConn.ProcessWrite | http_conn/http_conn.cpp:554-631 | the verdict, buffer and iovecs are `ProcessWriteF` of the code |
| Connection.HttpConn.AddFile | http_conn/http_conn.cpp:598-625 | the file case stages exactly `FileResponse`, the fall-through of an empty file included |
| Connection.HttpConn.AddFileText | http_conn/http_conn.cpp:600-620 | a non-empty file gets the status line and headers with its size cut to 32 bits; an empty one gets the headers for the placeholder and the placeholder body; the parser side is untouched |
| Connection.HttpConn.Process | http_conn/http_conn.cpp:634-650 | the parser ends as process_read leaves it; after `GET_REQUEST`, `m_real_file`, `m_file_stat` and the mapping are do_request's for the target, as `Resolved` says, and otherwise all three are unchanged; a file answer has its data mapped; `NO_REQUEST` only re-arms EPOLLIN; otherwise the answer is staged for the verdict, a failed staging closes the connection once, and EPOLLOUT is re-armed for whatever `m_sockfd` then holds |
| Connection.HttpConn.Answer | http_conn/http_conn.cpp:637-649 | the answering half of process, as `Answered` says: `NO_REQUEST` only re-arms EPOLLIN |
| Connection.HttpConn.Respond | http_conn/http_conn.cpp:642-649 | any other verdict is staged by process_write, and what follows is `Concluded` of that staging |
| Connection.HttpConn.WaitReadable | http_conn/http_conn.cpp:639 | one modfd(EPOLLIN) on the socket |
| Connection.HttpConn.Conclude | http_conn/http_conn.cpp:644-649 | the writing side becomes `Concluded` of the staging: close on a false verdict, then modfd(EPOLLOUT) on whatever `m_sockfd` holds; the parser is untouched |
| Connection.HttpConn.Read | http_conn/http_conn.cpp:160-196 | a full buffer is refused with false before any recv and nothing changes; otherwise the verdict, buffer and `m_read_idx` are `RecvLoop`'s, so `m_read_idx` never passes `READ_BUFFER_SIZE`; the invariant is kept |
| Connection.HttpConn.Store | http_conn/http_conn.cpp:170-193 | a recv's bytes land at `m_read_idx`, and the index moves past them |
| Connection.HttpConn.Write | http_conn/http_conn.cpp:445-498 | with nothing staged: init() and EPOLLIN, true; on EAGAIN: EPOLLOUT, mapping kept, true; on another error: unmap, false; when done: unmap, EPOLLIN, and `m_linger` decides between init() with true and false; every path without init() leaves the parser, the write buffer and `m_real_file` as they were |
| Connection.HttpConn.WaitWritable | http_conn/http_conn.cpp:469 | one modfd(EPOLLOUT) on the socket |
| Connection.HttpConn.Finished | http_conn/http_conn.cpp:483-495 | unmap, EPOLLIN, then init() with true when lingering, false otherwise, with the parser, the write buffer and `m_real_file` untouched |

## Left out

- `setnonblocking`, `addfd`, `removefd` and `modfd` at http_conn/http_conn.cpp:17-56 are thin wrappers over fcntl and epoll_ctl. Their effect is only recorded as entries in `epollLog`. The `close` of the socket in `removefd` is the `Del` entry.
- Connection.HttpConn.Accept: the getsockopt and setsockopt calls and `m_address` are left out. They only touch the kernel.
- Connection.HttpConn.DoRequest: `open` and `mmap` are taken to succeed, and the mapping is the file's data. Their failure paths, and `close(fd)`, are not modelled.
- Connection.HttpConn.Unmap: `munmap` itself is a system call and is left out. Only the clearing of `m_file_address` is modelled.
- Connection.HttpConn.Read: recv is an oracle sequence. Delivery is bounded by the room asked for, and an exhausted sequence acts as EAGAIN. A recv asked for zero bytes answers with the next result too: delivered bytes count as its 0, EAGAIN as EAGAIN; which one a real kernel gives is its choice. Byte-exact delivery over a real socket is not modelled.
- Connection.HttpConn.constructor: the fields of a slot made by `new http_conn[MAX_FD]` come from a constructor in http_conn.h, which is not part of this model; a fresh slot is assumed cleared, with no socket (`m_sockfd` -1) and no mapping.
- Connection.HttpConn.Write: writev is an oracle sequence of counts. What bytes go out is not modelled, so the iovec contents are not tied to the wire.
- Connection.HttpConn.ParseContent: the NUL after the body is written only when `m_content_length` is not negative and `text + m_content_length` lies inside the buffer. The code writes it unconditionally, so the model skips two writes the code makes: one past the end of `m_read_buf` (Findings row 1) and, for a negative Content-Length, one before the body, inside the buffer or before it (Findings row 2). A write of the second kind that lands inside the request line can cut `m_url` and change the file looked up, which the model then does not reproduce.
- Response.Vsnprintf: only the fixed formats of http_conn.cpp are modelled. `%d` renders an int in decimal and `%s` appends a string; general printf formatting is left out.
- CString.Atol: the result is not narrowed to the width of `long`.
- CString.CStr: a C string ends at the end of the buffer when there is no NUL, where C would read on. Lines handed to the parsers always end in the NULs parse_line wrote.
- The `printf` logging at http_conn/http_conn.cpp:256, 310 and 345 is left out; it only writes to stdout.
- main.cpp is left out: process setup, the listen socket, the `epoll_wait` dispatch loop and the thread pool. The closing of a connection after `read` or `write` returns false happens there, so it is not part of the model.
- Concurrency, and the one-shot epoll re-arming that keeps one thread per connection, are left out. The model is sequential.
- `http_conn.h` is not part of this model. Its constants are taken as 2048, 1024 and 200, and the enum values are those the .cpp uses. The `HEAD` method is kept, but nothing sets it.

## Findings

| source | as written | input that shows it | evidently intended | confidence | as-written member | corrected member |
|---|---|---|---|---|---|---|
| http_conn/http_conn.cpp:320-322 | the NUL after the body is written at `text[m_content_length]` with no bound check | a body that ends exactly at the end of the read buffer: `m_checked_idx` 2000, `m_read_idx` 2048, Content-Length 48; the NUL goes to index 2048, one past `m_read_buf`. read returns true with the buffer full when the zero-byte recv after the filling one answers EAGAIN (`Socket.RecvFillsThenWouldBlock`) | the sentinel stays inside the read buffer | not executed | RequestParser.ContentStepAsWrittenEscapes | RequestParser.ContentSentinelInBounds |
| http_conn/http_conn.cpp:299, 320-322 | atol accepts a negative Content-Length, and the request is then complete at once | `Content-Length: -3` with the body state at offset 100; the NUL goes to index 97, inside the header lines before the body | a negative length is rejected, or at least never writes before the body | not executed | RequestParser.ContentStepAsWrittenEscapes | RequestParser.ContentSentinelInBounds |
