/** The vocabulary shared by every part of the connection engine: the enumerations
    of http_conn, the buffer sizes, the document root and the fixed response texts. */
module Http {

  /** Sizes of m_read_buf, m_write_buf and m_real_file. */
  const READ_BUFFER_SIZE: nat := 2048
  const WRITE_BUFFER_SIZE: nat := 1024
  const FILENAME_LEN: nat := 200

  const DOC_ROOT: seq<char> := "/home/laputa/WEB/2_BookWeb/web_2.0/resources"

  /** Verdict of the line scanner. */
  datatype LineStatus = LineOk | LineBad | LineOpen

  /** State of the request parser; it only moves forward. */
  datatype CheckState = RequestLineState | HeaderState | ContentState

  function Rank(s: CheckState): nat {
    match s
    case RequestLineState => 0
    case HeaderState => 1
    case ContentState => 2
  }

  datatype Method = Get | Head

  /** The outcomes of parsing and resolving a request. */
  datatype HttpCode =
    | NoRequest | GetRequest | BadRequest | NoResource
    | ForbiddenRequest | FileRequest | InternalError

  const OK_200_TITLE: seq<char> := "OK"
  const ERROR_400_TITLE: seq<char> := "Bad Request"
  const ERROR_400_FORM: seq<char> := "Your request has bad syntax or is inherently impossible to satisfy.\n"
  const ERROR_403_TITLE: seq<char> := "Forbidden"
  const ERROR_403_FORM: seq<char> := "You do not have permission to get file from this server.\n"
  const ERROR_404_TITLE: seq<char> := "Not Found"
  const ERROR_404_FORM: seq<char> := "The requested file was not found on this server.\n"
  const ERROR_500_TITLE: seq<char> := "Internal Error"
  const ERROR_500_FORM: seq<char> := "There was an unusual problem serving the requested file.\n"
  /** The body process_write stages for an empty file. */
  const EMPTY_FILE_BODY: seq<char> := "<html><body></body></html>"

  /** What stat reports about a path: the S_IROTH bit, S_ISDIR and the contents
      (st_size is their length); mmap yields the contents. */
  datatype FileStat = FileStat(otherReadable: bool, isDirectory: bool, data: seq<char>)

  /** The file system the resolver consults: a path stats successfully iff it is a key. */
  type FileSystem = map<seq<char>, FileStat>

  /** The two places an iovec of the response can point at. */
  datatype Region = WriteBuffer | FileMapping
  datatype IoVec = IoVec(base: Region, len: int)

  /** The epoll_ctl calls made for this connection (addfd, modfd, removefd). */
  datatype Interest = In | Out
  datatype EpollCall = Add(fd: int) | Mod(fd: int, ev: Interest) | Del(fd: int)
}
