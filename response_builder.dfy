/** The response builder (add_response, the add_* helpers and
    process_write) as functions over a value record of the write buffer:
    each append formats text at m_write_idx the way vsnprintf does and
    advances the index only when the text fitted. */
module ResponseBuilder {
  import opened HttpTypes
  import opened CStrings

  /** The write buffer and its count of pending bytes, m_write_idx. */
  datatype WriteBuf = WriteBuf(buf: seq<char>, idx: int)

  predicate WellSized(w: WriteBuf) {
    |w.buf| == WRITE_BUFFER_SIZE && 0 <= w.idx <= WRITE_BUFFER_SIZE
  }

  /** The bytes waiting to be sent. */
  function Pending(w: WriteBuf): seq<char>
    requires WellSized(w)
  {
    w.buf[..w.idx]
  }


  /** vsnprintf(buf + at, size, ...) producing `text`: nothing when size is
      0, otherwise as much of the text as fits before a terminating NUL. */
  function Snprintf(buf: seq<char>, at: nat, size: nat, text: seq<char>): (b: seq<char>)
    requires at + size <= |buf|
    ensures |b| == |buf| && b[..at] == buf[..at]
    ensures size > 0 && |text| < size ==> b[at..at + |text|] == text
  {
    if size == 0 then buf
    else
      var k := Min(|text|, size - 1);
      buf[..at] + text[..k] + [NUL] + buf[at + k + 1..]
  }

  /** add_response(text): refuse when the buffer is full; otherwise format
      into the room left less one byte, and keep the text only when all of
      it fitted. A refused text may still have been written, cut short,
      past the pending bytes. */
  function Append(w: WriteBuf, text: seq<char>): (r: (bool, WriteBuf))
    requires WellSized(w)
    ensures WellSized(r.1)
    ensures r.0 <==> w.idx < WRITE_BUFFER_SIZE && |text| < WRITE_BUFFER_SIZE - 1 - w.idx
    ensures r.0 ==> Pending(r.1) == Pending(w) + text && r.1.idx <= WRITE_BUFFER_SIZE - 2
    ensures !r.0 ==> r.1.idx == w.idx && Pending(r.1) == Pending(w)
  {
    if w.idx >= WRITE_BUFFER_SIZE then (false, w)
    else
      var size := WRITE_BUFFER_SIZE - 1 - w.idx;
      var buf := Snprintf(w.buf, w.idx, size, text);
      if |text| >= size then (false, w.(buf := buf))
      else
        assert buf[..w.idx + |text|] == buf[..w.idx] + buf[w.idx..w.idx + |text|];
        (true, WriteBuf(buf, w.idx + |text|))
  }

  // ---------------------------------------------------------------------
  // The formats

  /** "%s %d %s\r\n" with "HTTP/1.1", the status and the title. */
  function StatusLine(status: int, title: seq<char>): seq<char> {
    "HTTP/1.1" + " " + Decimal(status) + " " + title + "\r\n"
  }

  /** "Content-Length: %d\r\n". */
  function ContentLengthField(n: int): seq<char> {
    "Content-Length: " + Decimal(n) + "\r\n"
  }

  /** "Connection: %s\r\n" with keep-alive or close. */
  function ConnectionField(linger: bool): seq<char> {
    "Connection: " + (if linger then "keep-alive" else "close") + "\r\n"
  }

  const BLANK_LINE: seq<char> := "\r\n"

  const OK_200_TITLE: seq<char> := "OK"
  const ERROR_400_TITLE: seq<char> := "Bad Request"
  const ERROR_400_FORM: seq<char> := "Your request has bad syntax or is inherently impossible to satisfy.\n"
  const ERROR_403_TITLE: seq<char> := "Forbidden"
  const ERROR_403_FORM: seq<char> := "You do not have permission to get file from this server.\n"
  const ERROR_404_TITLE: seq<char> := "Not Found"
  const ERROR_404_FORM: seq<char> := "The requested file was not found on this server.\n"
  const ERROR_500_TITLE: seq<char> := "Internal Error"
  const ERROR_500_FORM: seq<char> := "There was an unusual problem serving the requested file.\n"
  /** The body process_write uses for an empty file. */
  const OK_STRING: seq<char> := "<html><body></body></html>"

  /** The canned page of an error outcome: status, title and body. */
  datatype ErrorPage = ErrorPage(status: int, title: seq<char>, form: seq<char>)

  predicate IsErrorCode(code: HttpCode) {
    code == InternalError || code == BadRequest || code == NoResource || code == ForbiddenRequest
  }

  function PageOf(code: HttpCode): (p: ErrorPage)
    requires IsErrorCode(code)
    ensures 400 <= p.status <= 500 && |p.title| <= 14 && |p.form| <= 70
  {
    match code
    case InternalError => ErrorPage(500, ERROR_500_TITLE, ERROR_500_FORM)
    case BadRequest => ErrorPage(400, ERROR_400_TITLE, ERROR_400_FORM)
    case NoResource => ErrorPage(404, ERROR_404_TITLE, ERROR_404_FORM)
    case ForbiddenRequest => ErrorPage(403, ERROR_403_TITLE, ERROR_403_FORM)
  }

  /** add_headers: the Content-Length, Connection and blank lines, each
      appended whatever became of the one before. */
  function AddHeaders(w: WriteBuf, n: int, linger: bool): (r: WriteBuf)
    requires WellSized(w)
    ensures WellSized(r) && w.idx <= r.idx
  {
    var w1 := Append(w, ContentLengthField(n)).1;
    var w2 := Append(w1, ConnectionField(linger)).1;
    Append(w2, BLANK_LINE).1
  }

  /** What process_write leaves: its answer, the write buffer, and the
      active iovec segments (m_iv[0..m_iv_count)). */
  datatype Built = Built(ok: bool, w: WriteBuf, iv: seq<IoVec>)

  /** process_write(code) for a connection whose mapped file has `size`
      bytes: an error page for the four error outcomes, the headers and the
      mapped file for FILE_REQUEST with a non-empty file, and failure for an
      empty file and for every other outcome. The segments change only on
      success. */
  function BuildResponse(code: HttpCode, linger: bool, size: nat, w: WriteBuf, iv: seq<IoVec>): (r: Built)
    requires WellSized(w)
    ensures WellSized(r.w)
    ensures !r.ok ==> r.iv == iv
  {
    if IsErrorCode(code) then BuildErrorPage(PageOf(code), linger, w, iv)
    else if code == FileRequest then
      var w1 := Append(w, StatusLine(200, OK_200_TITLE)).1;
      if size != 0 then
        var w2 := AddHeaders(w1, Int32(size), linger);
        Built(true, w2, [IoVec(WriteBuffer, w2.idx), IoVec(FileMapping, size)])
      else
        // the empty-file branch has no break and falls into default
        var w2 := AddHeaders(w1, |OK_STRING|, linger);
        Built(false, Append(w2, OK_STRING).1, iv)
    else Built(false, w, iv)
  }

  /** The error branch of process_write: status line and headers, each
      append's answer ignored, then the page, whose append alone decides. */
  function BuildErrorPage(page: ErrorPage, linger: bool, w: WriteBuf, iv: seq<IoVec>): (r: Built)
    requires WellSized(w)
    ensures WellSized(r.w)
    ensures !r.ok ==> r.iv == iv
  {
    var w1 := Append(w, StatusLine(page.status, page.title)).1;
    var w2 := AddHeaders(w1, |page.form|, linger);
    var (ok, w3) := Append(w2, page.form);
    if !ok then Built(false, w3, iv) else Built(true, w3, [IoVec(WriteBuffer, w3.idx)])
  }

  // ---------------------------------------------------------------------
  // What gets built

  /** Texts that fit one after the other are appended in order. */
  lemma AppendsInOrder(w: WriteBuf, a: seq<char>, b: seq<char>)
    requires WellSized(w) && w.idx + |a| + |b| <= WRITE_BUFFER_SIZE - 2
    ensures var w1 := Append(w, a);
            var w2 := Append(w1.1, b);
      && w1.0 && w2.0 && Pending(w2.1) == Pending(w) + a + b
  {
  }

  lemma FieldLengths(n: int, linger: bool)
    requires INT_MIN <= n <= INT_MAX
    ensures |ContentLengthField(n)| <= 29 && |ConnectionField(linger)| <= 24 && |BLANK_LINE| == 2
  {
    DecimalLength(n);
  }

  /** add_headers into a buffer with room for them appends the three
      lines. */
  lemma {:induction false} AddHeadersWrites(w: WriteBuf, n: int, linger: bool)
    requires WellSized(w) && INT_MIN <= n <= INT_MAX && w.idx + 60 <= WRITE_BUFFER_SIZE - 2
    ensures Pending(AddHeaders(w, n, linger))
         == Pending(w) + ContentLengthField(n) + ConnectionField(linger) + BLANK_LINE
  {
    FieldLengths(n, linger);
    AppendsInOrder(w, ContentLengthField(n), ConnectionField(linger));
  }

  /** Into an empty buffer, an error page is built as its status line,
      the headers with the length of the page, and the page, as one segment
      of exactly those bytes. */
  lemma {:induction false} ErrorPageFromEmpty(page: ErrorPage, linger: bool, w: WriteBuf, iv: seq<IoVec>)
    requires WellSized(w) && w.idx == 0
    requires 400 <= page.status <= 500 && |page.title| <= 14 && |page.form| <= 70
    ensures var text := StatusLine(page.status, page.title) + ContentLengthField(|page.form|)
                        + ConnectionField(linger) + BLANK_LINE + page.form;
            var r := BuildErrorPage(page, linger, w, iv);
      && r.ok && Pending(r.w) == text && r.iv == [IoVec(WriteBuffer, |text|)]
  {
    DecimalLength(page.status);
    var w1 := Append(w, StatusLine(page.status, page.title)).1;
    assert Pending(w1) == StatusLine(page.status, page.title);
    AddHeadersWrites(w1, |page.form|, linger);
    FieldLengths(|page.form|, linger);
  }

  /** Into an empty buffer, each error outcome builds its own page. */
  lemma ErrorResponseFromEmpty(code: HttpCode, linger: bool, size: nat, w: WriteBuf, iv: seq<IoVec>)
    requires WellSized(w) && w.idx == 0 && IsErrorCode(code)
    ensures var page := PageOf(code);
            var text := StatusLine(page.status, page.title) + ContentLengthField(|page.form|)
                        + ConnectionField(linger) + BLANK_LINE + page.form;
            var r := BuildResponse(code, linger, size, w, iv);
      && r.ok && Pending(r.w) == text && r.iv == [IoVec(WriteBuffer, |text|)]
  {
    ErrorPageFromEmpty(PageOf(code), linger, w, iv);
  }

  /** Into an empty buffer, a non-empty file builds the status line and
      the headers, with Content-Length the size cut to an `int`, as the
      first segment, and the whole mapped file as the second. */
  lemma {:induction false} FileResponseFromEmpty(linger: bool, size: nat, w: WriteBuf, iv: seq<IoVec>)
    requires WellSized(w) && w.idx == 0 && size != 0
    ensures var text := StatusLine(200, OK_200_TITLE) + ContentLengthField(Int32(size))
                        + ConnectionField(linger) + BLANK_LINE;
            var r := BuildResponse(FileRequest, linger, size, w, iv);
      && r.ok && Pending(r.w) == text
      && r.iv == [IoVec(WriteBuffer, |text|), IoVec(FileMapping, size)]
  {
    DecimalLength(200);
    var w1 := Append(w, StatusLine(200, OK_200_TITLE)).1;
    assert Pending(w1) == StatusLine(200, OK_200_TITLE);
    AddHeadersWrites(w1, Int32(size), linger);
  }

  /** process_write fails for an empty file, and for every outcome other
      than the four errors and FILE_REQUEST without touching the buffer;
      when it succeeds it leaves one segment or two. */
  lemma BuildResponseFails(code: HttpCode, linger: bool, size: nat, w: WriteBuf, iv: seq<IoVec>)
    requires WellSized(w)
    ensures var r := BuildResponse(code, linger, size, w, iv);
      && (code == FileRequest && size == 0 ==> !r.ok)
      && (!IsErrorCode(code) && code != FileRequest ==> !r.ok && r.w == w)
      && (r.ok ==> |r.iv| == 1 || |r.iv| == 2)
      && (r.ok ==> r.iv[0] == IoVec(WriteBuffer, r.w.idx))
  {
  }
}
