/** The request parser (process_read and the three per-state parsers it
    calls) as functions over a value record of the parsing state. The
    functions mirror the C code branch for branch; the lemmas state what the
    parser accepts and how its progress depends on the cursor. */
module RequestParser {
  import opened HttpTypes
  import opened CStrings
  import opened LineParser
  import opened RequestLine

  /** The request-parsing fields of a connection: the read buffer, its three
      cursors, the state machine, and what has been parsed so far. */
  datatype ReadState = ReadState(
    buf: seq<char>,
    readIdx: int,
    checkedIdx: int,
    startLine: int,
    checkState: CheckState,
    requestMethod: Method,
    url: Ptr,
    version: Ptr,
    host: Ptr,
    contentLength: int,
    linger: bool)

  predicate InBuffer(p: Ptr) { p.Null? || p.offset <= READ_BUFFER_SIZE }

  /** What holds between calls: the cursors are ordered inside the buffer,
      every CR and LF the tokenizer has passed has been overwritten, the
      pointers point into the buffer, and once past the request line the URL
      pointer is set. */
  ghost predicate Consistent(s: ReadState) {
    && |s.buf| == READ_BUFFER_SIZE
    && 0 <= s.startLine <= s.checkedIdx <= s.readIdx <= READ_BUFFER_SIZE
    && NoBreakBefore(s.buf, s.checkedIdx)
    && InBuffer(s.url) && InBuffer(s.version) && InBuffer(s.host)
    && (s.checkState != RequestLine ==> s.url.At?)
  }

  /** The state init() leaves behind, over a given buffer. */
  function Initial(buf: seq<char>): (s: ReadState)
    ensures s.buf == buf
  {
    ReadState(buf, 0, 0, 0, RequestLine, Get, Null, Null, Null, 0, false)
  }

  /** A state is fresh when it is the one init() leaves behind. */
  predicate Fresh(s: ReadState) {
    s == Initial(s.buf)
  }

  /** Bytes landing past m_read_idx, with the index moved on but not past
      the end, keep the state consistent: the cursors and pointers only
      concern bytes already received. */
  lemma ReceivedKeepsConsistent(s: ReadState, buf: seq<char>, idx: int)
    requires Consistent(s) && |buf| == READ_BUFFER_SIZE && s.readIdx <= idx <= READ_BUFFER_SIZE
    requires buf[..s.readIdx] == s.buf[..s.readIdx]
    ensures Consistent(s.(buf := buf, readIdx := idx))
  {
    forall k | 0 <= k < s.checkedIdx ensures !IsBreak(buf[k]) {
      assert buf[k] == buf[..s.readIdx][k];
    }
  }

  /** The URL and version strings the parse left pointers to. */
  function UrlText(s: ReadState): seq<char>
    requires |s.buf| == READ_BUFFER_SIZE && s.url.At? && InBuffer(s.url)
  {
    CString(s.buf, s.url.offset)
  }

  function VersionText(s: ReadState): seq<char>
    requires |s.buf| == READ_BUFFER_SIZE && s.version.At? && InBuffer(s.version)
  {
    CString(s.buf, s.version.offset)
  }

  /** read(): `data` lands at m_read_idx and the index moves past it. */
  function Receive(s: ReadState, data: seq<char>): (r: ReadState)
    requires Consistent(s) && s.readIdx + |data| <= READ_BUFFER_SIZE
    ensures Consistent(r)
    ensures r.readIdx == s.readIdx + |data|
    ensures r.buf[..s.readIdx] == s.buf[..s.readIdx]
    ensures r.buf[s.readIdx..r.readIdx] == data
    ensures r.buf[r.readIdx..] == s.buf[r.readIdx..]
    ensures r.(buf := s.buf, readIdx := s.readIdx) == s
  {
    var n := s.readIdx + |data|;
    var buf := Landed(s.buf, s.readIdx, data);
    assert NoBreakBefore(buf, s.checkedIdx) by {
      forall k | 0 <= k < s.checkedIdx ensures !IsBreak(buf[k]) {
        assert buf[k] == s.buf[k];
      }
    }
    s.(buf := buf, readIdx := n)
  }

  /** parse_line on the state: only the cursor and the two terminator bytes
      change. */
  function ParseLineStep(s: ReadState): (r: (LineStatus, ReadState))
    requires Consistent(s)
    ensures Consistent(r.1)
    ensures r.1 == s.(buf := r.1.buf, checkedIdx := r.1.checkedIdx)
    ensures s.checkedIdx <= r.1.checkedIdx <= s.readIdx
    ensures r.0 == LineOk ==> s.checkedIdx + 2 <= r.1.checkedIdx
    ensures r.0 != LineOk ==> r.1.buf == s.buf
  {
    ScanLineUnderInvariant(s.buf, s.checkedIdx, s.readIdx);
    var (status, cursor, buf) := LineStep(s.buf, s.checkedIdx, s.readIdx);
    (status, s.(buf := buf, checkedIdx := cursor))
  }

  /** parse_request_line(text) on the state: the buffer, m_url, m_version
      and m_method as the cut of the line leaves them, and the header state
      once the line is accepted. */
  function RequestLineStep(s: ReadState, text: nat): (r: (HttpCode, ReadState))
    requires Consistent(s) && s.checkState == RequestLine && text <= READ_BUFFER_SIZE
    ensures Consistent(r.1)
    ensures r.0 == NoRequest || r.0 == BadRequest
    ensures r.0 == NoRequest ==>
      r.1.checkState == Header && r.1.requestMethod == Get && r.1.url.At? && r.1.version.At?
    ensures r.0 == BadRequest ==> r.1.checkState == RequestLine
    ensures r.1 == s.(buf := r.1.buf, checkState := r.1.checkState, requestMethod := r.1.requestMethod,
                      url := r.1.url, version := r.1.version)
  {
    CutRequestLineWritesNuls(s.buf, text);
    var c := CutRequestLine(s.buf, text);
    (c.code, s.(buf := c.buf, url := c.url,
                version := if c.version.Some? then c.version.value else s.version,
                requestMethod := if c.isGet then Get else s.requestMethod,
                checkState := if c.code == NoRequest then Header else s.checkState))
  }

  /** The value of a header line: what follows the name and its colon, past
      any spaces and tabs. */
  function FieldValue(line: seq<char>, nameLength: nat): (v: seq<char>)
    requires nameLength <= |line|
    ensures |v| <= |line| - nameLength && v == line[|line| - |v|..]
    ensures v != [] ==> !IsBlank(v[0])
  {
    var rest := line[nameLength..];
    BlankSpanStops(rest);
    rest[BlankSpan(rest)..]
  }

  /** strspn over the buffer, from `k` bytes into the C string at `text`,
      lands where the header value starts, and the C string there is the
      value. */
  lemma FieldValueInBuffer(buf: seq<char>, text: nat, k: nat)
    requires text <= |buf| && k <= |CString(buf, text)|
    ensures var line := CString(buf, text);
            var v := BlankEnd(buf, text + k);
      && v == text + |line| - |FieldValue(line, k)|
      && CString(buf, v) == FieldValue(line, k)
  {
    var line := CString(buf, text);
    var rest := line[k..];
    var n := BlankSpan(rest);
    CStringSuffix(buf, text, k);
    assert CString(buf, text + k) == rest;
    SkipBlanksInString(buf, text + k);
    assert FieldValue(line, k) == rest[n..];
    CStringSuffix(buf, text, k + n);
    assert line[k + n..] == rest[n..];
  }

  /** parse_headers(text): an empty line ends the headers (moving to the
      body when a Content-Length other than zero was seen); Connection,
      Content-Length and Host are recorded; any other header is ignored. */
  function HeadersStep(s: ReadState, text: nat): (r: (HttpCode, ReadState))
    requires Consistent(s) && s.checkState == Header && text <= READ_BUFFER_SIZE
    ensures Consistent(r.1)
    ensures r.0 == NoRequest || r.0 == GetRequest
    ensures r.0 == GetRequest <==> CString(s.buf, text) == [] && s.contentLength == 0
    ensures r.1.checkState == Content <==> CString(s.buf, text) == [] && s.contentLength != 0
    ensures r.1.checkState != Content ==> r.1.checkState == Header
    ensures s.linger ==> r.1.linger
    ensures r.1 == s.(checkState := r.1.checkState, linger := r.1.linger,
                      contentLength := r.1.contentLength, host := r.1.host)
  {
    if CString(s.buf, text) == [] then
      if s.contentLength != 0 then (NoRequest, s.(checkState := Content)) else (GetRequest, s)
    else (NoRequest, FieldStep(s, CString(s.buf, text), text))
  }

  /** parse_headers on the header line `line` at `text`: Connection,
      Content-Length and Host are recorded; any other header is ignored. Only those three fields
      can change, a set m_linger stays set, and m_host points into the
      buffer. */
  function FieldStep(s: ReadState, line: seq<char>, text: nat): (r: ReadState)
    requires text + |line| <= |s.buf|
    ensures r == s.(linger := r.linger, contentLength := r.contentLength, host := r.host)
    ensures s.linger ==> r.linger
    ensures r.host == s.host || (r.host.At? && r.host.offset <= |s.buf|)
  {
    if HasPrefixIgnoreCase(line, "Connection:") then
      if EqualIgnoreCase(FieldValue(line, 11), "keep-alive") then s.(linger := true) else s
    else if HasPrefixIgnoreCase(line, "Content-Length:") then
      s.(contentLength := Int32(Strtol(FieldValue(line, 15))))
    else if HasPrefixIgnoreCase(line, "Host:") then
      s.(host := At(text + |line| - |FieldValue(line, 5)|))
    else s
  }

  /** parse_content's test: the body counts as received once m_read_idx
      reaches m_content_length bytes past m_checked_idx. */
  predicate BodyReceived(s: ReadState) {
    s.readIdx >= s.contentLength + s.checkedIdx
  }

  /** parse_content's `int` sum m_content_length + m_checked_idx leaves the
      range of `int`, which C leaves undefined. */
  predicate SumOverflows(s: ReadState) {
    !(INT_MIN <= s.contentLength + s.checkedIdx <= INT_MAX)
  }

  /** parse_content's behaviour is undefined: its test overflows, or it
      would write its NUL outside the read buffer. */
  predicate BodyOverrun(s: ReadState, text: int) {
    SumOverflows(s) || (BodyReceived(s) && !(0 <= text + s.contentLength < READ_BUFFER_SIZE))
  }

  /** parse_content(text): once the body counts as received, cut it at
      m_content_length bytes with a NUL. */
  function ContentStep(s: ReadState, text: nat): (r: (HttpCode, ReadState))
    requires Consistent(s) && s.checkState == Content && text <= READ_BUFFER_SIZE
    requires !BodyOverrun(s, text)
    ensures Consistent(r.1)
    ensures r.0 == GetRequest <==> BodyReceived(s)
    ensures r.0 != GetRequest ==> r.0 == NoRequest && r.1 == s
    ensures r.1 == s.(buf := r.1.buf)
    ensures r.0 == GetRequest ==> r.1.buf == s.buf[text + s.contentLength := NUL]
  {
    if BodyReceived(s) then (GetRequest, s.(buf := s.buf[text + s.contentLength := NUL]))
    else (NoRequest, s)
  }

  /** On completion the body line is cut to m_content_length bytes, or left
      whole when shorter. */
  lemma {:induction false} BodyCutToContentLength(s: ReadState, text: nat)
    requires Consistent(s) && s.checkState == Content && text <= READ_BUFFER_SIZE
    requires !BodyOverrun(s, text) && BodyReceived(s) && s.contentLength >= 0
    ensures var body := CString(s.buf, text);
      CString(ContentStep(s, text).1.buf, text) ==
        if s.contentLength < |body| then body[..s.contentLength] else body
  {
    var body := CString(s.buf, text);
    if s.contentLength < |body| {
      CStringCut(s.buf, text, s.contentLength);
    } else if s.contentLength > |body| {
      CStringWriteAfter(s.buf, text, text + s.contentLength, NUL);
    } else {
      CStringRun(s.buf, text);
      assert s.buf[text + s.contentLength := NUL] == s.buf;
    }
  }

  /** How a run of process_read ends. */
  datatype Parsed =
    | NeedMore    // NO_REQUEST: wait for more bytes
    | Malformed   // BAD_REQUEST from the request line
    | Complete    // GET_REQUEST: the request is handed to do_request
    | Overrun     // parse_content's sum overflows or its write leaves the buffer

  /** process_read's loop, from the line status `ls` it holds at the loop
      test: hand each complete line to the parser of the current state, with
      the body case entered without a new line while the status is LINE_OK. */
  function ReadLoop(s: ReadState, ls: LineStatus): (r: (Parsed, ReadState))
    requires Consistent(s)
    ensures Consistent(r.1)
    ensures r.1.readIdx == s.readIdx && s.checkedIdx <= r.1.checkedIdx
    ensures r.0 == Complete ==> r.1.checkState != RequestLine
    ensures r.0 == Malformed ==> r.1.checkState == RequestLine
    decreases s.readIdx - s.checkedIdx, if s.checkState == Content && ls == LineOk then 1 else 0, 1
  {
    if s.checkState == Content && ls == LineOk then BodyLine(s.(startLine := s.checkedIdx), s.startLine)
    else
      var (status, s1) := ParseLineStep(s);
      if status != LineOk then (NeedMore, s1)
      else Dispatch(s1.(startLine := s1.checkedIdx), s1.startLine)
  }

  /** One pass of the loop body once the line at `text` is in hand and
      m_start_line has moved past it: the switch on the state. */
  function Dispatch(s: ReadState, text: nat): (r: (Parsed, ReadState))
    requires Consistent(s) && text <= READ_BUFFER_SIZE
    ensures Consistent(r.1)
    ensures r.1.readIdx == s.readIdx && s.checkedIdx <= r.1.checkedIdx
    ensures r.0 == Complete ==> r.1.checkState != RequestLine
    ensures r.0 == Malformed ==> r.1.checkState == RequestLine
    decreases s.readIdx - s.checkedIdx, 2, 0
  {
    match s.checkState
    case RequestLine =>
      var (code, s1) := RequestLineStep(s, text);
      if code == BadRequest then (Malformed, s1) else ReadLoop(s1, LineOk)
    case Header =>
      // parse_headers never answers BAD_REQUEST, so process_read's test
      // for it has no counterpart here
      var (code, s1) := HeadersStep(s, text);
      if code == GetRequest then (Complete, s1) else ReadLoop(s1, LineOk)
    case Content => BodyLine(s, text)
  }

  /** The body case of the switch: parse_content, and LINE_OPEN after it
      when the body is not complete. */
  function BodyLine(s: ReadState, text: nat): (r: (Parsed, ReadState))
    requires Consistent(s) && s.checkState == Content && text <= READ_BUFFER_SIZE
    ensures Consistent(r.1)
    ensures r.1.readIdx == s.readIdx && s.checkedIdx <= r.1.checkedIdx
    ensures r.0 == Complete ==> r.1.checkState != RequestLine
    ensures r.0 == Malformed ==> r.1.checkState == RequestLine
    decreases s.readIdx - s.checkedIdx, 0, 2
  {
    if BodyOverrun(s, text) then (Overrun, s)
    else
      var (code, s1) := ContentStep(s, text);
      if code == GetRequest then (Complete, s1) else ReadLoop(s1, LineOpen)
  }

  /** On the state: parse_request_line accepts a line exactly when it is
      well formed, and then the URL and version pointers read back the URL
      and version of the line. */
  lemma {:induction false} RequestLineStepAccepted(s: ReadState, text: nat)
    requires Consistent(s) && s.checkState == RequestLine && text <= READ_BUFFER_SIZE
    ensures var r := RequestLineStep(s, text);
            var line := CString(s.buf, text);
      && (r.0 == NoRequest <==> WellFormedRequestLine(line))
      && (r.0 == NoRequest ==>
            exists m, b1, b2 :: IsSplit(line, m, b1, UrlText(r.1), b2, VersionText(r.1)))
  {
    RequestLineStepTokens(s, text);
    TokensAcceptable(CString(s.buf, text));
  }

  /** On the state: parse_request_line accepts as the tokens of the line
      say, and the URL and version pointers read back those tokens. */
  lemma {:induction false} RequestLineStepTokens(s: ReadState, text: nat)
    requires Consistent(s) && s.checkState == RequestLine && text <= READ_BUFFER_SIZE
    ensures var r := RequestLineStep(s, text);
            var t := Tokenize(CString(s.buf, text));
      && (r.0 == NoRequest <==> t.Some? && Acceptable(t.value))
      && (r.0 == NoRequest ==> UrlText(r.1) == t.value.url && VersionText(r.1) == t.value.version)
  {
    CutRequestLineTokens(s.buf, text);
  }

  // ---------------------------------------------------------------------
  // Headers

  /** A Content-Length header written with %d is read back as that number,
      for every value an `int` holds. */
  lemma {:induction false} ContentLengthHeaderRoundTrip(s: ReadState, text: nat, n: int)
    requires Consistent(s) && s.checkState == Header && text <= READ_BUFFER_SIZE
    requires INT_MIN <= n <= INT_MAX
    requires CString(s.buf, text) == "Content-Length: " + Decimal(n)
    ensures HeadersStep(s, text) == (NoRequest, s.(contentLength := n))
  {
    ContentLengthLine(n);
    HeadersStepContentLength(s, text);
    AtolOfDecimal(n);
  }

  /** parse_headers on a Content-Length line records atol of its value. */
  lemma HeadersStepContentLength(s: ReadState, text: nat)
    requires Consistent(s) && s.checkState == Header && text <= READ_BUFFER_SIZE
    requires var line := CString(s.buf, text);
      line != [] && !HasPrefixIgnoreCase(line, "Connection:") && HasPrefixIgnoreCase(line, "Content-Length:")
    ensures HeadersStep(s, text) ==
      (NoRequest, s.(contentLength := Int32(Strtol(FieldValue(CString(s.buf, text), 15)))))
  {
  }

  /** The header line "Content-Length: " + %d is a Content-Length line and
      not a Connection line. */
  lemma {:induction false} ContentLengthLine(n: int)
    ensures var line := "Content-Length: " + Decimal(n);
      && !HasPrefixIgnoreCase(line, "Connection:") && HasPrefixIgnoreCase(line, "Content-Length:")
      && FieldValue(line, 15) == Decimal(n)
  {
    var line := "Content-Length: " + Decimal(n);
    assert line[..11][3] == 't';
    assert Lower(line[3]) != Lower("Connection:"[3]);
    assert line[..15] == "Content-Length:";
    DecimalValue(n);
  }

  /** The value of the header "Content-Length: " + %d is the %d text. */
  lemma {:induction false} DecimalValue(n: int)
    ensures FieldValue("Content-Length: " + Decimal(n), 15) == Decimal(n)
  {
    var rest := ("Content-Length: " + Decimal(n))[15..];
    assert rest == " " + Decimal(n);
    assert Decimal(n)[0] == '-' || IsDigit(Decimal(n)[0]);
    BlankSpanAt(rest, 1);
  }

  // ---------------------------------------------------------------------
  // The loop

  /** A line ended by a lone LF is never delivered: the tokenizer answers
      LINE_BAD at the LF, which process_read reports as NO_REQUEST, leaving
      the cursor on the LF, so every later call stops there again. */
  lemma {:induction false} BareLineFeedStalls(s: ReadState, ls: LineStatus, p: nat)
    requires Consistent(s) && s.checkState != Content
    requires s.checkedIdx <= p < s.readIdx && s.buf[p] == '\n'
    requires forall k :: s.checkedIdx <= k < p ==> !IsBreak(s.buf[k])
    ensures ReadLoop(s, ls) == (NeedMore, s.(checkedIdx := p))
  {
    ScanLineSkips(s.buf, s.checkedIdx, p, s.readIdx);
    assert p > 1 ==> s.buf[p - 1] != '\r' by {
      if p > 1 && p - 1 < s.checkedIdx {
        assert !IsBreak(s.buf[p - 1]);
      }
    }
  }

  /** process_read measures the body from the cursor: while fewer than
      m_content_length bytes lie beyond m_checked_idx, no run of the loop
      completes the request, whatever the bytes are. The sum stays inside
      `int` for every cursor up to m_read_idx. */
  lemma {:induction false} BodyMeasuredFromCursor(s: ReadState, ls: LineStatus)
    requires Consistent(s) && s.checkState == Content
    requires s.readIdx < s.contentLength + s.checkedIdx && s.contentLength + s.readIdx <= INT_MAX
    ensures ReadLoop(s, ls).0 == NeedMore
    decreases s.readIdx - s.checkedIdx, if ls == LineOk then 1 else 0
  {
    if ls == LineOk {
      var s1 := s.(startLine := s.checkedIdx);
      var (_, s2) := ContentStep(s1, s.startLine);
      BodyMeasuredFromCursor(s2, LineOpen);
      assert ReadLoop(s, ls) == BodyLine(s1, s.startLine);
    } else {
      var (status, s1) := ParseLineStep(s);
      if status == LineOk {
        var text := s1.startLine;
        var s2 := s1.(startLine := s1.checkedIdx);
        var (_, s3) := ContentStep(s2, text);
        BodyMeasuredFromCursor(s3, LineOpen);
        assert ReadLoop(s, ls) == Dispatch(s2, text) == BodyLine(s2, text);
      }
    }
  }

  /** A body split across two reads is never completed. When the first
      bytes of the body arrive without a CR LF among them, the tokenizer
      pushes m_checked_idx past them; the bytes of a second read are then
      measured from there, so unless the second read alone carries
      m_content_length bytes the request stays incomplete, although the
      buffer may by then hold the whole body. */
  lemma {:induction false} BodySplitAcrossReadsStalls(s: ReadState, more: seq<char>)
    requires Consistent(s) && s.checkState == Content
    requires s.checkedIdx < s.readIdx < s.contentLength + s.checkedIdx
    requires forall k :: s.checkedIdx <= k < s.readIdx ==> !IsBreak(s.buf[k])
    requires s.readIdx + |more| <= READ_BUFFER_SIZE && |more| < s.contentLength
    requires s.contentLength + s.readIdx + |more| <= INT_MAX
    ensures var (first, s1) := ReadLoop(s, LineOk);
      && first == NeedMore && s1.checkedIdx == s.readIdx
      && ReadLoop(Receive(s1, more), LineOk).0 == NeedMore
  {
    var s1 := s.(startLine := s.checkedIdx);
    ScanLineSkips(s.buf, s.checkedIdx, s.readIdx, s.readIdx);
    assert ReadLoop(s1, LineOpen) == (NeedMore, s1.(checkedIdx := s.readIdx));
    assert ReadLoop(s, LineOk) == BodyLine(s1, s.startLine);
    var t := ReadLoop(s, LineOk).1;
    BodyMeasuredFromCursor(Receive(t, more), LineOk);
  }

  /** The bytes of a well-formed request line whose URL holds no CR, LF
      or NUL are none of them a CR, an LF or a NUL. */
  lemma {:induction false} SplitPlain(m: seq<char>, b1: seq<char>, u: seq<char>, b2: seq<char>, v: seq<char>)
    requires IsSplit(m + b1 + u + b2 + v, m, b1, u, b2, v)
    requires NUL !in u && '\r' !in u && '\n' !in u
    ensures var line := m + b1 + u + b2 + v;
      forall k :: 0 <= k < |line| ==> !IsBreak(line[k]) && line[k] != NUL
  {
    var line := m + b1 + u + b2 + v;
    forall k | 0 <= k < |line| ensures !IsBreak(line[k]) && line[k] != NUL {
      if k < |m| {
        assert line[k] == m[k] && Lower(m[k]) == Lower("GET"[k]);
      } else if k < |m| + |b1| {
        assert line[k] == b1[k - |m|] && IsBlank(b1[k - |m|]);
      } else if k < |m| + |b1| + |u| {
        assert line[k] == u[k - |m| - |b1|];
      } else if k < |m| + |b1| + |u| + |b2| {
        assert line[k] == b2[k - |m| - |b1| - |u|] && IsBlank(b2[k - |m| - |b1| - |u|]);
      } else {
        var z := k - |m| - |b1| - |u| - |b2|;
        assert line[k] == v[z] && Lower(v[z]) == Lower("HTTP/1.1"[z]);
      }
    }
  }

  /** parse_line from the start of a buffer that holds a line free of CR,
      LF and NUL and then CR LF delivers that line. */
  lemma {:induction false} LineAtStart(buf: seq<char>, line: seq<char>, r: nat)
    requires |line| + 2 <= r <= |buf| && buf[..|line|] == line
    requires forall k :: 0 <= k < |line| ==> !IsBreak(line[k]) && line[k] != NUL
    requires buf[|line|] == '\r' && buf[|line| + 1] == '\n'
    ensures var n := |line|;
      && LineStep(buf, 0, r) == (LineOk, n + 2, buf[n := NUL][n + 1 := NUL])
      && CString(buf[n := NUL][n + 1 := NUL], 0) == line
  {
    var n := |line|;
    forall k | 0 <= k < n ensures !IsBreak(buf[k]) {
      assert buf[k] == buf[..n][k];
    }
    ScanLineSkips(buf, 0, n, r);
    var b := buf[n := NUL][n + 1 := NUL];
    assert b[..n] == line;
    CStringUnique(b, 0, line);
  }

  /** A line free of CR, LF and NUL followed by two CR LF pairs, received
      into a fresh buffer, is delivered by parse_line as the first line,
      with the cursor on the second CR LF. */
  lemma {:induction false} FirstLineDelivered(s: ReadState, line: seq<char>)
    requires Consistent(s) && Fresh(s) && |line| + 4 <= READ_BUFFER_SIZE
    requires forall k :: 0 <= k < |line| ==> !IsBreak(line[k]) && line[k] != NUL
    ensures var s0 := Receive(s, line + "\r\n\r\n");
            var n := |line|;
            var r := ParseLineStep(s0);
      && r.0 == LineOk && r.1 == s0.(buf := r.1.buf, checkedIdx := n + 2)
      && CString(r.1.buf, 0) == line
      && r.1.buf[n + 2] == '\r' && r.1.buf[n + 3] == '\n' && s0.readIdx == n + 4
  {
    var data := line + "\r\n\r\n";
    var s0 := Receive(s, data);
    var n := |line|;
    assert s0.buf[..|data|] == data;
    assert s0.buf[..n] == line && s0.buf[n] == '\r' && s0.buf[n + 1] == '\n' by {
      assert s0.buf[..n] == s0.buf[..|data|][..n];
      assert s0.buf[..|data|][n] == '\r' && s0.buf[..|data|][n + 1] == '\n';
    }
    assert s0.buf[n + 2] == '\r' && s0.buf[n + 3] == '\n' by {
      assert s0.buf[..|data|][n + 2] == '\r' && s0.buf[..|data|][n + 3] == '\n';
    }
    LineAtStart(s0.buf, line, s0.readIdx);
  }

  /** A well-formed GET line at the start of the buffer is accepted, with
      the URL and version pointers reading back its URL and version, the
      version ending where the line does, and only the line's bytes
      change. */
  lemma {:induction false} GetLineAccepted(s: ReadState, m: seq<char>, b1: seq<char>, u: seq<char>,
                        b2: seq<char>, v: seq<char>)
    requires Consistent(s) && s.checkState == RequestLine
    requires IsSplit(m + b1 + u + b2 + v, m, b1, u, b2, v)
    requires CString(s.buf, 0) == m + b1 + u + b2 + v
    ensures var r := RequestLineStep(s, 0);
            var n := |m + b1 + u + b2 + v|;
      && r.0 == NoRequest && r.1.checkState == Header && UrlText(r.1) == u
      && r.1.url.offset + |u| < n
      && VersionText(r.1) == v && r.1.version.offset + |v| == n
      && (forall k :: n <= k < READ_BUFFER_SIZE ==> r.1.buf[k] == s.buf[k])
  {
    SplitTokens(m + b1 + u + b2 + v, m, b1, u, b2, v);
    CutRequestLineTokens(s.buf, 0);
    CutRequestLineKeepsRest(s.buf, 0);
  }

  /** An empty header line completes a request without a body, and the URL
      before the line reads back the same. */
  lemma {:induction false} EmptyLineCompletes(s: ReadState, p: nat)
    requires Consistent(s) && s.checkState == Header && s.contentLength == 0
    requires s.startLine == s.checkedIdx == p && s.readIdx == p + 2
    requires s.buf[p] == '\r' && s.buf[p + 1] == '\n'
    requires s.url.At? && s.url.offset + |UrlText(s)| < p
    ensures var r := ReadLoop(s, LineOk);
      r.0 == Complete && UrlText(r.1) == UrlText(s)
  {
    var (st, s1) := ParseLineStep(s);
    assert st == LineOk && s1.checkedIdx == p + 2;
    assert s1.buf == s.buf[p := NUL][p + 1 := NUL];
    var s2 := s1.(startLine := s1.checkedIdx);
    assert HeadersStep(s2, p).0 == GetRequest;
    CStringWriteAfter(s.buf, s.url.offset, p, NUL);
    CStringWriteAfter(s.buf[p := NUL], s.url.offset, p + 1, NUL);
  }

  /** process_read goes on to the next line once the request line is
      accepted. */
  lemma LoopPastRequestLine(s: ReadState)
    requires Consistent(s) && s.checkState == RequestLine && ParseLineStep(s).0 == LineOk
    ensures var s1 := ParseLineStep(s).1;
            var s2 := s1.(startLine := s1.checkedIdx);
            var r := RequestLineStep(s2, s1.startLine);
      r.0 == NoRequest ==> ReadLoop(s, LineOk) == ReadLoop(r.1, LineOk)
  {
  }

  /** A well-formed GET request line followed by an empty line, received
      into a fresh buffer, completes the request in one run of the loop,
      with the URL pointer reading back the URL of the line. */
  lemma {:induction false} SimpleGetCompletes(s: ReadState, m: seq<char>, b1: seq<char>, u: seq<char>,
                           b2: seq<char>, v: seq<char>)
    requires Consistent(s) && Fresh(s)
    requires IsSplit(m + b1 + u + b2 + v, m, b1, u, b2, v)
    requires NUL !in u && '\r' !in u && '\n' !in u
    requires |m + b1 + u + b2 + v| + 4 <= READ_BUFFER_SIZE
    ensures var r := ReadLoop(Receive(s, m + b1 + u + b2 + v + "\r\n\r\n"), LineOk);
      r.0 == Complete && UrlText(r.1) == u
  {
    var line := m + b1 + u + b2 + v;
    var n := |line|;
    var s0 := Receive(s, line + "\r\n\r\n");
    SplitPlain(m, b1, u, b2, v);
    FirstLineDelivered(s, line);
    var (_, s1) := ParseLineStep(s0);
    var s2 := s1.(startLine := s1.checkedIdx);
    GetLineAccepted(s2, m, b1, u, b2, v);
    LoopPastRequestLine(s0);
    EmptyLineCompletes(RequestLineStep(s2, 0).1, n + 2);
  }
}
