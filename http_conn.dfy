/** One HTTP connection (class http_conn): the read buffer and its cursors,
    the request state machine, the resolved path, the write buffer and the
    iovec segments, updated in place by the methods the event loop and the
    worker threads call. Every method is proved against the functions of
    the other modules: the request parser, the resolver, the response
    builder and the two I/O loops. */
module HttpConnection {
  import opened HttpTypes
  import opened CStrings
  import opened LineParser
  import opened RequestParser
  import opened Resolver
  import opened ResponseBuilder
  import opened Transport

  /** http_conn::m_user_count, the count of open connections shared by
      every connection object. */
  class UserCount {
    var count: int

    constructor ()
      ensures count == 0
    {
      count := 0;
    }
  }

  predicate AllNul(s: seq<char>) {
    forall k :: 0 <= k < |s| ==> s[k] == NUL
  }

  /** memset(a, '\0', n) over the whole array. */
  method Clear(a: array<char>)
    modifies a
    ensures AllNul(a[..])
  {
    forall k | 0 <= k < a.Length {
      a[k] := NUL;
    }
  }

  /** What process_read's answer becomes once do_request has run. */
  function ReadAnswer(p: Parsed, st: StatInfo): (code: HttpCode)
    requires p != Overrun
    ensures code == NoRequest <==> p == NeedMore
  {
    match p
    case NeedMore => NoRequest
    case Malformed => BadRequest
    case Complete => Classify(st)
  }

  /** The fields of a connection that process() changes outside the parse
      and the response: the socket, the two events, the user count, the
      mapping and the descriptors handed to close(). */
  datatype Around = Around(sockfd: int, readEv: EventReg, writeEv: EventReg, users: int,
                           mapped: bool, closedFds: seq<int>)

  /** What close_conn() does to them: an open socket is marked closed,
      uncounted, its events freed and descriptor -1 closed; a closed one
      stays as it is. */
  function AfterClose(o: Around): Around {
    if o.sockfd != -1 then Around(-1, Freed, Freed, o.users - 1, o.mapped, o.closedFds + [-1])
    else o
  }

  /** event_del(read_ev) and event_add(write_ev). */
  function AfterArm(o: Around): Around {
    o.(readEv := Deleted(o.readEv), writeEv := Added(o.writeEv))
  }

  class Conn {
    /** m_sockfd, -1 once closed. */
    var sockfd: int
    /** read_ev and write_ev. */
    var readEv: EventReg
    var writeEv: EventReg

    const readBuf: array<char>
    var readIdx: int
    var checkedIdx: int
    var startLine: int
    const writeBuf: array<char>
    var writeIdx: int

    var checkState: CheckState
    var requestMethod: Method

    const realFile: array<char>
    var url: Ptr
    var version: Ptr
    var host: Ptr
    var contentLength: int
    var linger: bool

    /** Whether m_file_address holds a mapping, and m_file_stat. */
    var mapped: bool
    var fileStat: StatInfo
    /** m_iv and m_iv_count. */
    const ivs: array<IoVec>
    var ivCount: int

    const users: UserCount
    /** The descriptors handed to close(), in order. */
    ghost var closedFds: seq<int>

    /** The buffers' sizes, fixed at construction. */
    ghost predicate Shape() {
      (readBuf.Length, writeBuf.Length, realFile.Length, ivs.Length) ==
        (READ_BUFFER_SIZE, WRITE_BUFFER_SIZE, FILENAME_LEN, 2)
    }

    ghost predicate Valid()
      reads this`readIdx, this`checkedIdx, this`startLine, this`checkState, this`requestMethod,
               this`url, this`version, this`host, this`contentLength, this`linger, readBuf,
               realFile, this`writeIdx, this`ivCount
    {
      && ReadSideValid()
      && 0 <= writeIdx <= WRITE_BUFFER_SIZE
      && 0 <= ivCount <= 2
    }

    /** The part of Valid() the request side keeps: a consistent parse
        state and a terminated path buffer. */
    ghost predicate ReadSideValid()
      reads this`readIdx, this`checkedIdx, this`startLine, this`checkState, this`requestMethod,
               this`url, this`version, this`host, this`contentLength, this`linger, readBuf,
               realFile
    {
      && Shape()
      && Consistent(ReadView())
      && realFile[FILENAME_LEN - 1] == NUL
    }

    /** The request-parsing fields as a value. */
    function ReadView(): ReadState
      reads this`readIdx, this`checkedIdx, this`startLine, this`checkState, this`requestMethod,
               this`url, this`version, this`host, this`contentLength, this`linger, readBuf
    {
      ReadState(readBuf[..], readIdx, checkedIdx, startLine, checkState, requestMethod,
                url, version, host, contentLength, linger)
    }

    /** The write buffer and m_write_idx as a value. */
    function WriteView(): WriteBuf
      reads this`writeIdx, writeBuf
    {
      WriteBuf(writeBuf[..], writeIdx)
    }

    /** The active segments m_iv[0..m_iv_count). */
    function IvView(): seq<IoVec>
      reads this`ivCount, ivs
      requires 0 <= ivCount <= ivs.Length
    {
      ivs[..ivCount]
    }

    /** The fields process() changes outside the parse and the response. */
    ghost function AroundView(): Around
      reads this`sockfd, this`readEv, this`writeEv, users, this`mapped, this`closedFds
    {
      Around(sockfd, readEv, writeEv, users.count, mapped, closedFds)
    }

    /** m_file_stat.st_size. */
    function FileSize(): nat
      reads this`fileStat
    {
      if fileStat.Found? then fileStat.size else 0
    }

    /** The empty constructor of http_conn leaves every field unset; the
        model starts from a closed connection in the state init() leaves. */
    constructor (users: UserCount)
      ensures Valid() && fresh(readBuf) && fresh(writeBuf) && fresh(realFile) && fresh(ivs)
      ensures this.users == users && sockfd == -1 && readEv == Freed && writeEv == Freed
      ensures Fresh(ReadView()) && writeIdx == 0 && !mapped && ivCount == 0
    {
      this.users := users;
      sockfd := -1;
      readEv, writeEv := Freed, Freed;
      readBuf := new char[READ_BUFFER_SIZE](_ => NUL);
      writeBuf := new char[WRITE_BUFFER_SIZE](_ => NUL);
      realFile := new char[FILENAME_LEN](_ => NUL);
      ivs := new IoVec[2](_ => IoVec(WriteBuffer, 0));
      readIdx, checkedIdx, startLine, writeIdx := 0, 0, 0, 0;
      checkState, requestMethod := RequestLine, Get;
      url, version, host := Null, Null, Null;
      contentLength, linger := 0, false;
      mapped, fileStat, ivCount := false, Missing, 0;
      closedFds := [];
    }

    /** init(): every cursor to zero, the state machine back to the request
        line, and the three buffers cleared. The mapping, the descriptor,
        the events and the segments are left as they are. */
    method Init()
      requires Valid()
      modifies this, readBuf, writeBuf, realFile
      ensures Valid()
      ensures Fresh(ReadView()) && AllNul(readBuf[..]) && writeIdx == 0
      ensures AllNul(writeBuf[..]) && AllNul(realFile[..])
      ensures sockfd == old(sockfd) && readEv == old(readEv) && writeEv == old(writeEv)
      ensures mapped == old(mapped) && fileStat == old(fileStat) && ivCount == old(ivCount)
      ensures closedFds == old(closedFds)
    {
      ResetRequest();
      ResetCursors();
      ClearBuffers();
    }

    /** The three memset calls of init(). */
    method ClearBuffers()
      requires Shape()
      modifies readBuf, writeBuf, realFile
      ensures AllNul(readBuf[..]) && AllNul(writeBuf[..]) && AllNul(realFile[..])
      ensures realFile[FILENAME_LEN - 1] == NUL
    {
      Clear(readBuf);
      Clear(writeBuf);
      Clear(realFile);
    }

    /** The cursors init() rewinds. */
    method ResetCursors()
      modifies this`startLine, this`checkedIdx, this`readIdx, this`writeIdx
      ensures startLine == 0 && checkedIdx == 0 && readIdx == 0 && writeIdx == 0
    {
      startLine := 0;
      checkedIdx := 0;
      readIdx := 0;
      writeIdx := 0;
    }

    /** The request fields init() forgets. */
    method ResetRequest()
      modifies this`checkState, this`linger, this`requestMethod, this`url, this`version,
               this`contentLength, this`host
      ensures checkState == RequestLine && !linger && requestMethod == Get
      ensures url == Null && version == Null && contentLength == 0 && host == Null
    {
      checkState := RequestLine;
      linger := false;
      requestMethod := Get;
      url := Null;
      version := Null;
      contentLength := 0;
      host := Null;
    }

    /** init(sockfd, addr, rev, wev): take the socket and the two events
        (freeing any held before), arm the read event, count the connection
        and reset the parsing state. */
    method InitSocket(fd: int, rev: EventReg, wev: EventReg)
      requires Valid()
      modifies this, readBuf, writeBuf, realFile, users
      ensures Valid()
      ensures sockfd == fd && readEv == Added(rev) && writeEv == wev
      ensures users.count == old(users.count) + 1
      ensures Fresh(ReadView()) && AllNul(readBuf[..]) && writeIdx == 0
      ensures AllNul(writeBuf[..]) && AllNul(realFile[..])
      ensures mapped == old(mapped) && fileStat == old(fileStat) && ivCount == old(ivCount)
      ensures closedFds == old(closedFds)
    {
      sockfd := fd;
      TakeEvents(rev, wev);
      users.count := users.count + 1;
      Init();
    }

    /** event_free on each event held, then the new pair, the read one
        added to the loop. */
    method TakeEvents(rev: EventReg, wev: EventReg)
      modifies this`readEv, this`writeEv
      ensures readEv == Added(rev) && writeEv == wev
    {
      FreeEvents();
      readEv := rev;
      writeEv := wev;
      readEv := Added(readEv);
    }

    /** event_free on each event held. */
    method FreeEvents()
      modifies this`readEv, this`writeEv
      ensures readEv == Freed && writeEv == Freed
    {
      if readEv != Freed {
        readEv := Freed;
      }
      if writeEv != Freed {
        writeEv := Freed;
      }
    }

    /** close_conn(): for an open socket, mark it closed, uncount it, free
        both events and close the descriptor, which by then reads -1; then
        reset the parsing state, open or not. */
    method CloseConn()
      requires Valid()
      modifies this, readBuf, writeBuf, realFile, users
      ensures Valid()
      ensures sockfd == -1 && Fresh(ReadView()) && writeIdx == 0
      ensures AllNul(readBuf[..]) && AllNul(writeBuf[..]) && AllNul(realFile[..])
      ensures mapped == old(mapped) && fileStat == old(fileStat) && ivCount == old(ivCount)
      ensures old(sockfd) != -1 ==>
        && users.count == old(users.count) - 1
        && readEv == Freed && writeEv == Freed
        && closedFds == old(closedFds) + [-1]
      ensures old(sockfd) == -1 ==>
        && users.count == old(users.count)
        && readEv == old(readEv) && writeEv == old(writeEv)
        && closedFds == old(closedFds)
    {
      if sockfd != -1 {
        sockfd := -1;
        users.count := users.count - 1;
        FreeEvents();
        closedFds := closedFds + [sockfd];
      }
      Init();
    }

    /** read(): drain recv() into the buffer at m_read_idx until it
        answers EAGAIN (true) or reports a closed peer or an error (false);
        a full buffer fails at once. The answers come from `script`, the
        kernel's answers call by call; a recv() asked for no room answers
        0, and a script that runs out answers EAGAIN. */
    method Read(script: seq<RecvResult>) returns (ok: bool)
      requires Valid() && Fits(READ_BUFFER_SIZE - readIdx, script)
      modifies this`readIdx, readBuf
      ensures Valid()
      ensures ReadOutcome(ok, readBuf[..], readIdx) == ReadRun(old(readBuf[..]), old(readIdx), script)
    {
      ghost var s := ReadView();
      ReadRunReads(s.buf, s.readIdx, script);
      ok := RecvAll(script);
      ReceivedKeepsConsistent(s, readBuf[..], readIdx);
      assert ReadView() == s.(buf := readBuf[..], readIdx := readIdx);
    }

    /** The body of read() once the buffer has room, its loop over the
        recv() answers. */
    method RecvAll(script: seq<RecvResult>) returns (ok: bool)
      requires readBuf.Length == READ_BUFFER_SIZE && 0 <= readIdx <= READ_BUFFER_SIZE
      requires Fits(READ_BUFFER_SIZE - readIdx, script)
      modifies this`readIdx, readBuf
      ensures ReadOutcome(ok, readBuf[..], readIdx) == ReadRun(old(readBuf[..]), old(readIdx), script)
    {
      if readIdx >= READ_BUFFER_SIZE {
        return false;
      }
      var i := 0;
      while true
        invariant 0 <= i <= |script| && 0 <= readIdx <= READ_BUFFER_SIZE
        invariant Fits(READ_BUFFER_SIZE - readIdx, script[i..])
        invariant RecvLoop(readBuf[..], readIdx, script[i..]) == RecvLoop(old(readBuf[..]), old(readIdx), script)
        decreases |script| - i
      {
        var answer := if readIdx == READ_BUFFER_SIZE then Received([])
                      else if i < |script| then script[i] else Again;
        match answer
        case Again =>
          return true;
        case Closed =>
          return false;
        case Error =>
          return false;
        case Received(d) =>
          if |d| == 0 {
            return false;
          }
          Land(d);
          readIdx := readIdx + |d|;
          i := i + 1;
      }
    }

    /** recv() copying its bytes to m_read_buf + m_read_idx. */
    method Land(d: seq<char>)
      requires 0 <= readIdx && readIdx + |d| <= readBuf.Length
      modifies readBuf
      ensures readBuf[..] == Landed(old(readBuf[..]), readIdx, d)
    {
      forall k | 0 <= k < |d| {
        readBuf[readIdx + k] := d[k];
      }
    }

    /** parse_line(): scan from m_checked_idx to m_read_idx for a line end,
        overwriting a CR LF with two NULs. */
    method ParseLine() returns (status: LineStatus)
      requires 0 <= checkedIdx <= readIdx <= readBuf.Length
      modifies this`checkedIdx, readBuf
      ensures (status, checkedIdx, readBuf[..]) == LineStep(old(readBuf[..]), old(checkedIdx), readIdx)
    {
      ghost var buf0 := readBuf[..];
      ghost var c0 := checkedIdx;
      while checkedIdx < readIdx
        invariant c0 <= checkedIdx <= readIdx && readBuf[..] == buf0
        invariant ScanLine(buf0, checkedIdx, readIdx) == ScanLine(buf0, c0, readIdx)
        decreases readIdx - checkedIdx
      {
        var temp := readBuf[checkedIdx];
        if temp == '\r' {
          if checkedIdx + 1 == readIdx {
            return LineOpen;
          } else if readBuf[checkedIdx + 1] == '\n' {
            EndLine(checkedIdx);
            return LineOk;
          }
          return LineBad;
        } else if temp == '\n' {
          if checkedIdx > 1 && readBuf[checkedIdx - 1] == '\r' {
            EndLine(checkedIdx - 1);
            return LineOk;
          }
          return LineBad;
        }
        checkedIdx := checkedIdx + 1;
      }
      return LineOpen;
    }

    /** Both bytes of the CR LF at `at` become NUL and the cursor moves
        past them. */
    method EndLine(at: nat)
      requires at + 1 < readBuf.Length
      modifies this`checkedIdx, readBuf
      ensures checkedIdx == at + 2 && readBuf[..] == old(readBuf[..])[at := NUL][at + 1 := NUL]
    {
      readBuf[at] := NUL;
      readBuf[at + 1] := NUL;
      checkedIdx := at + 2;
    }

    /** do_request()'s effects: the path built from the URL, stat()'s
        answer kept when it found a file, and the file mapped when it may
        be served. */
    ghost predicate Resolved(file0: seq<char>, stat0: StatInfo, mapped0: bool, st: StatInfo, code: HttpCode)
      reads this, readBuf, realFile
      requires |readBuf[..]| == READ_BUFFER_SIZE && url.At? && InBuffer(url) && |file0| == FILENAME_LEN
    {
      && realFile[..] == RealFileBuffer(file0, UrlText(ReadView()))
      && fileStat == (if st.Found? then st else stat0)
      && mapped == (mapped0 || code == FileRequest)
    }

    /** No request was resolved: the path, the stat() answer and the
        mapping are as they were. */
    ghost predicate Untouched(file0: seq<char>, stat0: StatInfo, mapped0: bool)
      reads this, realFile
    {
      realFile[..] == file0 && fileStat == stat0 && mapped == mapped0
    }

    /** What process_read() leaves in the path buffer, the stat() answer
        and the mapping, whether or not it resolved a request. */
    lemma ParseLeft(p: Parsed, st: StatInfo, code: HttpCode, file0: seq<char>, stat0: StatInfo, mapped0: bool)
      requires |readBuf[..]| == READ_BUFFER_SIZE && |file0| == FILENAME_LEN
      requires p != Overrun && code == ReadAnswer(p, st)
      requires p == Complete ==> url.At? && InBuffer(url) && Resolved(file0, stat0, mapped0, st, code)
      requires p != Complete ==> Untouched(file0, stat0, mapped0)
      ensures mapped == (mapped0 || code == FileRequest)
      ensures fileStat == (if p == Complete && st.Found? then st else stat0)
      ensures realFile[..] == if p == Complete then RealFileBuffer(file0, UrlText(ReadView())) else file0
    {
    }

    /** process_read(): hand each complete line to the parser of the
        current state until a line is missing, the request line is
        rejected, or the request is complete, in which case do_request()
        resolves it on stat()'s answer `st`. */
    method ProcessRead(st: StatInfo) returns (code: HttpCode)
      requires ReadSideValid() && ReadLoop(ReadView(), LineOk).0 != Overrun
      modifies this`checkedIdx, this`startLine, this`url, this`version, this`requestMethod,
               this`checkState, this`linger, this`contentLength, this`host, readBuf,
               realFile, this`fileStat, this`mapped
      ensures ReadSideValid()
      ensures ReadView() == ReadLoop(old(ReadView()), LineOk).1
      ensures code == ReadAnswer(ReadLoop(old(ReadView()), LineOk).0, st)
      ensures ReadLoop(old(ReadView()), LineOk).0 == Complete ==>
        Resolved(old(realFile[..]), old(fileStat), old(mapped), st, code)
      ensures ReadLoop(old(ReadView()), LineOk).0 != Complete ==>
        Untouched(old(realFile[..]), old(fileStat), old(mapped))
    {
      var lineStatus := LineOk;
      while true
        invariant Shape() && Consistent(ReadView()) && readIdx == old(readIdx)
        invariant ReadLoop(ReadView(), lineStatus) == ReadLoop(old(ReadView()), LineOk)
        invariant Untouched(old(realFile[..]), old(fileStat), old(mapped))
        invariant realFile[FILENAME_LEN - 1] == old(realFile[FILENAME_LEN - 1])
        decreases readIdx - checkedIdx, if checkState == Content && lineStatus == LineOk then 1 else 0
      {
        var done;
        done, code, lineStatus := Pass(lineStatus, st);
        if done {
          return;
        }
      }
    }

    /** One pass of process_read's loop from line status `ls`: the loop
        test and, with a line in hand, the body. Either process_read
        returns (`done`, with its answer in `code`) or the loop goes on
        with status `ls'` and less left to scan. */
    method Pass(ls: LineStatus, st: StatInfo) returns (done: bool, code: HttpCode, ls': LineStatus)
      requires Shape() && Consistent(ReadView()) && ReadLoop(ReadView(), ls).0 != Overrun
      modifies this`checkedIdx, this`startLine, this`url, this`version, this`requestMethod,
               this`checkState, this`linger, this`contentLength, this`host, readBuf,
               realFile, this`fileStat, this`mapped
      ensures Consistent(ReadView()) && readIdx == old(readIdx)
      ensures realFile[FILENAME_LEN - 1] == old(realFile[FILENAME_LEN - 1])
      ensures done ==>
        && ReadView() == ReadLoop(old(ReadView()), ls).1
        && code == ReadAnswer(ReadLoop(old(ReadView()), ls).0, st)
        && (ReadLoop(old(ReadView()), ls).0 == Complete ==>
              Resolved(old(realFile[..]), old(fileStat), old(mapped), st, code))
        && (ReadLoop(old(ReadView()), ls).0 != Complete ==>
              Untouched(old(realFile[..]), old(fileStat), old(mapped)))
      ensures !done ==>
        && ReadLoop(ReadView(), ls') == ReadLoop(old(ReadView()), ls)
        && Untouched(old(realFile[..]), old(fileStat), old(mapped))
        && old(checkedIdx) <= checkedIdx
        && (old(checkedIdx) < checkedIdx ||
            (old(checkState) == Content && ls == LineOk && !(checkState == Content && ls' == LineOk)))
    {
      var got, text;
      got, text, ls' := NextLine(ls);
      if !got {
        return true, NoRequest, ls';
      }
      done, code, ls' := HandleLine(text, st);
    }

    /** The loop test and the head of the body: unless the body case is
        entered with LINE_OK in hand, ask parse_line() for a line; with a
        line, take it from get_line() and move m_start_line past it. */
    method NextLine(ls: LineStatus) returns (got: bool, text: nat, ls': LineStatus)
      requires Shape() && Consistent(ReadView())
      modifies this`checkedIdx, this`startLine, readBuf
      ensures Consistent(ReadView()) && readIdx == old(readIdx)
      ensures !got ==> ReadView() == ReadLoop(old(ReadView()), ls).1 && ReadLoop(old(ReadView()), ls).0 == NeedMore
      ensures got ==>
        && text <= READ_BUFFER_SIZE && (checkState != Content ==> text < READ_BUFFER_SIZE) && ls' == LineOk
        && Dispatch(ReadView(), text) == ReadLoop(old(ReadView()), ls)
        && (old(checkedIdx) < checkedIdx || (old(checkState) == Content && ls == LineOk))
        && checkedIdx >= old(checkedIdx) && checkState == old(checkState)
    {
      if checkState == Content && ls == LineOk {
        text := TakeLine();
        return true, text, ls;
      }
      ghost var s := ReadView();
      ls' := ParseLine();
      assert (ls', ReadView()) == ParseLineStep(s);
      if ls' != LineOk {
        return false, 0, ls';
      }
      text := TakeLine();
      return true, text, ls';
    }

    /** text = get_line(); m_start_line = m_checked_idx. */
    method TakeLine() returns (text: nat)
      requires Consistent(ReadView())
      modifies this`startLine
      ensures text == old(startLine) && ReadView() == old(ReadView()).(startLine := checkedIdx)
      ensures Consistent(ReadView())
    {
      text := GetLine();
      startLine := checkedIdx;
    }

    /** What a case of the switch in process_read's loop body promises
        about the line at `text`, given the state `s` before it: `done`
        when process_read returns, with its answer in `code`, and
        otherwise the loop goes on with line status `ls`. */
    ghost predicate Handled(s: ReadState, text: nat, st: StatInfo, file0: seq<char>, stat0: StatInfo,
                            mapped0: bool, done: bool, code: HttpCode, ls: LineStatus)
      reads this, readBuf, realFile
      requires Consistent(s) && text <= READ_BUFFER_SIZE && |file0| == FILENAME_LEN
      requires Consistent(ReadView())
    {
      && (!done ==>
            && ReadLoop(ReadView(), ls) == Dispatch(s, text)
            && Untouched(file0, stat0, mapped0))
      && (done ==>
            && ReadView() == Dispatch(s, text).1
            && Dispatch(s, text).0 != Overrun
            && code == ReadAnswer(Dispatch(s, text).0, st)
            && (Dispatch(s, text).0 == Complete ==> Resolved(file0, stat0, mapped0, st, code))
            && (Dispatch(s, text).0 != Complete ==> Untouched(file0, stat0, mapped0)))
    }

    /** The switch in process_read's loop body, on the line at `text`. */
    method HandleLine(text: nat, st: StatInfo) returns (done: bool, code: HttpCode, ls: LineStatus)
      requires Shape() && Consistent(ReadView()) && text <= READ_BUFFER_SIZE
      requires checkState != Content ==> text < READ_BUFFER_SIZE
      requires Dispatch(ReadView(), text).0 != Overrun
      modifies this`url, this`version, this`requestMethod, this`checkState, this`linger,
               this`contentLength, this`host, readBuf, realFile, this`fileStat, this`mapped
      ensures Consistent(ReadView())
      ensures readIdx == old(readIdx) && checkedIdx == old(checkedIdx)
      ensures realFile[FILENAME_LEN - 1] == old(realFile[FILENAME_LEN - 1])
      ensures Handled(old(ReadView()), text, st, old(realFile[..]), old(fileStat), old(mapped), done, code, ls)
      ensures !done && old(checkState) == Content ==> ls == LineOpen
    {
      match checkState
      case RequestLine =>
        done, code := OnRequestLine(text, st);
        ls := LineOk;
      case Header =>
        done, code := OnHeader(text, st);
        ls := LineOk;
      case Content =>
        done, code := OnBody(text, st);
        ls := LineOpen;
    }

    /** case CHECK_STATE_REQUESTLINE: parse_request_line, and return on
        BAD_REQUEST. */
    method OnRequestLine(text: nat, st: StatInfo) returns (done: bool, code: HttpCode)
      requires Shape() && Consistent(ReadView()) && checkState == RequestLine && text <= READ_BUFFER_SIZE
      modifies this`url, this`version, this`requestMethod, this`checkState, readBuf
      ensures Consistent(ReadView()) && readIdx == old(readIdx) && checkedIdx == old(checkedIdx)
      ensures Handled(old(ReadView()), text, st, realFile[..], fileStat, mapped, done, code, LineOk)
    {
      code := ParseRequestLine(text);
      done := code == BadRequest;
    }

    /** case CHECK_STATE_HEADER: parse_headers, and do_request() once the
        headers end without a body. */
    method OnHeader(text: nat, st: StatInfo) returns (done: bool, code: HttpCode)
      requires Shape() && Consistent(ReadView()) && checkState == Header && text < READ_BUFFER_SIZE
      modifies this`checkState, this`linger, this`contentLength, this`host, realFile, this`fileStat, this`mapped
      ensures Consistent(ReadView()) && readIdx == old(readIdx) && checkedIdx == old(checkedIdx)
      ensures realFile[FILENAME_LEN - 1] == old(realFile[FILENAME_LEN - 1])
      ensures Handled(old(ReadView()), text, st, old(realFile[..]), old(fileStat), old(mapped), done, code, LineOk)
    {
      code := ParseHeaders(text);
      done := code == GetRequest;
      if done {
        code := DoRequest(st);
      }
    }

    /** case CHECK_STATE_CONTENT: parse_content, and do_request() once the
        body is in. */
    method OnBody(text: nat, st: StatInfo) returns (done: bool, code: HttpCode)
      requires Shape() && Consistent(ReadView()) && checkState == Content && text <= READ_BUFFER_SIZE
      requires Dispatch(ReadView(), text).0 != Overrun
      modifies readBuf, realFile, this`fileStat, this`mapped
      ensures Consistent(ReadView()) && readIdx == old(readIdx) && checkedIdx == old(checkedIdx)
      ensures realFile[FILENAME_LEN - 1] == old(realFile[FILENAME_LEN - 1])
      ensures Handled(old(ReadView()), text, st, old(realFile[..]), old(fileStat), old(mapped), done, code, LineOpen)
    {
      code := ParseContent(text);
      done := code == GetRequest;
      if done {
        code := DoRequest(st);
      }
    }

    /** parse_request_line(text): cut the method at the first blank, then
        the URL at the next blank after the blanks, and check the method,
        the version and the URL's leading '/'. */
    method ParseRequestLine(text: nat) returns (code: HttpCode)
      requires Shape() && Consistent(ReadView()) && checkState == RequestLine && text <= READ_BUFFER_SIZE
      modifies this`url, this`version, this`requestMethod, this`checkState, readBuf
      ensures (code, ReadView()) == RequestLineStep(old(ReadView()), text)
    {
      var m := FindBlank(readBuf[..], text);
      if m.None? {
        url := Null;
        return BadRequest;
      }
      readBuf[m.value] := NUL;
      url := At(m.value + 1);
      if !EqualIgnoreCase(CString(readBuf[..], text), "GET") {
        return BadRequest;
      }
      requestMethod := Get;
      var u := BlankEnd(readBuf[..], m.value + 1);
      url := At(u);
      var e := FindBlank(readBuf[..], u);
      if e.None? {
        version := Null;
        return BadRequest;
      }
      readBuf[e.value] := NUL;
      var v := BlankEnd(readBuf[..], e.value + 1);
      version := At(v);
      if !EqualIgnoreCase(CString(readBuf[..], v), "HTTP/1.1") {
        return BadRequest;
      }
      if readBuf[u] != '/' {
        return BadRequest;
      }
      checkState := Header;
      return NoRequest;
    }

    /** parse_headers(text): an empty line ends the headers; Connection,
        Content-Length and Host are recorded, any other header ignored. */
    method ParseHeaders(text: nat) returns (code: HttpCode)
      requires Shape() && Consistent(ReadView()) && checkState == Header && text < READ_BUFFER_SIZE
      modifies this`checkState, this`linger, this`contentLength, this`host
      ensures (code, ReadView()) == HeadersStep(old(ReadView()), text)
    {
      if readBuf[text] == NUL {
        if contentLength != 0 {
          checkState := Content;
          return NoRequest;
        }
        return GetRequest;
      }
      ParseField(text);
      return NoRequest;
    }

    /** The header-line part of parse_headers: m_linger, m_content_length
        and m_host become what the header line at `text` makes them. */
    method ParseField(text: nat)
      requires text <= readBuf.Length
      modifies this`linger, this`contentLength, this`host
      ensures var r := FieldStep(old(ReadView()), CString(old(readBuf[..]), text), text);
        (linger, contentLength, host) == (r.linger, r.contentLength, r.host)
    {
      var line := CString(readBuf[..], text);
      if HasPrefixIgnoreCase(line, "Connection:") {
        ParseConnection(text);
      } else if HasPrefixIgnoreCase(line, "Content-Length:") {
        ParseContentLength(text);
      } else if HasPrefixIgnoreCase(line, "Host:") {
        ParseHost(text);
      }
    }

    /** The "Connection:" branch of parse_headers: keep-alive sets m_linger. */
    method ParseConnection(text: nat)
      requires text <= readBuf.Length
      requires HasPrefixIgnoreCase(CString(readBuf[..], text), "Connection:")
      modifies this`linger
      ensures linger == (old(linger) || EqualIgnoreCase(FieldValue(CString(old(readBuf[..]), text), 11), "keep-alive"))
    {
      FieldValueInBuffer(readBuf[..], text, 11);
      var v := BlankEnd(readBuf[..], text + 11);
      if EqualIgnoreCase(CString(readBuf[..], v), "keep-alive") {
        linger := true;
      }
    }

    /** The "Content-Length:" branch of parse_headers: atol of the value. */
    method ParseContentLength(text: nat)
      requires text <= readBuf.Length
      requires HasPrefixIgnoreCase(CString(readBuf[..], text), "Content-Length:")
      modifies this`contentLength
      ensures contentLength == Int32(Strtol(FieldValue(CString(old(readBuf[..]), text), 15)))
    {
      FieldValueInBuffer(readBuf[..], text, 15);
      var v := BlankEnd(readBuf[..], text + 15);
      contentLength := Int32(Strtol(CString(readBuf[..], v)));
    }

    /** The "Host:" branch of parse_headers: m_host points at the value. */
    method ParseHost(text: nat)
      requires text <= readBuf.Length
      requires HasPrefixIgnoreCase(CString(readBuf[..], text), "Host:")
      modifies this`host
      ensures var line := CString(old(readBuf[..]), text);
        host == At(text + |line| - |FieldValue(line, 5)|)
    {
      FieldValueInBuffer(readBuf[..], text, 5);
      var v := BlankEnd(readBuf[..], text + 5);
      host := At(v);
    }

    /** parse_content(text): once m_read_idx has reached m_content_length
        bytes past m_checked_idx, cut the body there with a NUL. */
    method ParseContent(text: nat) returns (code: HttpCode)
      requires Shape() && Consistent(ReadView()) && checkState == Content && text <= READ_BUFFER_SIZE
      requires !BodyOverrun(ReadView(), text)
      modifies readBuf
      ensures (code, ReadView()) == ContentStep(old(ReadView()), text)
    {
      if readIdx >= contentLength + checkedIdx {
        readBuf[text + contentLength] := NUL;
        return GetRequest;
      }
      return NoRequest;
    }

    /** do_request(): build the path from the document root and the URL,
        then decide on stat()'s answer `st` for it; a file that may be
        served is mapped. */
    method DoRequest(st: StatInfo) returns (code: HttpCode)
      requires Shape() && Consistent(ReadView()) && url.At?
      modifies realFile, this`fileStat, this`mapped
      ensures realFile[..] == RealFileBuffer(old(realFile[..]), UrlText(ReadView()))
      ensures realFile[FILENAME_LEN - 1] == old(realFile[FILENAME_LEN - 1])
      ensures code == Classify(st)
      ensures fileStat == if st.Found? then st else old(fileStat)
      ensures mapped == (old(mapped) || code == FileRequest)
    {
      CopyPath(CString(readBuf[..], url.offset));
      match st
      case Missing =>
        return NoResource;
      case Found(mode, _) =>
        fileStat := st;
        if mode & S_IROTH == 0 {
          return ForbiddenRequest;
        }
        if mode & S_IFMT == S_IFDIR {
          return BadRequest;
        }
        mapped := true;
        return FileRequest;
    }

    /** strcpy(m_real_file, doc_root), then
        strncpy(m_real_file + strlen(doc_root), url, URL_ROOM), which pads
        with NULs up to its bound. */
    method CopyPath(urlText: seq<char>)
      requires realFile.Length == FILENAME_LEN
      modifies realFile
      ensures realFile[..] == RealFileBuffer(old(realFile[..]), urlText)
      ensures realFile[FILENAME_LEN - 1] == old(realFile[FILENAME_LEN - 1])
    {
      forall i | 0 <= i < |DOC_ROOT| {
        realFile[i] := DOC_ROOT[i];
      }
      realFile[|DOC_ROOT|] := NUL;
      var len := |DOC_ROOT|;
      var k := Min(|urlText|, FILENAME_LEN - len - 1);
      forall i | 0 <= i < FILENAME_LEN - len - 1 {
        realFile[len + i] := if i < k then urlText[i] else NUL;
      }
    }

    /** get_line(): the line being parsed starts at m_start_line, never
        past the cursor. */
    function GetLine(): (text: nat)
      reads this, readBuf
      requires Consistent(ReadView())
      ensures text == startLine && text <= checkedIdx
    {
      startLine
    }

    // -------------------------------------------------------------------
    // The response

    /** unmap(): release the mapping of the served file, if any. */
    method Unmap()
      modifies this`mapped
      ensures !mapped
    {
      if mapped {
        mapped := false;
      }
    }

    /** add_response(text): refuse on a full buffer; otherwise vsnprintf
        into the room left less one byte, and advance m_write_idx only
        when the whole text fitted. */
    method AddResponse(text: seq<char>) returns (ok: bool)
      requires writeBuf.Length == WRITE_BUFFER_SIZE && 0 <= writeIdx <= WRITE_BUFFER_SIZE
      modifies this`writeIdx, writeBuf
      ensures (ok, WriteView()) == Append(old(WriteView()), text)
    {
      if writeIdx >= WRITE_BUFFER_SIZE {
        return false;
      }
      var size := WRITE_BUFFER_SIZE - 1 - writeIdx;
      var len := Vsnprintf(writeIdx, size, text);
      if len >= size {
        return false;
      }
      writeIdx := writeIdx + len;
      return true;
    }

    /** vsnprintf(m_write_buf + at, size, ...) producing `text`: it writes
        what fits with a terminating NUL and answers the full length. */
    method Vsnprintf(at: nat, size: nat, text: seq<char>) returns (len: nat)
      requires at + size <= writeBuf.Length
      modifies writeBuf
      ensures len == |text| && writeBuf[..] == Snprintf(old(writeBuf[..]), at, size, text)
    {
      if size == 0 {
        return |text|;
      }
      var k := Min(|text|, size - 1);
      forall i | 0 <= i < k {
        writeBuf[at + i] := text[i];
      }
      writeBuf[at + k] := NUL;
      return |text|;
    }

    /** add_status_line(status, title). */
    method AddStatusLine(status: int, title: seq<char>) returns (ok: bool)
      requires writeBuf.Length == WRITE_BUFFER_SIZE && 0 <= writeIdx <= WRITE_BUFFER_SIZE
      modifies this`writeIdx, writeBuf
      ensures (ok, WriteView()) == Append(old(WriteView()), StatusLine(status, title))
    {
      ok := AddResponse(StatusLine(status, title));
    }

    /** add_content_length(n). */
    method AddContentLength(n: int) returns (ok: bool)
      requires writeBuf.Length == WRITE_BUFFER_SIZE && 0 <= writeIdx <= WRITE_BUFFER_SIZE
      modifies this`writeIdx, writeBuf
      ensures (ok, WriteView()) == Append(old(WriteView()), ContentLengthField(n))
    {
      ok := AddResponse(ContentLengthField(n));
    }

    /** add_linger(): keep-alive or close, as m_linger says. */
    method AddLinger() returns (ok: bool)
      requires writeBuf.Length == WRITE_BUFFER_SIZE && 0 <= writeIdx <= WRITE_BUFFER_SIZE
      modifies this`writeIdx, writeBuf
      ensures (ok, WriteView()) == Append(old(WriteView()), ConnectionField(linger))
    {
      ok := AddResponse(ConnectionField(linger));
    }

    /** add_blank_line(). */
    method AddBlankLine() returns (ok: bool)
      requires writeBuf.Length == WRITE_BUFFER_SIZE && 0 <= writeIdx <= WRITE_BUFFER_SIZE
      modifies this`writeIdx, writeBuf
      ensures (ok, WriteView()) == Append(old(WriteView()), BLANK_LINE)
    {
      ok := AddResponse(BLANK_LINE);
    }

    /** add_content(text). */
    method AddContent(text: seq<char>) returns (ok: bool)
      requires writeBuf.Length == WRITE_BUFFER_SIZE && 0 <= writeIdx <= WRITE_BUFFER_SIZE
      modifies this`writeIdx, writeBuf
      ensures (ok, WriteView()) == Append(old(WriteView()), text)
    {
      ok := AddResponse(text);
    }

    /** add_headers(n): the three header lines, each appended whatever
        became of the one before. The function returns no value in the
        source, and no caller looks at one, so the model returns none. */
    method AddHeaders(n: int)
      requires writeBuf.Length == WRITE_BUFFER_SIZE && 0 <= writeIdx <= WRITE_BUFFER_SIZE
      modifies this`writeIdx, writeBuf
      ensures WriteView() == ResponseBuilder.AddHeaders(old(WriteView()), n, linger)
    {
      var _ := AddContentLength(n);
      var _ := AddLinger();
      var _ := AddBlankLine();
    }

    /** process_write(code): an error page for the four error outcomes; for
        FILE_REQUEST the status line, the headers and the two segments when
        the file is not empty, and failure when it is; failure for any
        other outcome. On success the segments cover the headers and, for
        a file, the mapping. */
    method ProcessWrite(code: HttpCode) returns (ok: bool)
      requires writeBuf.Length == WRITE_BUFFER_SIZE && 0 <= writeIdx <= WRITE_BUFFER_SIZE
      requires ivs.Length == 2 && 0 <= ivCount <= 2
      modifies this`writeIdx, writeBuf, ivs, this`ivCount
      ensures 0 <= writeIdx <= WRITE_BUFFER_SIZE && 0 <= ivCount <= 2
      ensures Built(ok, WriteView(), IvView()) == BuildResponse(code, old(linger), old(FileSize()), old(WriteView()), old(IvView()))
    {
      match code
      case InternalError =>
        ok := WritePage(PageOf(code));
      case BadRequest =>
        ok := WritePage(PageOf(code));
      case NoResource =>
        ok := WritePage(PageOf(code));
      case ForbiddenRequest =>
        ok := WritePage(PageOf(code));
      case FileRequest =>
        ok := WriteFile();
      case _ =>
        return false;
    }

    /** One error case of process_write: status line, headers sized for the
        page, then the page, whose append alone decides; the headers and
        page then form the one segment. */
    method WritePage(page: ErrorPage) returns (ok: bool)
      requires writeBuf.Length == WRITE_BUFFER_SIZE && 0 <= writeIdx <= WRITE_BUFFER_SIZE
      requires ivs.Length == 2 && 0 <= ivCount <= 2
      modifies this`writeIdx, writeBuf, ivs, this`ivCount
      ensures 0 <= ivCount <= 2
      ensures Built(ok, WriteView(), IvView()) == BuildErrorPage(page, linger, old(WriteView()), old(IvView()))
    {
      ghost var w0, iv0 := WriteView(), IvView();
      ok := WritePageText(page);
      ghost var w3 := WriteView();
      if ok {
        SetSegments([IoVec(WriteBuffer, writeIdx)]);
      }
      assert WriteView() == w3;
      assert BuildErrorPage(page, linger, w0, iv0) == Built(ok, w3, if ok then [IoVec(WriteBuffer, w3.idx)] else iv0);
    }

    /** Point m_iv at the given segments and set m_iv_count. */
    method SetSegments(segs: seq<IoVec>)
      requires ivs.Length == 2 && 1 <= |segs| <= 2
      modifies ivs, this`ivCount
      ensures ivCount == |segs| && IvView() == segs
    {
      ivs[0] := segs[0];
      if |segs| == 2 {
        ivs[1] := segs[1];
      }
      ivCount := |segs|;
    }

    /** The appends of an error page, without the segments. */
    method WritePageText(page: ErrorPage) returns (ok: bool)
      requires writeBuf.Length == WRITE_BUFFER_SIZE && 0 <= writeIdx <= WRITE_BUFFER_SIZE
      modifies this`writeIdx, writeBuf
      ensures (ok, WriteView()) == Append(ResponseBuilder.AddHeaders(Append(old(WriteView()), StatusLine(page.status, page.title)).1, |page.form|, linger), page.form)
    {
      var _ := AddStatusLine(page.status, page.title);
      AddHeaders(|page.form|);
      ok := AddContent(page.form);
    }

    /** The FILE_REQUEST case of process_write: the headers and the mapped
        file as two segments when st_size is not 0 (narrowed to the int
        parameter of add_headers); an empty file gets the headers and a
        stock page, then falls through into the default case, which fails. */
    method WriteFile() returns (ok: bool)
      requires writeBuf.Length == WRITE_BUFFER_SIZE && 0 <= writeIdx <= WRITE_BUFFER_SIZE
      requires ivs.Length == 2 && 0 <= ivCount <= 2
      modifies this`writeIdx, writeBuf, ivs, this`ivCount
      ensures 0 <= ivCount <= 2
      ensures Built(ok, WriteView(), IvView()) == BuildResponse(FileRequest, linger, FileSize(), old(WriteView()), old(IvView()))
    {
      ok := WriteFileText();
      if ok {
        SetSegments([IoVec(WriteBuffer, writeIdx), IoVec(FileMapping, FileSize())]);
      }
    }

    /** The appends of the FILE_REQUEST case, without the segments. */
    method WriteFileText() returns (ok: bool)
      requires writeBuf.Length == WRITE_BUFFER_SIZE && 0 <= writeIdx <= WRITE_BUFFER_SIZE
      modifies this`writeIdx, writeBuf
      ensures ok <==> FileSize() != 0
      ensures var w1 := Append(old(WriteView()), StatusLine(200, OK_200_TITLE)).1;
        WriteView() == if ok then ResponseBuilder.AddHeaders(w1, Int32(FileSize()), linger)
                       else Append(ResponseBuilder.AddHeaders(w1, |OK_STRING|, linger), OK_STRING).1
    {
      var _ := AddStatusLine(200, OK_200_TITLE);
      if FileSize() != 0 {
        AddHeaders(Int32(FileSize()));
        return true;
      }
      AddHeaders(|OK_STRING|);
      var _ := AddContent(OK_STRING);
      return false;
    }

    // -------------------------------------------------------------------
    // Sending and the whole round

    /** write(): with nothing pending, reset and wait for the next request;
        otherwise writev() until EAGAIN (true, try later), an error (unmap,
        false) or the pending count of m_write_idx is reached (unmap, then
        reset and wait for the next request when keep-alive, else false).
        The writev() answers come from `script`; one that runs out is
        EAGAIN. */
    method Write(script: seq<SendResult>) returns (ok: bool)
      requires Valid()
      modifies this, readBuf, writeBuf, realFile
      ensures Valid() && sockfd == old(sockfd)
      ensures fileStat == old(fileStat) && ivCount == old(ivCount) && closedFds == old(closedFds)
      ensures old(writeIdx) == 0 ==>
        ok && Recycled(old(readEv), old(writeEv)) && mapped == old(mapped)
      ensures old(writeIdx) != 0 ==>
        var e := WriteLoop(old(writeIdx), 0, script);
        && (ok <==> e == Blocked || (e == Drained && old(linger)))
        && (mapped <==> old(mapped) && e == Blocked)
        && (e == Drained && old(linger) ==> Recycled(old(readEv), old(writeEv)))
        && (!(e == Drained && old(linger)) ==>
              ReadView() == old(ReadView()) && WriteView() == old(WriteView())
              && realFile[..] == old(realFile[..]) && readEv == old(readEv) && writeEv == old(writeEv))
    {
      var toSend := writeIdx;
      if toSend == 0 {
        Recycle();
        return true;
      }
      var end := SendLoop(toSend, script);
      match end
      case Blocked =>
        return true;
      case Broken =>
        Unmap();
        return false;
      case Drained =>
        Unmap();
        if linger {
          Recycle();
          return true;
        }
        return false;
    }

    /** The state after a response: parsing from scratch, nothing pending,
        the three buffers cleared, the write event removed and the read
        event added back. */
    ghost predicate Recycled(rev: EventReg, wev: EventReg)
      reads this, readBuf, writeBuf, realFile
    {
      && Fresh(ReadView()) && writeIdx == 0
      && AllNul(readBuf[..]) && AllNul(writeBuf[..]) && AllNul(realFile[..])
      && readEv == Added(rev) && writeEv == Deleted(wev)
    }

    /** init(), event_del(write_ev), event_add(read_ev). */
    method Recycle()
      requires Valid()
      modifies this, readBuf, writeBuf, realFile
      ensures Valid() && sockfd == old(sockfd) && mapped == old(mapped)
      ensures fileStat == old(fileStat) && ivCount == old(ivCount) && closedFds == old(closedFds)
      ensures Recycled(old(readEv), old(writeEv))
    {
      Init();
      RearmRead();
    }

    /** event_del(write_ev), event_add(read_ev). */
    method RearmRead()
      modifies this`readEv, this`writeEv
      ensures readEv == Added(old(readEv)) && writeEv == Deleted(old(writeEv))
    {
      writeEv := Deleted(writeEv);
      readEv := Added(readEv);
    }

    /** event_del(read_ev), event_add(write_ev). */
    method ArmWrite()
      modifies this`readEv, this`writeEv
      ensures readEv == Deleted(old(readEv)) && writeEv == Added(old(writeEv))
    {
      readEv := Deleted(readEv);
      writeEv := Added(writeEv);
    }

    /** process(): parse what has been read; with a request, build the
        response and then either wait for the socket to become writable
        or, when building failed, close the connection. do_request() has
        set m_file_stat to stat()'s answer when the request completed and
        the file exists, and the response is built on that size. */
    method Process(st: StatInfo)
      requires Valid() && ReadLoop(ReadView(), LineOk).0 != Overrun
      modifies this, readBuf, writeBuf, realFile, ivs, users
      ensures Valid()
      ensures var (p, s) := ReadLoop(old(ReadView()), LineOk);
        fileStat == (if p == Complete && st.Found? then st else old(fileStat))
      ensures var (p, s) := ReadLoop(old(ReadView()), LineOk);
              var code := ReadAnswer(p, st);
        Answered(code, s, old(WriteView()), old(IvView()), FileSize(),
                 old(AroundView()).(mapped := old(mapped) || code == FileRequest),
                 if p == Complete then RealFileBuffer(old(realFile[..]), UrlText(s)) else old(realFile[..]))
    {
      ghost var (p, s) := ReadLoop(ReadView(), LineOk);
      ghost var w, iv := WriteView(), IvView();
      var code := Parse(st);
      Answer(code, s, w, iv, AroundView(), realFile[..]);
    }

    /** process_read() as process() sees it: the parse state and answer it
        leaves, with the path, the stat() answer and the mapping as
        do_request() leaves them when the request completed, and as they
        were otherwise. */
    method Parse(st: StatInfo) returns (code: HttpCode)
      requires Valid() && ReadLoop(ReadView(), LineOk).0 != Overrun
      modifies this`checkedIdx, this`startLine, this`url, this`version, this`requestMethod,
               this`checkState, this`linger, this`contentLength, this`host, readBuf,
               realFile, this`fileStat, this`mapped
      ensures Valid()
      ensures var (p, s) := ReadLoop(old(ReadView()), LineOk);
        && ReadView() == s && code == ReadAnswer(p, st)
        && fileStat == (if p == Complete && st.Found? then st else old(fileStat))
        && AroundView() == old(AroundView()).(mapped := old(mapped) || code == FileRequest)
        && realFile[..] == if p == Complete then RealFileBuffer(old(realFile[..]), UrlText(s)) else old(realFile[..])
    {
      ghost var (p, s) := ReadLoop(ReadView(), LineOk);
      ghost var file, stat, m := realFile[..], fileStat, mapped;
      code := ProcessRead(st);
      ParseLeft(p, st, code, file, stat, m);
    }

    /** The rest of process() once process_read() has answered `code`
        over the parsed request `r`, with `w`, `iv`, `o` and `file` the
        response buffer, segments, surrounding fields and path buffer as
        they stand: without a request nothing more happens; with one,
        respond. */
    method Answer(code: HttpCode, ghost r: ReadState, ghost w: WriteBuf, ghost iv: seq<IoVec>,
                  ghost o: Around, ghost file: seq<char>)
      requires Valid()
      requires (ReadView(), WriteView(), IvView(), AroundView(), realFile[..]) == (r, w, iv, o, file)
      modifies this, readBuf, writeBuf, realFile, ivs, users
      ensures Valid() && fileStat == old(fileStat)
      ensures Answered(code, r, w, iv, FileSize(), o, file)
    {
      if code == NoRequest {
        return;
      }
      Respond(code);
    }

    /** The outcome of process() once process_read() has answered `code`
        over the parsed request `r`, with `w`, `iv`, `size`, `o` and
        `file` the response buffer, segments, file size, surrounding fields
        and path buffer before: without a request nothing changes past the
        parse; with one, the response is built and settled. */
    ghost predicate Answered(code: HttpCode, r: ReadState, w: WriteBuf, iv: seq<IoVec>, size: nat,
                             o: Around, file: seq<char>)
      reads this, readBuf, writeBuf, ivs, realFile, users
      requires 0 <= ivCount <= ivs.Length && WellSized(w)
    {
      if code == NoRequest then
        && (ReadView(), WriteView(), IvView()) == (r, w, iv)
        && AroundView() == o && realFile[..] == file
      else
        Responded(BuildResponse(code, r.linger, size, w, iv), r, o, file)
    }

    /** The outcome of a response `b` built over the parsed request `r`,
        with `o` and `file` the surrounding fields and path buffer before:
        on success the request stays, the response and its segments are in
        place and the socket waits for writability; on failure the
        segments stay, and the connection is closed as close_conn() does
        and reset as init() does. */
    ghost predicate Responded(b: Built, r: ReadState, o: Around, file: seq<char>)
      reads this, readBuf, writeBuf, ivs, realFile, users
      requires 0 <= ivCount <= ivs.Length
    {
      && IvView() == b.iv
      && if b.ok then
        && (ReadView(), WriteView()) == (r, b.w)
        && AroundView() == AfterArm(o) && realFile[..] == file
      else
        && Fresh(ReadView()) && writeIdx == 0 && AroundView() == AfterClose(o)
        && AllNul(readBuf[..]) && AllNul(writeBuf[..]) && AllNul(realFile[..])
    }

    /** The rest of process() once a request is in: build the response for
        `code`; then wait for writability, or close when building failed. */
    method Respond(code: HttpCode)
      requires Valid()
      modifies this, readBuf, writeBuf, realFile, ivs, users
      ensures Valid() && fileStat == old(fileStat)
      ensures Responded(BuildResponse(code, old(linger), old(FileSize()), old(WriteView()), old(IvView())),
                        old(ReadView()), old(AroundView()), old(realFile[..]))
    {
      ghost var b := BuildResponse(code, linger, FileSize(), WriteView(), IvView());
      ghost var r, o, file := ReadView(), AroundView(), realFile[..];
      assert ReadSideValid();
      var ok := ProcessWrite(code);
      assert Valid();
      Settle(ok, b, r, o, file);
    }

    /** The end of process() for the response `b` built over the parsed
        request `r`, with `o` and `file` the surrounding fields and path
        buffer as they stand: a built response waits for writability; a
        failed one closes the connection. */
    method Settle(ok: bool, ghost b: Built, ghost r: ReadState, ghost o: Around, ghost file: seq<char>)
      requires Valid() && b.ok == ok && IvView() == b.iv
      requires ok ==> (ReadView(), WriteView()) == (r, b.w)
      requires AroundView() == o && realFile[..] == file
      modifies this, readBuf, writeBuf, realFile, users
      ensures Valid() && fileStat == old(fileStat)
      ensures Responded(b, r, o, file)
    {
      if !ok {
        CloseConn();
        return;
      }
      ArmWrite();
    }
  }

  /** write()'s writev() loop: the counts are added up against `toSend`
      until they reach it, or an answer other than a count ends it. */
  method SendLoop(toSend: int, script: seq<SendResult>) returns (end: WriteEnd)
    requires 0 < toSend
    ensures end == WriteLoop(toSend, 0, script)
  {
    var have := 0;
    var i := 0;
    while true
      invariant 0 <= i <= |script| && 0 <= have < toSend
      invariant WriteLoop(toSend, have, script[i..]) == WriteLoop(toSend, 0, script)
      decreases |script| - i
    {
      var answer := if i < |script| then script[i] else Full;
      match answer
      case Full =>
        return Blocked;
      case SendError =>
        return Broken;
      case Sent(n) =>
        have := have + n;
        if toSend <= have {
          return Drained;
        }
        i := i + 1;
    }
  }
}
