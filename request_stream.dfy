/** Whole requests through process_read: a GET request line, header lines
    and the empty line that ends them, each line ended by CR LF. The lemmas
    follow the loop line by line. They show what one run over the whole
    request leaves behind, and that the bytes may arrive in two reads split
    anywhere before the last one without changing what is parsed. */
module RequestStream {
  import opened HttpTypes
  import opened CStrings
  import opened LineParser
  import opened RequestLine
  import opened RequestParser

  /** The text of a request: the five parts of its request line and its
      header lines, without their terminators. */
  datatype RequestText = RequestText(m: seq<char>, b1: seq<char>, url: seq<char>, b2: seq<char>,
                                     version: seq<char>, headers: seq<seq<char>>)

  function Line(q: RequestText): seq<char> {
    q.m + q.b1 + q.url + q.b2 + q.version
  }

  /** No CR, LF or NUL in the line. */
  predicate Clean(l: seq<char>) {
    forall i :: 0 <= i < |l| ==> !IsBreak(l[i]) && l[i] != NUL
  }

  /** A well-formed request line whose URL holds no CR, LF or NUL, and
      header lines that are neither empty nor hold a CR, LF or NUL. */
  ghost predicate WellFormed(q: RequestText) {
    && IsSplit(Line(q), q.m, q.b1, q.url, q.b2, q.version)
    && NUL !in q.url && '\r' !in q.url && '\n' !in q.url
    && forall i :: 0 <= i < |q.headers| ==> q.headers[i] != [] && Clean(q.headers[i])
  }

  /** Lines, each followed by CR LF. */
  function Join(ls: seq<seq<char>>): seq<char> {
    if ls == [] then [] else Join(ls[..|ls| - 1]) + ls[|ls| - 1] + "\r\n"
  }

  /** The request line, the header lines and the empty line. */
  function Lines(q: RequestText): seq<seq<char>> {
    [Line(q)] + q.headers + [[]]
  }

  /** The bytes a client sends for the request. */
  function Bytes(q: RequestText): seq<char> {
    Join(Lines(q))
  }

  /** Where line k starts among the joined lines. */
  function Start(ls: seq<seq<char>>, k: nat): nat
    requires k <= |ls|
  {
    if k == 0 then 0 else Start(ls, k - 1) + |ls[k - 1]| + 2
  }

  /** The header lines parse_headers has seen when line k is next. */
  function Before(q: RequestText, k: nat): seq<seq<char>>
    requires k <= |q.headers| + 1
  {
    q.headers[..if k == 0 then 0 else k - 1]
  }

  // ---------------------------------------------------------------------
  // What the header lines ask for

  /** A Connection header whose value is keep-alive, in any case. */
  predicate KeepAliveLine(h: seq<char>) {
    HasPrefixIgnoreCase(h, "Connection:") && EqualIgnoreCase(FieldValue(h, 11), "keep-alive")
  }

  predicate ContentLengthLine(h: seq<char>) {
    HasPrefixIgnoreCase(h, "Content-Length:")
  }

  /** The connection is to be kept when some Connection header says
      keep-alive. */
  ghost predicate KeepAlive(hs: seq<seq<char>>) {
    exists i :: 0 <= i < |hs| && KeepAliveLine(hs[i])
  }

  /** The body length the headers declare: atol of the value of the last
      Content-Length header, cut to an int, or 0 without one. */
  function DeclaredLength(hs: seq<seq<char>>): int {
    if hs == [] then 0
    else if ContentLengthLine(hs[|hs| - 1]) then Int32(Strtol(FieldValue(hs[|hs| - 1], 15)))
    else DeclaredLength(hs[..|hs| - 1])
  }

  /** How a run over the whole request ends: a request without a body is
      complete; with a body the run waits for it, unless the length is so
      large that parse_content's sum leaves the range of `int`. */
  function Outcome(q: RequestText): Parsed {
    var n := DeclaredLength(q.headers);
    if n == 0 then Complete
    else if n + |Bytes(q)| > INT_MAX then Overrun
    else NeedMore
  }

  /** The parse state records what the request says: GET, its URL and
      version, the keep-alive flag and the declared length, and the body
      state exactly when a body is declared. */
  ghost predicate ParsedAs(q: RequestText, r: ReadState) {
    && Consistent(r)
    && r.requestMethod == Get
    && r.url.At? && UrlText(r) == q.url
    && r.version.At? && VersionText(r) == q.version
    && r.linger == KeepAlive(q.headers)
    && r.contentLength == DeclaredLength(q.headers)
    && r.checkState == (if DeclaredLength(q.headers) == 0 then Header else Content)
  }

  /** The parse state while line k is the next to be delivered. */
  ghost predicate Parsing(q: RequestText, s: ReadState, k: nat) {
    && Consistent(s) && k < |Lines(q)|
    && OnLine(q, s, k) && Seen(q, s, k) && Cut(q, s, k)
  }

  /** The cursors are on line k, and the bytes from its start on are the
      request's. */
  ghost predicate OnLine(q: RequestText, s: ReadState, k: nat)
    requires k < |Lines(q)|
  {
    var st := Start(Lines(q), k);
    && s.startLine == st && st <= s.checkedIdx <= st + |Lines(q)[k]|
    && s.readIdx <= |Bytes(q)| && s.readIdx <= |s.buf|
    && forall i :: st <= i < s.readIdx ==> s.buf[i] == Bytes(q)[i]
  }

  /** m_linger and m_content_length hold what the header lines before
      line k said. */
  ghost predicate Seen(q: RequestText, s: ReadState, k: nat)
    requires k < |Lines(q)|
  {
    s.linger == KeepAlive(Before(q, k)) && s.contentLength == DeclaredLength(Before(q, k))
  }

  /** Before the request line the state is the request-line state; after
      it, the header state with GET and the URL and version read back. */
  ghost predicate Cut(q: RequestText, s: ReadState, k: nat)
    requires k < |Lines(q)|
  {
    if k == 0 then s.checkState == RequestLine
    else s.checkState == Header && s.requestMethod == Get && TextsBefore(s, q.url, q.version, Start(Lines(q), k))
  }

  /** The URL and version pointers read back `u` and `v`, both strings
      ending before `st`. */
  ghost predicate TextsBefore(s: ReadState, u: seq<char>, v: seq<char>, st: nat) {
    && s.url.At? && s.url.offset + |u| < st <= |s.buf| && CString(s.buf, s.url.offset) == u
    && s.version.At? && s.version.offset + |v| < st && CString(s.buf, s.version.offset) == v
  }

  // ---------------------------------------------------------------------
  // Layout of the bytes

  /** Dropping lines after line k does not move it. */
  lemma {:induction false} StartOfPrefix(ls: seq<seq<char>>, j: nat, k: nat)
    requires k <= j <= |ls|
    ensures Start(ls[..j], k) == Start(ls, k)
  {
    if k > 0 {
      StartOfPrefix(ls, j, k - 1);
      assert ls[..j][k - 1] == ls[k - 1];
    }
  }

  /** The bytes end where a line after the last one would start. */
  lemma {:induction false} StartOfEnd(ls: seq<seq<char>>)
    ensures Start(ls, |ls|) == |Join(ls)|
    decreases |ls|
  {
    if ls != [] {
      var init := ls[..|ls| - 1];
      StartOfEnd(init);
      StartOfPrefix(ls, |ls| - 1, |ls| - 1);
    }
  }

  /** Line k lies at its start, followed by CR LF. */
  lemma {:induction false} JoinAt(ls: seq<seq<char>>, k: nat)
    requires k < |ls|
    ensures var st := Start(ls, k);
      && Start(ls, k + 1) <= |Join(ls)|
      && Join(ls)[st..st + |ls[k]|] == ls[k]
      && Join(ls)[st + |ls[k]|] == '\r' && Join(ls)[st + |ls[k]| + 1] == '\n'
    decreases |ls|
  {
    var init := ls[..|ls| - 1];
    var last := ls[|ls| - 1];
    assert Join(ls) == Join(init) + last + "\r\n";
    StartOfEnd(init);
    StartOfPrefix(ls, |ls| - 1, k);
    if k == |ls| - 1 {
      assert Start(init, k) == |Join(init)|;
    } else {
      JoinAt(init, k);
      StartOfPrefix(ls, |ls| - 1, k + 1);
      assert init[k] == ls[k];
      var st := Start(ls, k);
      assert Join(ls)[st..st + |ls[k]|] == Join(init)[st..st + |ls[k]|];
      assert Join(ls)[st + |ls[k]|] == Join(init)[st + |ls[k]|];
      assert Join(ls)[st + |ls[k]| + 1] == Join(init)[st + |ls[k]| + 1];
    }
    StartOfEnd(ls);
  }

  /** Every line of a well-formed request is free of CR, LF and NUL. */
  lemma {:induction false} LineClean(q: RequestText, k: nat)
    requires WellFormed(q) && k < |Lines(q)|
    ensures Clean(Lines(q)[k])
  {
    if k == 0 {
      SplitPlain(q.m, q.b1, q.url, q.b2, q.version);
    } else if k <= |q.headers| {
      assert Lines(q)[k] == q.headers[k - 1];
    } else {
      assert Lines(q)[k] == [];
    }
  }

  // ---------------------------------------------------------------------
  // The header fields

  /** A Content-Length header is not a Connection header: the names differ
      in their fourth byte. */
  lemma ContentLengthNotConnection(h: seq<char>)
    requires ContentLengthLine(h)
    ensures !HasPrefixIgnoreCase(h, "Connection:")
  {
    assert Lower(h[..15][3]) == Lower("Content-Length:"[3]);
    assert h[..11][3] == h[..15][3];
  }

  /** parse_headers on a header line sets m_linger when it is a keep-alive
      Connection header and m_content_length when it is a Content-Length
      header, and leaves them as they were otherwise. */
  lemma FieldStepFields(s: ReadState, h: seq<char>, text: nat)
    requires text + |h| <= |s.buf|
    ensures var r := FieldStep(s, h, text);
      && r.linger == (s.linger || KeepAliveLine(h))
      && r.contentLength == if ContentLengthLine(h) then Int32(Strtol(FieldValue(h, 15))) else s.contentLength
  {
    if ContentLengthLine(h) {
      ContentLengthNotConnection(h);
    }
  }

  /** One more header line: keep-alive when it was already, or when the
      line says so. */
  lemma {:induction false} KeepAliveSnoc(hs: seq<seq<char>>, h: seq<char>)
    ensures KeepAlive(hs + [h]) == (KeepAlive(hs) || KeepAliveLine(h))
  {
    var xs := hs + [h];
    if KeepAlive(xs) {
      var i :| 0 <= i < |xs| && KeepAliveLine(xs[i]);
      if i < |hs| {
        assert xs[i] == hs[i];
      }
    }
    if KeepAlive(hs) {
      var i :| 0 <= i < |hs| && KeepAliveLine(hs[i]);
      assert xs[i] == hs[i];
    }
    if KeepAliveLine(h) {
      assert xs[|hs|] == h;
    }
  }

  // ---------------------------------------------------------------------
  // One line at a time

  /** parse_line delivers a line free of CR, LF and NUL that lies at `st`
      followed by CR LF, from any cursor inside it: the two terminator
      bytes become NUL, the cursor moves past them, and the C string at
      `st` is the line. */
  lemma {:induction false} Deliver(s: ReadState, st: nat, l: seq<char>) returns (s1: ReadState)
    requires Consistent(s) && Clean(l)
    requires st <= s.checkedIdx <= st + |l| && st + |l| + 2 <= s.readIdx
    requires s.buf[st..st + |l|] == l && s.buf[st + |l|] == '\r' && s.buf[st + |l| + 1] == '\n'
    ensures var e := st + |l|;
      && ParseLineStep(s) == (LineOk, s1)
      && s1 == s.(buf := s.buf[e := NUL][e + 1 := NUL], checkedIdx := e + 2)
      && CString(s1.buf, st) == l
  {
    var e := st + |l|;
    forall i | s.checkedIdx <= i < e ensures !IsBreak(s.buf[i]) {
      assert s.buf[i] == s.buf[st..e][i - st];
    }
    ScanLineSkips(s.buf, s.checkedIdx, e, s.readIdx);
    var b := s.buf[e := NUL][e + 1 := NUL];
    assert b[st..e] == l;
    CStringUnique(b, st, l);
    s1 := s.(buf := b, checkedIdx := e + 2);
  }

  /** While such a line has not all arrived, the loop stops with
      NO_REQUEST and only the cursor moves, staying inside the line (on a
      trailing CR, if the CR has arrived without its LF). */
  lemma {:induction false} Stalled(s: ReadState, st: nat, l: seq<char>) returns (t: ReadState)
    requires Consistent(s) && Clean(l) && s.checkState != Content
    requires st <= s.checkedIdx <= st + |l| && s.readIdx < st + |l| + 2
    requires forall i :: s.checkedIdx <= i < s.readIdx && i < st + |l| ==> s.buf[i] == l[i - st]
    requires s.readIdx == st + |l| + 1 ==> s.buf[st + |l|] == '\r'
    ensures ReadLoop(s, LineOk) == (NeedMore, t)
    ensures t == s.(checkedIdx := t.checkedIdx) && s.checkedIdx <= t.checkedIdx <= st + |l|
  {
    var e := st + |l|;
    var r := s.readIdx;
    var p := if r <= e then r else e;
    forall i | s.checkedIdx <= i < p ensures !IsBreak(s.buf[i]) {
      assert s.buf[i] == l[i - st];
    }
    ScanLineSkips(s.buf, s.checkedIdx, p, r);
    assert ScanLine(s.buf, p, r) == (LineOpen, p);
    t := s.(checkedIdx := p);
    assert ParseLineStep(s) == (LineOpen, t);
  }

  /** The bytes copied from `data` hold a line that lies at `st` in it
      followed by CR LF, as far as they reach. */
  lemma {:induction false} LineCopied(buf: seq<char>, data: seq<char>, st: nat, l: seq<char>, r: nat)
    requires st + |l| + 2 <= |data| && r <= |buf| && r <= |data|
    requires data[st..st + |l|] == l && data[st + |l|] == '\r' && data[st + |l| + 1] == '\n'
    requires forall i :: st <= i < r ==> buf[i] == data[i]
    ensures var e := st + |l|;
      && (e + 2 <= r ==> buf[st..e] == l && buf[e] == '\r' && buf[e + 1] == '\n')
      && (forall i :: st <= i < r && i < e ==> buf[i] == l[i - st])
      && (r == e + 1 ==> buf[e] == '\r')
  {
    var e := st + |l|;
    forall i | st <= i < r && i < e ensures buf[i] == l[i - st] {
      assert data[i] == data[st..e][i - st];
    }
    if e + 2 <= r {
      assert buf[st..e] == l;
    }
  }

  /** Line k of the request as the buffer holds it while it is next. */
  lemma {:induction false} LineInBuffer(q: RequestText, s: ReadState, k: nat)
    requires WellFormed(q) && Parsing(q, s, k)
    ensures var ls := Lines(q);
            var st := Start(ls, k);
            var e := st + |ls[k]|;
      && Clean(ls[k]) && Start(ls, k + 1) == e + 2 <= |Bytes(q)|
      && (e + 2 <= s.readIdx ==> s.buf[st..e] == ls[k] && s.buf[e] == '\r' && s.buf[e + 1] == '\n')
      && (forall i :: s.checkedIdx <= i < s.readIdx && i < e ==> s.buf[i] == ls[k][i - st])
      && (s.readIdx == e + 1 ==> s.buf[e] == '\r')
  {
    var ls := Lines(q);
    LineClean(q, k);
    JoinAt(ls, k);
    LineCopied(s.buf, Bytes(q), Start(ls, k), ls[k], s.readIdx);
  }

  /** Once line k is in the buffer, parse_line delivers it. */
  lemma {:induction false} DeliverLine(q: RequestText, s: ReadState, k: nat) returns (s1: ReadState)
    requires WellFormed(q) && Parsing(q, s, k) && Start(Lines(q), k + 1) <= s.readIdx
    ensures var ls := Lines(q);
            var e := Start(ls, k) + |ls[k]|;
      && ParseLineStep(s) == (LineOk, s1)
      && s1 == s.(buf := s.buf[e := NUL][e + 1 := NUL], checkedIdx := e + 2)
      && CString(s1.buf, Start(ls, k)) == ls[k]
  {
    LineInBuffer(q, s, k);
    s1 := Deliver(s, Start(Lines(q), k), Lines(q)[k]);
  }

  /** While line k is not all in the buffer, the loop stops with
      NO_REQUEST, still on line k. */
  lemma {:induction false} Stall(q: RequestText, s: ReadState, k: nat) returns (t: ReadState)
    requires WellFormed(q) && Parsing(q, s, k) && s.readIdx < Start(Lines(q), k + 1)
    ensures ReadLoop(s, LineOk) == (NeedMore, t) && Parsing(q, t, k) && t.readIdx == s.readIdx
  {
    LineInBuffer(q, s, k);
    t := Stalled(s, Start(Lines(q), k), Lines(q)[k]);
  }

  /** Strings that end before `st` survive any change of the bytes from
      `st` on. */
  lemma {:induction false} TextsKept(s: ReadState, t: ReadState, u: seq<char>, v: seq<char>, st: nat, st': nat)
    requires TextsBefore(s, u, v, st) && |t.buf| == |s.buf| && t.url == s.url && t.version == s.version
    requires forall i :: 0 <= i < st ==> t.buf[i] == s.buf[i]
    requires st <= st' <= |t.buf|
    ensures TextsBefore(t, u, v, st')
  {
    CStringRun(s.buf, s.url.offset);
    assert t.buf[s.url.offset..s.url.offset + |u|] == u;
    CStringUnique(t.buf, s.url.offset, u);
    CStringRun(s.buf, s.version.offset);
    assert t.buf[s.version.offset..s.version.offset + |v|] == v;
    CStringUnique(t.buf, s.version.offset, v);
  }

  /** A well-formed request line at the start of the buffer, once
      delivered, is accepted, and the loop goes on with the header state,
      the URL and version read back and nothing past the line changed. */
  lemma {:induction false} RequestLineTaken(s: ReadState, s1: ReadState, m: seq<char>, b1: seq<char>,
                                            u: seq<char>, b2: seq<char>, v: seq<char>) returns (t: ReadState)
    requires Consistent(s) && s.checkState == RequestLine && s.startLine == 0
    requires IsSplit(m + b1 + u + b2 + v, m, b1, u, b2, v)
    requires ParseLineStep(s) == (LineOk, s1) && CString(s1.buf, 0) == m + b1 + u + b2 + v
    requires s1.checkedIdx == |m + b1 + u + b2 + v| + 2
    ensures Consistent(t) && ReadLoop(s, LineOk) == ReadLoop(t, LineOk)
    ensures t == s1.(startLine := t.startLine, buf := t.buf, checkState := t.checkState,
                     requestMethod := t.requestMethod, url := t.url, version := t.version)
    ensures t.startLine == s1.checkedIdx && t.checkState == Header && t.requestMethod == Get
    ensures TextsBefore(t, u, v, s1.checkedIdx)
    ensures forall i :: s1.checkedIdx <= i < |s1.buf| ==> t.buf[i] == s1.buf[i]
  {
    var s2 := s1.(startLine := s1.checkedIdx);
    GetLineAccepted(s2, m, b1, u, b2, v);
    t := RequestLineStep(s2, 0).1;
    assert ReadLoop(s, LineOk) == Dispatch(s2, 0) == ReadLoop(t, LineOk);
  }

  /** A header line other than the empty one, once delivered, goes through
      parse_headers' field tests and the loop goes on. */
  lemma {:induction false} HeaderTaken(s: ReadState, s1: ReadState, h: seq<char>) returns (t: ReadState)
    requires Consistent(s) && s.checkState == Header
    requires ParseLineStep(s) == (LineOk, s1) && CString(s1.buf, s.startLine) == h && h != []
    ensures s.startLine + |h| <= |s1.buf| && Consistent(t)
    ensures t == FieldStep(s1.(startLine := s1.checkedIdx), h, s.startLine)
    ensures ReadLoop(s, LineOk) == ReadLoop(t, LineOk)
  {
    var s2 := s1.(startLine := s1.checkedIdx);
    assert HeadersStep(s2, s.startLine) == (NoRequest, FieldStep(s2, h, s.startLine));
    t := FieldStep(s2, h, s.startLine);
    assert ReadLoop(s, LineOk) == Dispatch(s2, s.startLine) == ReadLoop(t, LineOk);
  }

  /** The empty line, once delivered, ends the headers: the request is
      complete without a body, and otherwise the loop goes on in the body
      state. */
  lemma {:induction false} HeadersEnded(s: ReadState, s1: ReadState)
    requires Consistent(s) && s.checkState == Header
    requires ParseLineStep(s) == (LineOk, s1) && CString(s1.buf, s.startLine) == []
    ensures var s2 := s1.(startLine := s1.checkedIdx);
      ReadLoop(s, LineOk) ==
        if s.contentLength == 0 then (Complete, s2) else ReadLoop(s2.(checkState := Content), LineOk)
  {
    var s2 := s1.(startLine := s1.checkedIdx);
    assert ReadLoop(s, LineOk) == Dispatch(s2, s.startLine);
  }

  /** Entering the body state with no byte past the headers: the loop waits
      for the body, unless parse_content's sum overflows. */
  lemma {:induction false} BodyAwaited(s: ReadState)
    requires Consistent(s) && s.checkState == Content && s.contentLength > 0
    requires s.startLine == s.checkedIdx == s.readIdx
    ensures ReadLoop(s, LineOk) == (if SumOverflows(s) then Overrun else NeedMore, s)
  {
    assert ReadLoop(s, LineOk) == BodyLine(s, s.startLine);
    if !SumOverflows(s) {
      assert ContentStep(s, s.startLine) == (NoRequest, s);
      assert ScanLine(s.buf, s.checkedIdx, s.readIdx) == (LineOpen, s.checkedIdx);
      assert ReadLoop(s, LineOpen) == (NeedMore, s);
    }
  }

  /** The empty line as the last bytes received: the run ends complete
      without a body, and otherwise in the body state, waiting unless
      parse_content's sum overflows. The cursors move past the CR LF, and
      the fields and the bytes before the line stay as they were. */
  lemma {:induction false} LastLineTaken(s: ReadState)
    requires Consistent(s) && s.checkState == Header && s.contentLength >= 0
    requires s.startLine <= s.checkedIdx && s.startLine + 2 == s.readIdx
    requires s.buf[s.startLine] == '\r' && s.buf[s.startLine + 1] == '\n'
    ensures var r := ReadLoop(s, LineOk);
      && r.0 == (if s.contentLength == 0 then Complete
                 else if s.contentLength + s.readIdx > INT_MAX then Overrun else NeedMore)
      && r.1.checkState == (if s.contentLength == 0 then Header else Content)
      && r.1.startLine == r.1.checkedIdx == r.1.readIdx == s.readIdx && |r.1.buf| == |s.buf|
      && r.1.requestMethod == s.requestMethod && r.1.url == s.url && r.1.version == s.version
      && r.1.linger == s.linger && r.1.contentLength == s.contentLength
      && forall i :: 0 <= i < s.startLine ==> r.1.buf[i] == s.buf[i]
  {
    assert s.buf[s.startLine..s.startLine] == [];
    var s1 := Deliver(s, s.startLine, []);
    HeadersEnded(s, s1);
    if s.contentLength != 0 {
      var s2 := s1.(startLine := s1.checkedIdx);
      BodyAwaited(s2.(checkState := Content));
    }
  }


  /** The request line, once in the buffer, is accepted: the loop goes on
      in the header state with the URL and version read back. */
  lemma {:induction false} AdvanceRequestLine(q: RequestText, s: ReadState) returns (t: ReadState)
    requires WellFormed(q) && Parsing(q, s, 0) && Start(Lines(q), 1) <= s.readIdx
    ensures Parsing(q, t, 1) && t.readIdx == s.readIdx && ReadLoop(s, LineOk) == ReadLoop(t, LineOk)
  {
    var ls := Lines(q);
    assert ls[0] == Line(q);
    var s1 := DeliverLine(q, s, 0);
    t := RequestLineTaken(s, s1, q.m, q.b1, q.url, q.b2, q.version);
    assert OnLine(q, t, 1) by {
      forall i | t.startLine <= i < t.readIdx ensures t.buf[i] == Bytes(q)[i] {
        assert t.buf[i] == s1.buf[i] == s.buf[i];
      }
    }
    assert Seen(q, t, 1) by {
      assert Before(q, 1) == Before(q, 0);
    }
  }

  /** After header line k, m_linger and m_content_length hold what the
      header lines up to it said. */
  lemma {:induction false} SeenNext(q: RequestText, s: ReadState, t: ReadState, k: nat)
    requires 1 <= k <= |q.headers| && Seen(q, s, k)
    requires var h := q.headers[k - 1];
      && t.linger == (s.linger || KeepAliveLine(h))
      && t.contentLength == if ContentLengthLine(h) then Int32(Strtol(FieldValue(h, 15))) else s.contentLength
    ensures Seen(q, t, k + 1)
  {
    var h := q.headers[k - 1];
    assert Before(q, k + 1) == Before(q, k) + [h];
    KeepAliveSnoc(Before(q, k), h);
    assert (Before(q, k) + [h])[..k - 1] == Before(q, k);
  }

  /** Once line k is delivered, the cursors are on line k + 1 and the
      bytes from there on are unchanged. */
  lemma {:induction false} OnNextLine(q: RequestText, s: ReadState, t: ReadState, k: nat)
    requires k + 1 < |Lines(q)| && OnLine(q, s, k)
    requires t.startLine == t.checkedIdx == Start(Lines(q), k + 1) <= s.readIdx
    requires t.readIdx == s.readIdx && |t.buf| == |s.buf|
    requires forall i :: t.startLine <= i < |t.buf| ==> t.buf[i] == s.buf[i]
    ensures OnLine(q, t, k + 1)
  {
  }

  /** A header line, once in the buffer, is recorded and the loop goes on
      with the next line. */
  lemma {:induction false} AdvanceHeader(q: RequestText, s: ReadState, k: nat) returns (t: ReadState)
    requires WellFormed(q) && 1 <= k <= |q.headers| && Parsing(q, s, k) && Start(Lines(q), k + 1) <= s.readIdx
    ensures Parsing(q, t, k + 1) && t.readIdx == s.readIdx && ReadLoop(s, LineOk) == ReadLoop(t, LineOk)
  {
    var ls := Lines(q);
    var st := Start(ls, k);
    var h := q.headers[k - 1];
    assert ls[k] == h;
    LineInBuffer(q, s, k);
    t := HeaderLineTaken(s, h);
    SeenNext(q, s, t, k);
    OnNextLine(q, s, t, k);
    TextsKept(s, t, q.url, q.version, st, Start(ls, k + 1));
  }


  /** A header line that has arrived whole is taken in one step: the
      cursors move past its CR LF, m_linger and m_content_length take what
      it says, and nothing else changes but its two terminator bytes. */
  lemma {:induction false} HeaderLineTaken(s: ReadState, h: seq<char>) returns (t: ReadState)
    requires Consistent(s) && s.checkState == Header && Clean(h) && h != []
    requires s.startLine <= s.checkedIdx <= s.startLine + |h| && s.startLine + |h| + 2 <= s.readIdx
    requires var st := s.startLine;
      s.buf[st..st + |h|] == h && s.buf[st + |h|] == '\r' && s.buf[st + |h| + 1] == '\n'
    ensures Consistent(t) && ReadLoop(s, LineOk) == ReadLoop(t, LineOk)
    ensures t.startLine == t.checkedIdx == s.startLine + |h| + 2 && t.readIdx == s.readIdx
    ensures |t.buf| == |s.buf| && t.checkState == Header && t.requestMethod == s.requestMethod
    ensures t.url == s.url && t.version == s.version
    ensures forall i :: 0 <= i < s.startLine ==> t.buf[i] == s.buf[i]
    ensures forall i :: s.startLine + |h| + 2 <= i < |t.buf| ==> t.buf[i] == s.buf[i]
    ensures t.linger == (s.linger || KeepAliveLine(h))
    ensures t.contentLength == if ContentLengthLine(h) then Int32(Strtol(FieldValue(h, 15))) else s.contentLength
  {
    var s1 := Deliver(s, s.startLine, h);
    t := HeaderTaken(s, s1, h);
    FieldStepFields(s1.(startLine := s1.checkedIdx), h, s.startLine);
  }

  /** The empty line ends the headers: without a declared body the request
      is complete; with one the loop goes to the body state and waits,
      unless parse_content's sum overflows. */
  lemma {:induction false} Finish(q: RequestText, s: ReadState)
    requires WellFormed(q) && Parsing(q, s, |q.headers| + 1) && s.readIdx == |Bytes(q)|
    requires DeclaredLength(q.headers) >= 0
    ensures ReadLoop(s, LineOk).0 == Outcome(q) && ParsedAs(q, ReadLoop(s, LineOk).1)
  {
    var k := |q.headers| + 1;
    var ls := Lines(q);
    var st := Start(ls, k);
    assert ls[k] == [];
    StartOfEnd(ls);
    LineInBuffer(q, s, k);
    assert Before(q, k) == q.headers;
    LastLineTaken(s);
    TextsKept(s, ReadLoop(s, LineOk).1, q.url, q.version, st, st);
  }


  // ---------------------------------------------------------------------
  // Runs of the loop

  /** With all the bytes in, the loop runs from line k to the end. */
  lemma {:induction false} RunToEnd(q: RequestText, s: ReadState, k: nat)
    requires WellFormed(q) && Parsing(q, s, k) && s.readIdx == |Bytes(q)|
    requires DeclaredLength(q.headers) >= 0
    ensures ReadLoop(s, LineOk).0 == Outcome(q) && ParsedAs(q, ReadLoop(s, LineOk).1)
    decreases |q.headers| + 1 - k
  {
    if k == |q.headers| + 1 {
      Finish(q, s);
    } else {
      JoinAt(Lines(q), k);
      var t;
      if k == 0 {
        t := AdvanceRequestLine(q, s);
      } else {
        t := AdvanceHeader(q, s, k);
      }
      RunToEnd(q, t, k + 1);
    }
  }

  /** With only some of the bytes in, the loop stops with NO_REQUEST at the
      first line not yet complete. */
  lemma {:induction false} RunPart(q: RequestText, s: ReadState, k: nat) returns (j: nat, t: ReadState)
    requires WellFormed(q) && Parsing(q, s, k) && s.readIdx < |Bytes(q)|
    ensures ReadLoop(s, LineOk) == (NeedMore, t) && Parsing(q, t, j) && t.readIdx == s.readIdx
    decreases |q.headers| + 1 - k
  {
    var ls := Lines(q);
    if s.readIdx < Start(ls, k + 1) {
      j := k;
      t := Stall(q, s, k);
    } else {
      if k == |q.headers| + 1 {
        StartOfEnd(ls);
        assert false;
      }
      var s1;
      if k == 0 {
        s1 := AdvanceRequestLine(q, s);
      } else {
        s1 := AdvanceHeader(q, s, k);
      }
      j, t := RunPart(q, s1, k + 1);
    }
  }

  /** The bytes of a fresh read land where the request's bytes belong. */
  lemma {:induction false} ReceiveFirst(q: RequestText, s: ReadState, p: nat)
    requires Consistent(s) && Fresh(s) && p <= |Bytes(q)| <= READ_BUFFER_SIZE
    ensures Parsing(q, Receive(s, Bytes(q)[..p]), 0)
  {
    var s0 := Receive(s, Bytes(q)[..p]);
    assert Lines(q)[..0] == [];
    forall i | 0 <= i < p ensures s0.buf[i] == Bytes(q)[i] {
      assert s0.buf[i] == s0.buf[0..p][i];
    }
  }

  /** A read keeps the bytes already received and puts the new ones right
      after them, byte by byte. */
  lemma {:induction false} Appended(s: ReadState, data: seq<char>)
    requires Consistent(s) && s.readIdx + |data| <= READ_BUFFER_SIZE
    ensures var r := Receive(s, data);
      && |r.buf| == |s.buf| && r.url == s.url && r.version == s.version
      && (forall i :: 0 <= i < s.readIdx ==> r.buf[i] == s.buf[i])
      && (forall i :: s.readIdx <= i < r.readIdx ==> r.buf[i] == data[i - s.readIdx])
  {
    var r := Receive(s, data);
    forall i | 0 <= i < s.readIdx ensures r.buf[i] == s.buf[i] {
      assert r.buf[..s.readIdx][i] == s.buf[..s.readIdx][i];
    }
    forall i | s.readIdx <= i < r.readIdx ensures r.buf[i] == data[i - s.readIdx] {
      assert r.buf[i] == r.buf[s.readIdx..r.readIdx][i - s.readIdx];
    }
  }

  /** The rest of the bytes, read later, land after the ones already
      there, and the strings the parse has already cut stay as they are. */
  lemma {:induction false} ReceiveRest(q: RequestText, s: ReadState, k: nat)
    requires Parsing(q, s, k) && |Bytes(q)| <= READ_BUFFER_SIZE
    ensures Parsing(q, Receive(s, Bytes(q)[s.readIdx..]), k)
  {
    var r := s.readIdx;
    var data := Bytes(q)[r..];
    var s1 := Receive(s, data);
    Appended(s, data);
    assert OnLine(q, s1, k) by {
      forall i | s.startLine <= i < s1.readIdx ensures s1.buf[i] == Bytes(q)[i] {
        if r <= i {
          assert data[i - r] == Bytes(q)[i];
        }
      }
    }
    if k > 0 {
      TextsKept(s, s1, q.url, q.version, s.startLine, s.startLine);
    }
  }


  // ---------------------------------------------------------------------
  // The properties

  /** A GET request with header lines, received at once into a fresh
      buffer, is parsed in one run of the loop. The run completes exactly
      when no body is declared; the parse records GET, the URL and the
      version of the request line, keep-alive exactly when a Connection
      header says so, and the last Content-Length given. A negative length,
      which section 3.3.2 of RFC 7230 does not allow, is left to
      BodyCutToContentLength and the Overrun outcome. */
  lemma {:induction false} WholeRequestParsed(q: RequestText, s: ReadState)
    requires WellFormed(q) && Consistent(s) && Fresh(s) && |Bytes(q)| <= READ_BUFFER_SIZE
    requires DeclaredLength(q.headers) >= 0
    ensures var r := ReadLoop(Receive(s, Bytes(q)), LineOk);
      r.0 == Outcome(q) && ParsedAs(q, r.1)
  {
    ReceiveFirst(q, s, |Bytes(q)|);
    assert Bytes(q)[..|Bytes(q)|] == Bytes(q);
    RunToEnd(q, Receive(s, Bytes(q)), 0);
  }

  /** The same request split into two reads at any point before its last
      byte: the first run waits, and the run after the second read ends
      as the single run does and records the same method, URL, version,
      keep-alive flag and length. */
  lemma {:induction false} SplitRequestParsedAlike(q: RequestText, s: ReadState, p: nat)
    requires WellFormed(q) && Consistent(s) && Fresh(s) && |Bytes(q)| <= READ_BUFFER_SIZE
    requires DeclaredLength(q.headers) >= 0 && p < |Bytes(q)|
    ensures var first := ReadLoop(Receive(s, Bytes(q)[..p]), LineOk);
      && first.0 == NeedMore
      && var second := ReadLoop(Receive(first.1, Bytes(q)[p..]), LineOk);
      && second.0 == ReadLoop(Receive(s, Bytes(q)), LineOk).0
      && ParsedAs(q, second.1)
  {
    ReceiveFirst(q, s, p);
    var s0 := Receive(s, Bytes(q)[..p]);
    var j, t := RunPart(q, s0, 0);
    ReceiveRest(q, t, j);
    RunToEnd(q, Receive(t, Bytes(q)[p..]), j);
    WholeRequestParsed(q, s);
  }
}
