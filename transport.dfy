/** The two I/O loops of a connection: read() drains recv() into the read
    buffer and write() repeats writev() until enough bytes are reported
    sent. The kernel is an oracle: a script of the answers recv() and
    writev() give, call by call. */
module Transport {
  import opened HttpTypes

  /** One recv() answer: bytes, EAGAIN, 0 for an orderly shutdown, or
      another error. */
  datatype RecvResult = Received(bytes: seq<char>) | Again | Closed | Error

  /** recv() never returns more bytes than asked for: each chunk of the
      script fits in the room left when it arrives. */
  predicate Fits(room: int, script: seq<RecvResult>)
    decreases |script|
  {
    script == [] ||
    match script[0]
    case Received(d) => |d| <= room && Fits(room - |d|, script[1..])
    case _ => true
  }

  /** The bytes of the chunks before the first answer that is not a
      non-empty chunk. */
  function Arrived(script: seq<RecvResult>): (a: seq<char>)
    decreases |script|
  {
    if script == [] then []
    else match script[0]
      case Received(d) => if |d| > 0 then d + Arrived(script[1..]) else []
      case _ => []
  }

  /** The first answer that is not a non-empty chunk is EAGAIN, or the
      script runs out (no data pending is EAGAIN too). */
  predicate EndsInAgain(script: seq<RecvResult>)
    decreases |script|
  {
    script == [] ||
    match script[0]
    case Received(d) => |d| > 0 && EndsInAgain(script[1..])
    case Again => true
    case _ => false
  }

  /** What read() leaves: its answer, the buffer and m_read_idx. */
  datatype ReadOutcome = ReadOutcome(ok: bool, buf: seq<char>, idx: int)

  /** read()'s loop from m_read_idx = idx: each chunk lands at the index,
      which moves past it. A zero-length recv(), asked for when the buffer
      has just filled, answers 0 and reads as a closed peer. */
  function RecvLoop(buf: seq<char>, idx: int, script: seq<RecvResult>): (r: ReadOutcome)
    requires |buf| == READ_BUFFER_SIZE && 0 <= idx <= READ_BUFFER_SIZE
    requires Fits(READ_BUFFER_SIZE - idx, script)
    ensures |r.buf| == READ_BUFFER_SIZE && idx <= r.idx <= READ_BUFFER_SIZE
    decreases |script|
  {
    if idx == READ_BUFFER_SIZE then ReadOutcome(false, buf, idx)
    else if script == [] then ReadOutcome(true, buf, idx)
    else match script[0]
      case Again => ReadOutcome(true, buf, idx)
      case Closed => ReadOutcome(false, buf, idx)
      case Error => ReadOutcome(false, buf, idx)
      case Received(d) =>
        if |d| == 0 then ReadOutcome(false, buf, idx)
        else RecvLoop(Landed(buf, idx, d), idx + |d|, script[1..])
  }

  /** read(): false at once on a full buffer, otherwise the loop. */
  function ReadRun(buf: seq<char>, idx: int, script: seq<RecvResult>): (r: ReadOutcome)
    requires |buf| == READ_BUFFER_SIZE && 0 <= idx <= READ_BUFFER_SIZE
    requires Fits(READ_BUFFER_SIZE - idx, script)
    ensures |r.buf| == READ_BUFFER_SIZE && idx <= r.idx <= READ_BUFFER_SIZE
  {
    if idx >= READ_BUFFER_SIZE then ReadOutcome(false, buf, idx) else RecvLoop(buf, idx, script)
  }

  /** The loop appends exactly the bytes that arrived before it stopped,
      leaves the rest of the buffer alone, and succeeds exactly when it
      stopped on EAGAIN with room still left. */
  lemma {:induction false} RecvLoopReads(buf: seq<char>, idx: int, script: seq<RecvResult>)
    requires |buf| == READ_BUFFER_SIZE && 0 <= idx <= READ_BUFFER_SIZE
    requires Fits(READ_BUFFER_SIZE - idx, script)
    ensures var r := RecvLoop(buf, idx, script);
      && r.idx == idx + |Arrived(script)|
      && r.buf[..r.idx] == buf[..idx] + Arrived(script)
      && r.buf[r.idx..] == buf[r.idx..]
      && (r.ok <==> EndsInAgain(script) && r.idx < READ_BUFFER_SIZE)
    decreases |script|
  {
    if script != [] && script[0].Received? && |script[0].bytes| > 0 {
      var d := script[0].bytes;
      var idx1 := idx + |d|;
      var buf1 := Landed(buf, idx, d);
      RecvLoopReads(buf1, idx1, script[1..]);
      var r := RecvLoop(buf1, idx1, script[1..]);
      LandedThenAppended(buf, idx, d, r.buf, r.idx, Arrived(script[1..]));
    }
  }

  /** A chunk landed at idx, followed by more bytes landed after it, is
      the chunk and those bytes appended at idx. */
  lemma LandedThenAppended(buf: seq<char>, idx: nat, d: seq<char>, rb: seq<char>, ri: nat, rest: seq<char>)
    requires idx + |d| <= ri <= |buf| == |rb|
    requires rb[..ri] == Landed(buf, idx, d)[..idx + |d|] + rest
    requires rb[ri..] == Landed(buf, idx, d)[ri..]
    ensures rb[..ri] == buf[..idx] + (d + rest)
    ensures rb[ri..] == buf[ri..]
  {
    var l := Landed(buf, idx, d);
    assert l[..idx + |d|] == l[..idx] + l[idx..idx + |d|];
    assert l[ri..] == l[idx + |d|..][ri - idx - |d|..];
    assert buf[ri..] == buf[idx + |d|..][ri - idx - |d|..];
  }

  /** read() appends exactly the bytes that arrived before its loop
      stopped and succeeds exactly when the loop stopped on EAGAIN with
      room still left; a full buffer fails at once and reads nothing. */
  lemma ReadRunReads(buf: seq<char>, idx: int, script: seq<RecvResult>)
    requires |buf| == READ_BUFFER_SIZE && 0 <= idx <= READ_BUFFER_SIZE
    requires Fits(READ_BUFFER_SIZE - idx, script)
    ensures var r := ReadRun(buf, idx, script);
      && r.idx == idx + |Arrived(script)|
      && r.buf[..r.idx] == buf[..idx] + Arrived(script)
      && r.buf[r.idx..] == buf[r.idx..]
      && (r.ok <==> EndsInAgain(script) && r.idx < READ_BUFFER_SIZE)
  {
    RecvLoopReads(buf, idx, script);
  }

  // ---------------------------------------------------------------------
  // write()

  /** One writev() answer: a count of bytes, EAGAIN, or another error. */
  datatype SendResult = Sent(n: nat) | Full | SendError

  /** How write()'s loop ends: EAGAIN (answer true, try again later), an
      error (unmap, answer false), or every byte counted as sent. */
  datatype WriteEnd = Blocked | Broken | Drained

  /** write()'s loop: writev() counts are added up against `toSend`, the
      pending bytes of the write buffer; an exhausted script is EAGAIN. */
  function WriteLoop(toSend: int, have: int, script: seq<SendResult>): (e: WriteEnd)
    ensures e == Drained ==> have + SentBeforeStop(script) >= toSend
    ensures e == Broken ==> StopOf(script) == Some(SendError)
    ensures e == Blocked ==> StopOf(script) != Some(SendError)
    decreases |script|
  {
    if script == [] then Blocked
    else match script[0]
      case Full => Blocked
      case SendError => Broken
      case Sent(n) => if toSend <= have + n then Drained else WriteLoop(toSend, have + n, script[1..])
  }

  /** The sum of the counts before the first answer that is not a count. */
  function SentBeforeStop(script: seq<SendResult>): nat
    decreases |script|
  {
    if script == [] || !script[0].Sent? then 0 else script[0].n + SentBeforeStop(script[1..])
  }

  /** The first answer that is not a count. */
  function StopOf(script: seq<SendResult>): Option<SendResult>
    decreases |script|
  {
    if script == [] then None
    else if script[0].Sent? then StopOf(script[1..])
    else Some(script[0])
  }

  /** write()'s loop drains exactly when the counts before the first
      other answer add up to the pending bytes; otherwise that answer
      decides between EAGAIN and failure. */
  lemma {:induction false} WriteLoopEnds(toSend: int, have: int, script: seq<SendResult>)
    requires have < toSend
    ensures WriteLoop(toSend, have, script) == Drained <==> have + SentBeforeStop(script) >= toSend
    ensures WriteLoop(toSend, have, script) == Broken <==>
      have + SentBeforeStop(script) < toSend && StopOf(script) == Some(SendError)
    decreases |script|
  {
    if script != [] && script[0].Sent? && have + script[0].n < toSend {
      WriteLoopEnds(toSend, have + script[0].n, script[1..]);
    }
  }

  /** Only m_write_idx is counted: a single writev() that reports the
      header bytes as sent ends the response, however many bytes of the
      mapped file the second segment still holds. */
  lemma HeaderBytesEndTheResponse(writeIdx: nat)
    ensures WriteLoop(writeIdx, 0, [Sent(writeIdx)]) == Drained
  {
  }
}
