/** The state vocabulary of an HTTP connection: capacities, the four enums and
    the small value types that stand for pointers, scatter-gather segments,
    libevent registrations and stat() answers. */
module HttpTypes {

  /** Capacity of the resolved-path buffer m_real_file. */
  const FILENAME_LEN: int := 200
  /** Capacity of the request buffer m_read_buf. */
  const READ_BUFFER_SIZE: int := 2048
  /** Capacity of the response-header buffer m_write_buf. */
  const WRITE_BUFFER_SIZE: int := 1024

  datatype Option<T> = None | Some(value: T)

  function Min(a: int, b: int): int { if a <= b then a else b }

  /** Request methods; only Get is ever accepted. */
  datatype Method = Get | Post | Head | Put | Delete | Trace | Options | Connect | Patch

  /** The main state machine: request line, header lines, body. */
  datatype CheckState = RequestLine | Header | Content

  /** Outcome of parsing and resolving a request. */
  datatype HttpCode =
    | NoRequest | GetRequest | BadRequest | NoResource
    | ForbiddenRequest | FileRequest | InternalError | ClosedConnection

  /** The line tokenizer's tri-state answer. */
  datatype LineStatus = LineOk | LineBad | LineOpen

  /** A `char*` into the read buffer: null, or an offset from its start. */
  datatype Ptr = Null | At(offset: nat)

  /** What an iovec segment points at. */
  datatype Region = WriteBuffer | FileMapping

  /** One `struct iovec`: a base region and a byte count. */
  datatype IoVec = IoVec(base: Region, len: int)

  /** A libevent `struct event*`: freed (nullptr), registered but not
      pending, or pending (added to the event base). */
  datatype EventReg = Freed | Idle | Armed

  /** The answer stat() gives for a path: failure, or the mode bits and
      size of the file. */
  datatype StatInfo = Missing | Found(mode: bv32, size: nat)

  /** event_add: a live registration becomes pending. */
  function Added(e: EventReg): EventReg {
    if e == Freed then Freed else Armed
  }

  /** event_del: a live registration stops being pending. */
  function Deleted(e: EventReg): EventReg {
    if e == Freed then Freed else Idle
  }

  /** recv() into buf + idx: the bytes `d` take the place of the ones at
      idx and nothing else in the buffer changes. */
  function Landed(buf: seq<char>, idx: nat, d: seq<char>): (r: seq<char>)
    requires idx + |d| <= |buf|
    ensures |r| == |buf|
    ensures r[..idx] == buf[..idx] && r[idx..idx + |d|] == d
    ensures r[idx + |d|..] == buf[idx + |d|..]
  {
    var r := buf[..idx] + d + buf[idx + |d|..];
    assert r[..idx] == buf[..idx];
    assert r[idx..idx + |d|] == d;
    r
  }
}
