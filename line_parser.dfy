/** The line tokenizer (parse_line): a forward scan of the read buffer from
    m_checked_idx to m_read_idx that finds a CR LF terminator, overwrites it
    with two NULs in place and answers LINE_OK, LINE_OPEN or LINE_BAD. This
    is the line framing of section 3 of RFC 7230, with a narrow bare-LF
    leniency in the spirit of its section 3.5. */
module LineParser {
  import opened HttpTypes
  import opened CStrings

  predicate IsBreak(c: char) { c == '\r' || c == '\n' }

  /** No CR or LF among the first n bytes of the buffer. */
  ghost predicate NoBreakBefore(buf: seq<char>, n: int) {
    0 <= n <= |buf| && forall k :: 0 <= k < n ==> !IsBreak(buf[k])
  }

  /** The scan parse_line makes from cursor c with r bytes received: the
      status, and the cursor where it stops. */
  function ScanLine(buf: seq<char>, c: nat, r: nat): (res: (LineStatus, nat))
    requires c <= r <= |buf|
    ensures c <= res.1 <= r
    ensures forall k :: c <= k < res.1 - (if res.0 == LineOk then 2 else 0) ==> !IsBreak(buf[k])
    ensures res.0 == LineOpen ==> res.1 == r || (res.1 + 1 == r && buf[res.1] == '\r')
    ensures res.0 == LineOk ==> c < res.1 && 2 <= res.1 && buf[res.1 - 2] == '\r' && buf[res.1 - 1] == '\n'
    ensures res.0 == LineBad ==>
      && res.1 < r
      && ((buf[res.1] == '\r' && res.1 + 1 < r && buf[res.1 + 1] != '\n') ||
          (buf[res.1] == '\n' && !(res.1 > 1 && buf[res.1 - 1] == '\r')))
    decreases r - c
  {
    if c == r then (LineOpen, c)
    else if buf[c] == '\r' then
      if c + 1 == r then (LineOpen, c)
      else if buf[c + 1] == '\n' then (LineOk, c + 2)
      else (LineBad, c)
    else if buf[c] == '\n' then
      if c > 1 && buf[c - 1] == '\r' then (LineOk, c + 1)
      else (LineBad, c)
    else ScanLine(buf, c + 1, r)
  }

  /** parse_line in full: status, new cursor and the buffer after the two
      terminator bytes of a complete line are overwritten with NUL. */
  function LineStep(buf: seq<char>, c: nat, r: nat): (res: (LineStatus, nat, seq<char>))
    requires c <= r <= |buf|
    ensures (res.0, res.1) == ScanLine(buf, c, r)
    ensures |res.2| == |buf|
    ensures res.0 != LineOk ==> res.2 == buf
    ensures res.0 == LineOk ==> forall k :: 0 <= k < |buf| ==>
      res.2[k] == if k == res.1 - 2 || k == res.1 - 1 then NUL else buf[k]
  {
    var (status, cursor) := ScanLine(buf, c, r);
    if status == LineOk then (status, cursor, buf[cursor - 2 := NUL][cursor - 1 := NUL])
    else (status, cursor, buf)
  }

  /** Feeding the bytes in two installments finds the same line as feeding
      them at once: a LINE_OK or LINE_BAD answer does not change when more
      bytes arrive, and after LINE_OPEN, resuming from the cursor it left
      (on a trailing CR, if any) gives the answer a scan from the original
      cursor gives. Only the bytes already received need to agree. */
  lemma {:induction false} ScanLineResumes(b1: seq<char>, b2: seq<char>, c: nat, r1: nat, r2: nat)
    requires c <= r1 <= r2 <= |b2| && r1 <= |b1| && b1[..r1] == b2[..r1]
    ensures ScanLine(b1, c, r1).0 != LineOpen ==> ScanLine(b2, c, r2) == ScanLine(b1, c, r1)
    ensures ScanLine(b1, c, r1).0 == LineOpen ==>
      ScanLine(b2, ScanLine(b1, c, r1).1, r2) == ScanLine(b2, c, r2)
    decreases r1 - c
  {
    assert forall k :: 0 <= k < r1 ==> b1[k] == b2[k] by {
      forall k | 0 <= k < r1 ensures b1[k] == b2[k] {
        assert b1[..r1][k] == b2[..r1][k];
      }
    }
    if c < r1 && !IsBreak(b1[c]) {
      ScanLineResumes(b1, b2, c + 1, r1, r2);
    }
  }

  /** The scan moves over non-break bytes without changing its answer. */
  lemma {:induction false} ScanLineSkips(buf: seq<char>, c: nat, p: nat, r: nat)
    requires c <= p <= r <= |buf|
    requires forall k :: c <= k < p ==> !IsBreak(buf[k])
    ensures ScanLine(buf, c, r) == ScanLine(buf, p, r)
    decreases p - c
  {
    if c < p {
      ScanLineSkips(buf, c + 1, p, r);
    }
  }

  /** With no CR or LF before the cursor, a line is complete only at a CR LF
      pair the scan itself reached: the bare-LF branch never answers
      LINE_OK, so a lone LF is LINE_BAD. The tokenizer keeps this
      condition: afterwards there is no CR or LF before the new cursor. */
  lemma {:induction false} ScanLineUnderInvariant(buf: seq<char>, c: nat, r: nat)
    requires c <= r <= |buf| && NoBreakBefore(buf, c)
    ensures var res := LineStep(buf, c, r);
      && (res.0 == LineOk ==> c + 2 <= res.1)
      && (res.0 == LineBad && buf[res.1] == '\n' ==> res.1 == 0 || buf[res.1 - 1] != '\r')
      && NoBreakBefore(res.2, res.1)
    decreases r - c
  {
    if c < r && !IsBreak(buf[c]) {
      ScanLineUnderInvariant(buf, c + 1, r);
    }
  }
}
