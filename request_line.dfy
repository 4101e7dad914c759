/** The request-line parser (parse_request_line) on the read buffer: it cuts
    the line into method, URL and version with NULs, the way strpbrk and
    strspn find them, and accepts only `GET <url> HTTP/1.1` with a URL that
    starts with '/'. The lemmas characterise the accepted lines exactly. */
module RequestLine {
  import opened HttpTypes
  import opened CStrings

  /** What parse_request_line leaves behind: its answer, the buffer with
      the NULs it wrote, whether it set m_method to GET, the m_url it set,
      and the m_version it set if it got that far. */
  datatype LineCut = LineCut(code: HttpCode, buf: seq<char>, isGet: bool, url: Ptr, version: Option<Ptr>)

  /** The buffer differs from the one before only where a NUL was written. */
  ghost predicate OnlyNulsWritten(before: seq<char>, after: seq<char>) {
    |after| == |before| && forall k :: 0 <= k < |before| ==> after[k] == before[k] || after[k] == NUL
  }

  predicate PtrWithin(p: Ptr, n: int) { p.Null? || p.offset <= n }

  /** parse_request_line(text): find the first blank and cut the method
      there, require GET (case-insensitively), then go on past the blank.
      Without a blank m_url is set to null. */
  function CutRequestLine(buf: seq<char>, text: nat): (r: LineCut)
    requires text <= |buf|
    ensures |r.buf| == |buf|
    ensures r.code == NoRequest || r.code == BadRequest
    ensures r.code == NoRequest ==> r.isGet && r.url.At? && r.version.Some? && r.version.value.At?
    ensures PtrWithin(r.url, |buf|) && (r.version.Some? ==> PtrWithin(r.version.value, |buf|))
  {
    match FindBlank(buf, text)
    case None => LineCut(BadRequest, buf, false, Null, None)
    case Some(m) =>
      var buf1 := buf[m := NUL];
      if !EqualIgnoreCase(CString(buf1, text), "GET") then LineCut(BadRequest, buf1, false, At(m + 1), None)
      else CutUrlAndVersion(buf1, m + 1)
  }

  /** The rest of parse_request_line, from just past the method's blank:
      skip blanks to the URL and cut it at the next blank; m_version is null
      when there is none. */
  function CutUrlAndVersion(buf: seq<char>, after: nat): (r: LineCut)
    requires after <= |buf|
    ensures |r.buf| == |buf|
    ensures r.isGet && r.url.At? && r.version.Some?
    ensures r.code == NoRequest || r.code == BadRequest
    ensures r.code == NoRequest ==> r.version.value.At?
    ensures PtrWithin(r.url, |buf|) && PtrWithin(r.version.value, |buf|)
  {
    var u := BlankEnd(buf, after);
    match FindBlank(buf, u)
    case None => LineCut(BadRequest, buf, true, At(u), Some(Null))
    case Some(e) => CutVersion(buf, u, e)
  }

  /** The end of parse_request_line, with the URL at `u` and the blank
      after it at `e`: cut there, skip blanks to the version, and require
      HTTP/1.1 (case-insensitively) and a URL that starts with '/'. */
  function CutVersion(buf: seq<char>, u: nat, e: nat): (r: LineCut)
    requires u <= e < |buf|
    ensures |r.buf| == |buf|
    ensures r.isGet && r.url == At(u) && r.version.Some? && r.version.value.At?
    ensures r.code == NoRequest || r.code == BadRequest
    ensures r.version.value.offset <= |buf|
  {
    var buf2 := buf[e := NUL];
    var v := BlankEnd(buf2, e + 1);
    var accepted := EqualIgnoreCase(CString(buf2, v), "HTTP/1.1") && buf2[u] == '/';
    LineCut(if accepted then NoRequest else BadRequest, buf2, true, At(u), Some(At(v)))
  }

  /** The parser writes nothing but NULs into the buffer: at most the
      blank after the method and the blank after the URL. */
  lemma CutRequestLineWritesNuls(buf: seq<char>, text: nat)
    requires text <= |buf|
    ensures OnlyNulsWritten(buf, CutRequestLine(buf, text).buf)
  {
    match FindBlank(buf, text)
    case None =>
    case Some(m) =>
      var buf1 := buf[m := NUL];
      var u := BlankEnd(buf1, m + 1);
      match FindBlank(buf1, u)
      case None =>
      case Some(e) =>
        var r := CutRequestLine(buf, text);
        assert r.buf == buf1 || r.buf == buf1[e := NUL];
  }

  // ---------------------------------------------------------------------
  // What the parser accepts

  /** A request line cut into method, blanks, URL, blanks and version as the
      parser requires them. */
  predicate IsSplit(line: seq<char>, m: seq<char>, b1: seq<char>, u: seq<char>,
                    b2: seq<char>, v: seq<char>) {
    && line == m + b1 + u + b2 + v
    && EqualIgnoreCase(m, "GET")
    && |b1| > 0 && AllBlank(b1)
    && |u| > 0 && u[0] == '/' && NoBlank(u)
    && |b2| > 0 && AllBlank(b2)
    && EqualIgnoreCase(v, "HTTP/1.1")
  }

  ghost predicate WellFormedRequestLine(line: seq<char>) {
    exists m, b1, u, b2, v :: IsSplit(line, m, b1, u, b2, v)
  }

  /** The tokens strpbrk and strspn cut from a line: the method before the
      first blank, the URL up to the next blank after the blanks, and the
      version after the blanks that follow. */
  datatype Tokens = Tokens(m: seq<char>, url: seq<char>, version: seq<char>)

  /** Where the tokens are cut, as offsets into the line: the method ends at
      `i`, the URL spans `s` to `e` and the version starts at `w`. */
  datatype Cuts = Cuts(i: nat, s: nat, e: nat, w: nat)

  function TokenCuts(line: seq<char>): (r: Option<Cuts>)
    ensures r.Some? ==> r.value.i < r.value.s <= r.value.e < r.value.w <= |line|
  {
    match FirstBlankFrom(line, 0)
    case None => None
    case Some(i) =>
      var s := BlankEnd(line, i + 1);
      match FirstBlankFrom(line, s)
      case None => None
      case Some(e) => Some(Cuts(i, s, e, BlankEnd(line, e + 1)))
  }

  function Tokenize(line: seq<char>): Option<Tokens> {
    match TokenCuts(line)
    case None => None
    case Some(c) => Some(Tokens(line[..c.i], line[c.s..c.e], line[c.w..]))
  }

  predicate AcceptableRest(url: seq<char>, version: seq<char>) {
    |url| > 0 && url[0] == '/' && EqualIgnoreCase(version, "HTTP/1.1")
  }

  predicate Acceptable(t: Tokens) {
    EqualIgnoreCase(t.m, "GET") && AcceptableRest(t.url, t.version)
  }

  // ---------------------------------------------------------------------
  // The cuts in the buffer are the tokens of the line
  //
  // The lemmas below take offsets into the line (the buffer offset is
  // `text` more) and state facts about those offsets, so that the lemmas
  // combining them need no case analysis of the scans.

  /** The method accepted, parse_request_line goes on with CutUrlAndVersion
      from past the method's blank. */
  lemma CutRequestLineGet(buf: seq<char>, text: nat, m: nat)
    requires text <= |buf| && FindBlank(buf, text) == Some(m)
    requires EqualIgnoreCase(CString(buf[m := NUL], text), "GET")
    ensures CutRequestLine(buf, text) == CutUrlAndVersion(buf[m := NUL], m + 1)
  {
  }

  /** With a blank after the URL, CutUrlAndVersion goes on with CutVersion. */
  lemma CutUrlAndVersionAt(buf: seq<char>, after: nat, u: nat, e: nat)
    requires after <= |buf| && BlankEnd(buf, after) == u && FindBlank(buf, u) == Some(e)
    ensures CutUrlAndVersion(buf, after) == CutVersion(buf, u, e)
  {
  }

  /** Without a blank after the URL, CutUrlAndVersion fails. */
  lemma CutUrlAndVersionNone(buf: seq<char>, after: nat, u: nat)
    requires after <= |buf| && BlankEnd(buf, after) == u && FindBlank(buf, u).None?
    ensures CutUrlAndVersion(buf, after).code == BadRequest && CutUrlAndVersion(buf, after).buf == buf
  {
  }

  /** The method cut: strpbrk finds the line's first blank, and the C string
      at `text` after the NUL is the method token. */
  lemma {:induction false} MethodCut(buf: seq<char>, text: nat, i: nat)
    requires text <= |buf| && FirstBlankFrom(CString(buf, text), 0) == Some(i)
    ensures FindBlank(buf, text) == Some(text + i)
    ensures CString(buf[text + i := NUL], text) == CString(buf, text)[..i]
  {
    FindBlankInLine(buf, text, text);
    CStringCut(buf, text, i);
  }

  /** Past the method's blank, the URL starts where the line's blanks after
      the method end. */
  lemma {:induction false} UrlStart(buf: seq<char>, text: nat, i: nat, s: nat)
    requires text <= |buf| && i < |CString(buf, text)| && s == BlankEnd(CString(buf, text), i + 1)
    ensures BlankEnd(buf[text + i := NUL], text + i + 1) == text + s
  {
    SkipBlanksWriteBefore(buf, text + i, NUL, text + i + 1);
    SkipBlanksInLine(buf, text, text + i + 1);
  }

  /** strpbrk from the URL finds the line's next blank, or nothing where
      the line has none. */
  lemma {:induction false} UrlEnd(buf: seq<char>, text: nat, i: nat, s: nat)
    requires text <= |buf| && i < s <= |CString(buf, text)|
    ensures var f := FirstBlankFrom(CString(buf, text), s);
      && (f.None? ==> FindBlank(buf[text + i := NUL], text + s).None?)
      && (f.Some? ==> FindBlank(buf[text + i := NUL], text + s) == Some(text + f.value))
  {
    FindBlankWriteBefore(buf, text + i, NUL, text + s);
    FindBlankInLine(buf, text, text + s);
  }

  /** Past the URL's blank, the version starts where the line's blanks
      after the URL end. */
  lemma {:induction false} VersionStart(buf: seq<char>, text: nat, i: nat, e: nat, w: nat)
    requires text <= |buf| && i < e < |CString(buf, text)| && w == BlankEnd(CString(buf, text), e + 1)
    ensures BlankEnd(buf[text + i := NUL][text + e := NUL], text + e + 1) == text + w
  {
    SkipBlanksWriteBefore(buf[text + i := NUL], text + e, NUL, text + e + 1);
    SkipBlanksWriteBefore(buf, text + i, NUL, text + e + 1);
    SkipBlanksInLine(buf, text, text + e + 1);
  }

  /** After both cuts, the C string at the URL is the line from the URL's
      first byte to the blank after it. */
  lemma {:induction false} UrlCutText(buf: seq<char>, text: nat, i: nat, s: nat, e: nat)
    requires text <= |buf| && i < s <= e < |CString(buf, text)|
    ensures CString(buf[text + i := NUL][text + e := NUL], text + s) == CString(buf, text)[s..e]
  {
    var line := CString(buf, text);
    CStringSuffix(buf, text, s);
    CStringWriteBefore(buf, text + i, NUL, text + s);
    CStringCut(buf[text + i := NUL], text + s, e - s);
    assert line[s..][..e - s] == line[s..e];
  }

  /** After both cuts, the C string past the second is the rest of the
      line. */
  lemma {:induction false} VersionCutText(buf: seq<char>, text: nat, i: nat, e: nat, w: nat)
    requires text <= |buf| && i < e < w <= |CString(buf, text)|
    ensures CString(buf[text + i := NUL][text + e := NUL], text + w) == CString(buf, text)[w..]
  {
    CStringSuffix(buf, text, w);
    CStringWriteBefore(buf, text + i, NUL, text + w);
    CStringWriteBefore(buf[text + i := NUL], text + e, NUL, text + w);
  }

  /** After both cuts, the URL's first byte is the line's. */
  lemma {:induction false} UrlFirst(buf: seq<char>, text: nat, i: nat, s: nat, e: nat)
    requires text <= |buf| && i < s < e < |CString(buf, text)|
    ensures buf[text + i := NUL][text + e := NUL][text + s] == CString(buf, text)[s..e][0]
  {
    CStringBytes(buf, text);
  }

  /** CutVersion, on the buffer with the method cut, the URL at line offset
      `s` and the line's next blank at `e`, accepts as the URL and version
      tokens at `s` and `w` say and leaves its pointers on them. */
  lemma {:induction false} CutVersionLine(buf: seq<char>, text: nat, i: nat, s: nat, e: nat, w: nat)
    requires text <= |buf| && i < s <= e < |CString(buf, text)|
    requires w == BlankEnd(CString(buf, text), e + 1)
    ensures var line := CString(buf, text);
            var r := CutVersion(buf[text + i := NUL], text + s, text + e);
      && r.buf == buf[text + i := NUL][text + e := NUL] && r.version == Some(At(text + w))
      && (r.code == NoRequest <==> AcceptableRest(line[s..e], line[w..]))
      && CString(r.buf, r.url.offset) == line[s..e]
      && CString(r.buf, r.version.value.offset) == line[w..]
  {
    VersionStart(buf, text, i, e, w);
    UrlCutText(buf, text, i, s, e);
    VersionCutText(buf, text, i, e, w);
    if s < e {
      UrlFirst(buf, text, i, s, e);
    }
  }

  /** The URL and the blank after it found, CutUrlAndVersion is CutVersion
      at the line's offsets. */
  lemma {:induction false} UrlCut(buf: seq<char>, text: nat, i: nat, s: nat, e: nat)
    requires text <= |buf| && i < |CString(buf, text)|
    requires s == BlankEnd(CString(buf, text), i + 1) && FirstBlankFrom(CString(buf, text), s) == Some(e)
    ensures CutUrlAndVersion(buf[text + i := NUL], text + i + 1)
         == CutVersion(buf[text + i := NUL], text + s, text + e)
  {
    UrlStart(buf, text, i, s);
    UrlEnd(buf, text, i, s);
    CutUrlAndVersionAt(buf[text + i := NUL], text + i + 1, text + s, text + e);
  }

  /** parse_request_line on a line without a blank fails. */
  lemma {:induction false} CutNoMethod(buf: seq<char>, text: nat)
    requires text <= |buf| && FirstBlankFrom(CString(buf, text), 0).None?
    ensures CutRequestLine(buf, text).code == BadRequest && CutRequestLine(buf, text).buf == buf
  {
    FindBlankInLine(buf, text, text);
  }

  /** Without a blank after the URL, the rest of parse_request_line fails. */
  lemma {:induction false} UrlCutMissing(buf: seq<char>, text: nat, i: nat, s: nat)
    requires text <= |buf| && i < |CString(buf, text)|
    requires s == BlankEnd(CString(buf, text), i + 1) && FirstBlankFrom(CString(buf, text), s).None?
    ensures var r := CutUrlAndVersion(buf[text + i := NUL], text + i + 1);
      r.code == BadRequest && r.buf == buf[text + i := NUL]
  {
    UrlStart(buf, text, i, s);
    UrlEnd(buf, text, i, s);
    CutUrlAndVersionNone(buf[text + i := NUL], text + i + 1, text + s);
  }

  /** parse_request_line with GET on a line without a blank after the URL
      fails. */
  lemma {:induction false} CutNoUrlEnd(buf: seq<char>, text: nat, i: nat, s: nat)
    requires text <= |buf| && i < |CString(buf, text)| && FirstBlankFrom(CString(buf, text), 0) == Some(i)
    requires EqualIgnoreCase(CString(buf, text)[..i], "GET")
    requires s == BlankEnd(CString(buf, text), i + 1) && FirstBlankFrom(CString(buf, text), s).None?
    ensures CutRequestLine(buf, text).code == BadRequest && CutRequestLine(buf, text).buf == buf[text + i := NUL]
  {
    MethodCut(buf, text, i);
    CutRequestLineGet(buf, text, text + i);
    UrlCutMissing(buf, text, i, s);
  }

  /** parse_request_line with GET, the URL and the blank after it found
      accepts as the URL and version tokens say. */
  lemma {:induction false} CutGetFound(buf: seq<char>, text: nat, i: nat, s: nat, e: nat, w: nat)
    requires text <= |buf| && i < |CString(buf, text)| && FirstBlankFrom(CString(buf, text), 0) == Some(i)
    requires EqualIgnoreCase(CString(buf, text)[..i], "GET")
    requires s == BlankEnd(CString(buf, text), i + 1) && FirstBlankFrom(CString(buf, text), s) == Some(e)
    requires w == BlankEnd(CString(buf, text), e + 1)
    ensures var line := CString(buf, text);
            var r := CutRequestLine(buf, text);
      && r.buf == buf[text + i := NUL][text + e := NUL]
      && r.url == At(text + s) && r.version == Some(At(text + w))
      && (r.code == NoRequest <==> AcceptableRest(line[s..e], line[w..]))
      && (r.code == NoRequest ==>
            CString(r.buf, r.url.offset) == line[s..e] &&
            CString(r.buf, r.version.value.offset) == line[w..])
  {
    MethodCut(buf, text, i);
    CutRequestLineGet(buf, text, text + i);
    UrlCut(buf, text, i, s, e);
    CutVersionLine(buf, text, i, s, e, w);
  }

  /** parse_request_line on a method other than GET fails. */
  lemma {:induction false} CutNotGet(buf: seq<char>, text: nat, i: nat)
    requires text <= |buf| && FirstBlankFrom(CString(buf, text), 0) == Some(i)
    requires !EqualIgnoreCase(CString(buf, text)[..i], "GET")
    ensures CutRequestLine(buf, text).code == BadRequest && CutRequestLine(buf, text).buf == buf[text + i := NUL]
  {
    MethodCut(buf, text, i);
  }

  /** Tokenize at the offsets its scans stop at. */
  lemma TokenizeAt(line: seq<char>, i: nat, s: nat, e: nat, w: nat)
    requires FirstBlankFrom(line, 0) == Some(i) && i + 1 <= |line| && s == BlankEnd(line, i + 1)
    requires FirstBlankFrom(line, s) == Some(e) && e + 1 <= |line| && w == BlankEnd(line, e + 1)
    ensures Tokenize(line) == Some(Tokens(line[..i], line[s..e], line[w..]))
  {
  }

  /** parse_request_line answers as the tokens of the line say, and leaves
      the URL and version pointers on those tokens. */
  lemma {:induction false} CutRequestLineTokens(buf: seq<char>, text: nat)
    requires text <= |buf|
    ensures var r := CutRequestLine(buf, text);
            var t := Tokenize(CString(buf, text));
      && (r.code == NoRequest <==> t.Some? && Acceptable(t.value))
      && (r.code == NoRequest ==>
            CString(r.buf, r.url.offset) == t.value.url &&
            CString(r.buf, r.version.value.offset) == t.value.version)
      && (r.code == NoRequest ==>
            text < r.url.offset && r.url.offset + |t.value.url| < text + |CString(buf, text)| &&
            r.version.value.offset + |t.value.version| == text + |CString(buf, text)|)
  {
    var line := CString(buf, text);
    match FirstBlankFrom(line, 0)
    case None =>
      CutNoMethod(buf, text);
    case Some(i) =>
      var s := BlankEnd(line, i + 1);
      if !EqualIgnoreCase(line[..i], "GET") {
        CutNotGet(buf, text, i);
      } else {
        match FirstBlankFrom(line, s)
        case None =>
          CutNoUrlEnd(buf, text, i, s);
        case Some(e) =>
          var w := BlankEnd(line, e + 1);
          CutGetFound(buf, text, i, s, e, w);
          TokenizeAt(line, i, s, e, w);
      }
  }

  /** parse_request_line writes only inside the line it is given. */
  lemma {:induction false} CutRequestLineKeepsRest(buf: seq<char>, text: nat)
    requires text <= |buf|
    ensures var r := CutRequestLine(buf, text);
      forall k :: 0 <= k < |buf| && !(text <= k < text + |CString(buf, text)|) ==> r.buf[k] == buf[k]
  {
    var line := CString(buf, text);
    match FirstBlankFrom(line, 0)
    case None =>
      CutNoMethod(buf, text);
    case Some(i) =>
      var s := BlankEnd(line, i + 1);
      if !EqualIgnoreCase(line[..i], "GET") {
        CutNotGet(buf, text, i);
      } else {
        match FirstBlankFrom(line, s)
        case None =>
          CutNoUrlEnd(buf, text, i, s);
        case Some(e) =>
          CutGetFound(buf, text, i, s, e, BlankEnd(line, e + 1));
      }
  }

  // ---------------------------------------------------------------------
  // What the tokens accept

  /** The bytes from `a` to `b` are blanks. */
  lemma AllBlankSlice(line: seq<char>, a: nat, b: nat)
    requires a <= b <= |line| && forall k :: a <= k < b ==> IsBlank(line[k])
    ensures AllBlank(line[a..b])
  {
    forall k | 0 <= k < b - a ensures IsBlank(line[a..b][k]) {
      assert line[a..b][k] == line[a + k];
    }
  }

  /** The bytes from `a` to `b` are not blanks. */
  lemma NoBlankSlice(line: seq<char>, a: nat, b: nat)
    requires a <= b <= |line| && forall k :: a <= k < b ==> !IsBlank(line[k])
    ensures NoBlank(line[a..b])
  {
    forall k | 0 <= k < b - a ensures !IsBlank(line[a..b][k]) {
      assert line[a..b][k] == line[a + k];
    }
  }

  /** A line is the concatenation of the five slices between four cuts. */
  lemma FiveSlices(line: seq<char>, i: nat, s: nat, e: nat, w: nat)
    requires i <= s <= e <= w <= |line|
    ensures line == line[..i] + line[i..s] + line[s..e] + line[e..w] + line[w..]
  {
  }

  /** The slices between the cuts Tokenize makes: blanks between the
      tokens, none inside the URL. */
  lemma {:induction false} TokenCutsSlices(line: seq<char>)
    requires TokenCuts(line).Some?
    ensures var c := TokenCuts(line).value;
      && AllBlank(line[c.i..c.s]) && |line[c.i..c.s]| > 0
      && NoBlank(line[c.s..c.e])
      && AllBlank(line[c.e..c.w]) && |line[c.e..c.w]| > 0
      && line == line[..c.i] + line[c.i..c.s] + line[c.s..c.e] + line[c.e..c.w] + line[c.w..]
  {
    var c := TokenCuts(line).value;
    FirstBlankFromFinds(line, 0);
    BlankEndStops(line, c.i + 1);
    FirstBlankFromFinds(line, c.s);
    BlankEndStops(line, c.e + 1);
    AllBlankSlice(line, c.i, c.s);
    NoBlankSlice(line, c.s, c.e);
    AllBlankSlice(line, c.e, c.w);
    FiveSlices(line, c.i, c.s, c.e, c.w);
  }

  /** Acceptable tokens put back together with the blanks between them
      make up the line. */
  lemma {:induction false} AcceptableTokensSplit(line: seq<char>)
    requires Tokenize(line).Some? && Acceptable(Tokenize(line).value)
    ensures var t := Tokenize(line).value;
      exists b1, b2 :: IsSplit(line, t.m, b1, t.url, b2, t.version)
  {
    var c := TokenCuts(line).value;
    TokenCutsSlices(line);
    assert IsSplit(line, line[..c.i], line[c.i..c.s], line[c.s..c.e], line[c.e..c.w], line[c.w..]);
  }

  /** The five parts of a concatenation, as slices of it. */
  lemma FiveParts(line: seq<char>, m: seq<char>, b1: seq<char>, u: seq<char>,
                  b2: seq<char>, v: seq<char>)
    requires line == m + b1 + u + b2 + v
    ensures var i, s := |m|, |m| + |b1|;
            var e, w := s + |u|, s + |u| + |b2|;
      && line[..i] == m && line[i..s] == b1 && line[s..e] == u
      && line[e..w] == b2 && line[w..] == v
  {
  }

  /** A line laid out byte by byte as the parser wants it: a method without
      blanks up to `i`, blanks up to `s`, a URL without blanks up to `e`,
      blanks up to `w`, and then a byte that is not a blank if any. */
  predicate LaidOut(line: seq<char>, i: nat, s: nat, e: nat, w: nat) {
    && i < s < e < w <= |line|
    && (forall k :: 0 <= k < i ==> !IsBlank(line[k]))
    && (forall k :: i <= k < s ==> IsBlank(line[k]))
    && (forall k :: s <= k < e ==> !IsBlank(line[k]))
    && (forall k :: e <= k < w ==> IsBlank(line[k]))
    && (w == |line| || !IsBlank(line[w]))
  }

  /** On a laid-out line the scans stop at the layout's cuts. */
  lemma {:induction false} LaidOutCuts(line: seq<char>, i: nat, s: nat, e: nat, w: nat)
    requires LaidOut(line, i, s, e, w)
    ensures TokenCuts(line) == Some(Cuts(i, s, e, w))
  {
    FirstBlankFromAt(line, 0, i);
    BlankEndAt(line, i + 1, s);
    FirstBlankFromAt(line, s, e);
    BlankEndAt(line, e + 1, w);
  }

  /** The tokens of a laid-out line are the slices between its cuts. */
  lemma {:induction false} LaidOutTokens(line: seq<char>, i: nat, s: nat, e: nat, w: nat)
    requires LaidOut(line, i, s, e, w)
    ensures Tokenize(line) == Some(Tokens(line[..i], line[s..e], line[w..]))
  {
    LaidOutCuts(line, i, s, e, w);
  }

  /** A well-formed split is laid out at the lengths of its parts. */
  lemma {:induction false} SplitLaidOut(line: seq<char>, m: seq<char>, b1: seq<char>, u: seq<char>,
                     b2: seq<char>, v: seq<char>)
    requires IsSplit(line, m, b1, u, b2, v)
    ensures LaidOut(line, |m|, |m| + |b1|, |m| + |b1| + |u|, |m| + |b1| + |u| + |b2|)
  {
    var i, s := |m|, |m| + |b1|;
    var e, w := s + |u|, s + |u| + |b2|;
    FiveParts(line, m, b1, u, b2, v);
    EqualIgnoreCaseKeepsNoBlank(m, "GET");
    forall k | 0 <= k < i ensures !IsBlank(line[k]) {
      assert line[k] == line[..i][k];
    }
    forall k | i <= k < s ensures IsBlank(line[k]) {
      assert line[k] == line[i..s][k - i];
    }
    forall k | s <= k < e ensures !IsBlank(line[k]) {
      assert line[k] == line[s..e][k - s];
    }
    forall k | e <= k < w ensures IsBlank(line[k]) {
      assert line[k] == line[e..w][k - e];
    }
    if w < |line| {
      assert line[w] == v[0] && Lower(v[0]) == Lower('H');
    }
  }

  /** The tokens of a well-formed line are its parts. */
  lemma {:induction false} SplitTokens(line: seq<char>, m: seq<char>, b1: seq<char>, u: seq<char>,
                    b2: seq<char>, v: seq<char>)
    requires IsSplit(line, m, b1, u, b2, v)
    ensures Tokenize(line) == Some(Tokens(m, u, v))
  {
    SplitLaidOut(line, m, b1, u, b2, v);
    LaidOutTokens(line, |m|, |m| + |b1|, |m| + |b1| + |u|, |m| + |b1| + |u| + |b2|);
    FiveParts(line, m, b1, u, b2, v);
  }

  /** The tokens of a line are acceptable exactly when the line is GET, a
      URL that starts with '/', and HTTP/1.1 (both words in any case),
      separated by runs of spaces and tabs. */
  lemma {:induction false} TokensAcceptable(line: seq<char>)
    ensures var t := Tokenize(line);
      && (t.Some? && Acceptable(t.value) <==> WellFormedRequestLine(line))
      && (t.Some? && Acceptable(t.value) ==>
            exists b1, b2 :: IsSplit(line, t.value.m, b1, t.value.url, b2, t.value.version))
  {
    var t := Tokenize(line);
    if t.Some? && Acceptable(t.value) {
      AcceptableTokensSplit(line);
    }
    if WellFormedRequestLine(line) {
      var m, b1, u, b2, v :| IsSplit(line, m, b1, u, b2, v);
      SplitTokens(line, m, b1, u, b2, v);
    }
  }

  /** parse_request_line accepts a line exactly when it is well formed, and
      then m_url and m_version read back the URL and version of the line. */
  lemma {:induction false} RequestLineAccepted(buf: seq<char>, text: nat)
    requires text <= |buf|
    ensures var r := CutRequestLine(buf, text);
            var line := CString(buf, text);
      && (r.code == NoRequest <==> WellFormedRequestLine(line))
      && (r.code == NoRequest ==>
            exists m, b1, b2 :: IsSplit(line, m, b1, CString(r.buf, r.url.offset), b2,
                                        CString(r.buf, r.version.value.offset)))
  {
    CutRequestLineTokens(buf, text);
    TokensAcceptable(CString(buf, text));
  }
}
