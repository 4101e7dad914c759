# http_conn: a verified model of one HTTP/1.1 connection

This project models `http_conn`, the per-connection engine of a small event-driven
HTTP/1.1 static file server. One object holds:

- a 2048-byte read buffer with three cursors: `m_read_idx`, `m_checked_idx` and `m_start_line`;
- the request state machine: REQUESTLINE, then HEADER, then CONTENT;
- the parsed request: method, URL, version, host, Content-Length and keep-alive;
- a 200-byte resolved-path buffer;
- a 1024-byte response buffer with its index `m_write_idx`;
- a two-entry `iovec` array;
- the socket and its two libevent registrations.

The model keeps that shape. `HttpConnection.Conn` is a class with `array<char>` buffers and
integer cursors that its methods update in place. Each method is proved against a function
over a value record:

| function | what it models |
|---|---|
| `RequestParser.ReadLoop` | `process_read` |
| `LineParser.LineStep` | `parse_line` |
| `RequestLine.CutRequestLine` | `parse_request_line` |
| `RequestParser.HeadersStep` | `parse_headers` |
| `RequestParser.ContentStep` | `parse_content` |
| `Resolver.RealFileBuffer` and `Resolver.Classify` | `do_request` |
| `ResponseBuilder.Append` | `add_response` |
| `ResponseBuilder.BuildResponse` | `process_write` |
| `Transport.ReadRun` | `read` |
| `Transport.WriteLoop` | `write`'s loop |

Lemmas beside these functions state what the code promises: exactly which request lines it
accepts, round trips of the numbers it prints and parses, the bytes of each response, and how
the two I/O loops end.

`RequestStream` follows `process_read` over a whole GET request with header lines. One run
over the request's bytes parses it as its lines say. The same bytes read in two parts, split
anywhere, give the same result.

The kernel is an input. `recv()` and `writev()` become scripts of the answers they give, call
by call. `stat()` becomes the answer it gives for the path. `mmap` is a flag. Each event
registration is one of three states: freed, idle or pending.

Modules, one per file:

- `HttpTypes` (types.dfy): capacities, enums and small value types;
- `CStrings` (cstrings.dfy): the C-library string routines the code uses;
- `LineParser` (line_parser.dfy): the line tokenizer;
- `RequestLine` (request_line.dfy): the request-line parser;
- `RequestParser` (request_parser.dfy): the request state machine;
- `RequestStream` (request_stream.dfy): whole requests, read at once or in two parts;
- `Resolver` (resolver.dfy): path building and stat classification;
- `ResponseBuilder` (response_builder.dfy): the response formatter;
- `Transport` (transport.dfy): the read and write loops;
- `HttpConnection` (http_conn.dfy): the class.

Where the server's intended behaviour and its code differ, the model follows the code:

- A malformed line (LINE_BAD) ends `process_read` with NO_REQUEST, not BAD_REQUEST.
  `RequestParser.ReadLoop` answers `NeedMore` for it, and `RequestParser.BareLineFeedStalls`
  shows that a bare LF stalls the parse for good.
- `parse_content` adds m_content_length and m_checked_idx as `int`s. A declared length near
  INT_MAX makes that sum overflow, which C leaves undefined (`RequestParser.SumOverflows`).
- The body is measured from `m_checked_idx`, which `parse_line` has already pushed past any
  body bytes without a CR LF. A body that arrives over two reads therefore does not complete
  unless the second read alone carries all of it (`RequestParser.BodySplitAcrossReadsStalls`).
- The body state is entered on any Content-Length other than 0. That includes a negative
  value, because `atol` accepts a sign.
- A zero-size file is not served. The FILE_REQUEST case falls through into `default` and
  answers false, so the connection is closed.
- `write()` counts the bytes sent only against `m_write_idx`, the header bytes. It never
  advances the `iovec`s (`Transport.HeaderBytesEndTheResponse`).
- `close_conn` sets `m_sockfd` to -1 before calling `close(m_sockfd)`, so it closes
  descriptor -1. The model logs that in the ghost field `closedFds`.
- `do_request` never fails after `stat`: `open` and `mmap` are not checked, so there is no
  INTERNAL_ERROR path.

## Model

| member | source | states |
|---|---|---|
| HttpTypes.Landed | src/http_conn.cpp:163 | bytes received at an index take the place of the bytes there; the buffer keeps its length and every byte before and after them |
| CStrings.CString | src/http_conn.h:72 | the C string at an offset never runs past the end of the buffer |
| CStrings.FindBlank | src/http_conn.cpp:189 | strpbrk(s, " \t") answers null or an offset inside the buffer at or after s |
| CStrings.BlankEnd | src/http_conn.cpp:208 | strspn(s, " \t") moves forward and stays within the string |
| CStrings.EqualIgnoreCase | src/http_conn.cpp:198 | strcasecmp(a, b) == 0 exactly when a and b have the same length and agree at every index after tolower |
| CStrings.HasPrefixIgnoreCase | src/http_conn.cpp:255 | strncasecmp(s, p, strlen(p)) == 0 exactly when s is at least as long as p and agrees with p on p's length after tolower |
| CStrings.SameLowerFromAll | src/http_conn.cpp:198 | the byte-by-byte comparison from an index succeeds exactly when every later index agrees after tolower |
| CStrings.Decimal | src/http_conn.cpp:484 | %d writes a non-empty run: a minus sign exactly for a negative number, digits everywhere else |
| CStrings.CStringBytes | src/http_conn.h:72 | the C string at an offset is the buffer's NUL-free bytes from there, followed by a NUL or the end of the buffer |
| CStrings.CStringUnique | src/http_conn.h:72 | a NUL-free run ended by a NUL or the buffer's end is the C string at its start |
| CStrings.CStringCut | src/http_conn.cpp:194 | writing a NUL inside a C string cuts it to the bytes before that NUL |
| CStrings.CStringWriteAfter | src/http_conn.cpp:289 | writing past the end of a C string leaves it unchanged |
| CStrings.FindBlankInString | src/http_conn.cpp:189 | strpbrk(s, " \t") in the buffer finds exactly the first space or tab of the C string, at the matching offset, or nothing when it has none |
| CStrings.SkipBlanksInString | src/http_conn.cpp:208 | strspn(s, " \t") in the buffer skips exactly the leading run of spaces and tabs of the C string |
| CStrings.Strtol | src/http_conn.cpp:268 | atol's value always lies within the range of a 64-bit long |
| CStrings.Int32 | src/http_conn.cpp:268 | storing a long into the int m_content_length keeps it modulo 2^32, inside the int range, and unchanged when it already fits |
| CStrings.StrtolOfDecimal | src/http_conn.cpp:268 | round trip: strtol reads back every long printed with %d |
| CStrings.AtolOfDecimal | src/http_conn.cpp:484 | round trip: a Content-Length printed with %d and read by atol into an int is the original int |
| CStrings.DecimalLength | src/http_conn.cpp:484 | %d of any 32-bit int takes at most 11 bytes |
| LineParser.ScanLine | src/http_conn.cpp:114-151 | the scan only moves the cursor forward and never past m_read_idx; it answers LINE_OK just past a CR LF, LINE_OPEN at the end of data or on a final lone CR, and LINE_BAD on a CR before another byte or on an LF not preceded by a CR; no CR or LF is skipped |
| LineParser.LineStep | src/http_conn.cpp:114-151 | parse_line changes exactly the two terminator bytes of a complete line, to NUL, and no byte otherwise |
| LineParser.ScanLineResumes | src/http_conn.cpp:117-126 | feeding bytes in two reads finds the same line as one read: LINE_OK and LINE_BAD do not change when more bytes arrive, and resuming after LINE_OPEN gives the answer of a scan from the original cursor |
| LineParser.ScanLineSkips | src/http_conn.cpp:117-147 | the scan passes over bytes that are neither CR nor LF without changing its answer |
| LineParser.ScanLineUnderInvariant | src/http_conn.cpp:137-145 | with no CR or LF before the cursor, the bare-LF branch never answers LINE_OK, and no CR or LF remains before the new cursor |
| RequestLine.CutRequestLine | src/http_conn.cpp:186-237 | parse_request_line answers NO_REQUEST or BAD_REQUEST; on NO_REQUEST, m_method is GET and m_url and m_version are set; the pointers stay inside the buffer |
| RequestLine.CutUrlAndVersion | src/http_conn.cpp:207-215 | past the method, m_url is set and m_version is null exactly when no blank follows the URL |
| RequestLine.CutVersion | src/http_conn.cpp:216-236 | with the URL's blank found, m_url is the URL start and m_version points inside the buffer |
| RequestLine.CutRequestLineWritesNuls | src/http_conn.cpp:194-216 | parse_request_line writes nothing but NULs into the buffer |
| RequestLine.CutRequestLineKeepsRest | src/http_conn.cpp:186-237 | parse_request_line writes only inside the line it is given |
| RequestLine.TokenCuts | src/http_conn.cpp:189-217 | the method ends before the URL, the URL ends before the version, and all lie within the line |
| RequestLine.CutRequestLineTokens | src/http_conn.cpp:186-237 | parse_request_line accepts exactly when the method, URL and version tokens of the line are acceptable, and m_url and m_version then read back those tokens |
| RequestLine.TokensAcceptable | src/http_conn.cpp:186-237 | the tokens are acceptable exactly when the line is GET, blanks, a URL starting with '/', blanks and HTTP/1.1, both words in any case |
| RequestLine.RequestLineAccepted | src/http_conn.cpp:186-237 | parse_request_line accepts a line exactly when it is well formed, and m_url and m_version then read back its URL and version |
| RequestParser.Initial | src/http_conn.cpp:91-104 | init() leaves the request state over any buffer |
| RequestParser.Receive | src/http_conn.cpp:178 | received bytes land at m_read_idx, which moves past them; bytes before and after are unchanged, and so is everything else |
| RequestParser.ReceivedKeepsConsistent | src/http_conn.h:96-98 | bytes landing past m_read_idx keep the cursor order and the parse state consistent |
| RequestParser.ParseLineStep | src/http_conn.cpp:114-151 | parse_line changes only m_checked_idx and the buffer, moves the cursor forward within the data, and past at least two bytes on LINE_OK |
| RequestParser.RequestLineStep | src/http_conn.cpp:186-237 | the request line moves the state to HEADER with GET, URL and version set on NO_REQUEST, and leaves the state REQUESTLINE on BAD_REQUEST; only the buffer, method, URL, version and state change |
| RequestParser.RequestLineStepAccepted | src/http_conn.cpp:316-324 | on the parse state, the request line is accepted exactly when well formed, and the URL and version pointers read back its parts |
| RequestParser.RequestLineStepTokens | src/http_conn.cpp:316-324 | on the parse state, the request line is accepted exactly when its tokens are acceptable, and the pointers read back those tokens |
| RequestParser.FieldValue | src/http_conn.cpp:257-258 | the header value is a suffix of the line that does not start with a space or tab |
| RequestParser.FieldValueInBuffer | src/http_conn.cpp:266-267 | stepping past the name and strspn over blanks lands at the header value, and the C string there is that value |
| RequestParser.HeadersStep | src/http_conn.cpp:242-282 | parse_headers never answers BAD_REQUEST; it answers GET_REQUEST exactly on an empty line with Content-Length 0; it moves to CONTENT exactly on an empty line with a Content-Length other than 0; a set keep-alive flag stays set; only the state, keep-alive, Content-Length and host change |
| RequestParser.FieldStep | src/http_conn.cpp:255-279 | a header line changes only keep-alive, Content-Length and host; it never clears keep-alive, and a host it sets points into the buffer |
| RequestParser.HeadersStepContentLength | src/http_conn.cpp:264-269 | a Content-Length line sets m_content_length to atol of its value, cut to an int, and nothing else |
| RequestParser.ContentLengthLine | src/http_conn.cpp:255-268 | the line "Content-Length: " followed by %d is not a Connection line, is a Content-Length line, and its value is the %d text |
| RequestParser.DecimalValue | src/http_conn.cpp:266-267 | past the name and blanks of "Content-Length: " followed by %d lies exactly the %d text |
| RequestParser.ContentLengthHeaderRoundTrip | src/http_conn.cpp:264-269 | a Content-Length header printed with %d is read back as that number, for every int |
| RequestParser.ContentStep | src/http_conn.cpp:284-294 | whenever its `int` sum does not overflow and its write stays in the buffer, parse_content answers GET_REQUEST exactly when m_read_idx has reached m_content_length bytes past m_checked_idx, and then writes a NUL at m_content_length bytes into the body; otherwise nothing changes |
| RequestParser.BodyCutToContentLength | src/http_conn.cpp:287-290 | on completion, the body string is cut to m_content_length bytes, or left whole when shorter |
| RequestParser.ReadLoop | src/http_conn.cpp:299-356 | process_read keeps the state consistent and m_read_idx fixed, only moves m_checked_idx forward, completes only past the request line, and rejects only in the request-line state |
| RequestParser.Dispatch | src/http_conn.cpp:313-352 | the switch on the state keeps the same guarantees as the loop |
| RequestParser.BodyLine | src/http_conn.cpp:338-347 | the body case keeps the same guarantees as the loop |
| RequestParser.BareLineFeedStalls | src/http_conn.cpp:299-356 | a line ended by a lone LF is never delivered: the loop answers NO_REQUEST with the cursor on the LF, whatever came before |
| RequestParser.BodyMeasuredFromCursor | src/http_conn.cpp:284-294 | while fewer than m_content_length bytes lie past m_checked_idx, and the sum stays inside `int`, no run of the loop completes the request |
| RequestParser.BodySplitAcrossReadsStalls | src/http_conn.cpp:305-347 | a body whose first bytes arrive without a CR LF and whose second read is shorter than the body never completes, for every length whose sum with the cursor stays inside `int` |
| RequestParser.LineAtStart | src/http_conn.cpp:114-133 | parse_line on a buffer starting with a CR-, LF- and NUL-free line followed by CR LF delivers exactly that line |
| RequestParser.FirstLineDelivered | src/http_conn.cpp:114-133 | a line followed by two CR LF pairs, received into a fresh connection, is delivered as the first line, with the cursor on the second CR LF |
| RequestParser.GetLineAccepted | src/http_conn.cpp:186-236 | a well-formed GET line at the start of the buffer is accepted, the URL and version pointers read back its URL and version, and no byte past the line changes |
| RequestParser.EmptyLineCompletes | src/http_conn.cpp:244-254 | an empty header line with Content-Length 0 completes the request and keeps the URL |
| RequestParser.LoopPastRequestLine | src/http_conn.cpp:316-323 | after an accepted request line the loop goes on to the next line |
| RequestParser.SimpleGetCompletes | src/http_conn.cpp:299-356 | a well-formed GET request line and an empty line, received into a fresh connection, complete the request in one run, with the URL pointer reading back the URL |
| RequestStream.ContentLengthNotConnection | src/http_conn.cpp:255-264 | a Content-Length header never takes the Connection branch |
| RequestStream.FieldStepFields | src/http_conn.cpp:255-269 | a header line sets keep-alive exactly when it is a keep-alive Connection header or it was set, and sets m_content_length to atol of its value exactly when it is a Content-Length header |
| RequestStream.KeepAliveSnoc | src/http_conn.cpp:255-263 | after one more header line the connection is kept alive exactly when it was or that line asks for it |
| RequestStream.JoinAt | src/http_conn.cpp:117-133 | in the bytes of the request, each line lies at its start offset followed by CR LF |
| RequestStream.Deliver | src/http_conn.cpp:117-133 | parse_line delivers a CR-, LF- and NUL-free line followed by CR LF from any cursor inside it, turning just the CR LF into NULs |
| RequestStream.Stalled | src/http_conn.cpp:117-150 | while such a line has not fully arrived, the loop answers NO_REQUEST and only the cursor moves, staying inside the line |
| RequestStream.LineInBuffer | src/http_conn.cpp:117-133 | the buffer holds the request's next line, as far as the bytes have arrived |
| RequestStream.Stall | src/http_conn.cpp:305-308 | a run that reaches a line not yet fully received stops with NO_REQUEST on that line |
| RequestStream.TextsKept | src/http_conn.cpp:305-310 | the URL and version strings survive every later change to bytes past them |
| RequestStream.RequestLineTaken | src/http_conn.cpp:316-324 | an accepted request line lets the loop go on to the next line in the header state |
| RequestStream.HeaderLineTaken | src/http_conn.cpp:325-337 | a complete header line moves the cursors past its CR LF and sets keep-alive and m_content_length as it says; the loop goes on with nothing else changed |
| RequestStream.HeadersEnded | src/http_conn.cpp:243-253 | the empty line completes the request when m_content_length is 0 and enters the body state otherwise |
| RequestStream.BodyAwaited | src/http_conn.cpp:338-347 | entering the body state with no byte after the headers, the loop waits for the body unless parse_content's sum overflows |
| RequestStream.LastLineTaken | src/http_conn.cpp:243-253 | the empty line as the last bytes completes the request without a body, and otherwise waits in the body state; the fields and earlier bytes stay |
| RequestStream.AdvanceRequestLine | src/http_conn.cpp:305-324 | the request's first line, once received, is accepted and the parse moves on to the first header line |
| RequestStream.AdvanceHeader | src/http_conn.cpp:305-337 | each received header line is parsed and the parse moves on to the next line, recording the keep-alive flag and length the lines so far give |
| RequestStream.Finish | src/http_conn.cpp:243-253 | once the empty line is received, the run ends as the request's outcome says with the request's method, URL, version, keep-alive and length recorded |
| RequestStream.RunToEnd | src/http_conn.cpp:299-356 | a run from any line, with all the bytes received, ends with the request's outcome and parse |
| RequestStream.RunPart | src/http_conn.cpp:299-356 | a run with only part of the bytes received stops with NO_REQUEST at the first line not yet complete |
| RequestStream.ReceiveFirst | src/http_conn.cpp:160-180 | the first bytes of the request, read into a fresh buffer, put the parse at its first line |
| RequestStream.Appended | src/http_conn.cpp:163 | a read keeps the bytes already received and puts the new ones right after them |
| RequestStream.ReceiveRest | src/http_conn.cpp:160-180 | the rest of the request, read later, lands after the bytes already received, and the parse keeps its place |
| RequestStream.WholeRequestParsed | src/http_conn.cpp:299-356 | a GET request with header lines, read whole into a fresh buffer, completes exactly when it declares no body, and otherwise waits for the body, or overruns when the length overflows `int`; the parse records GET, its URL and version, keep-alive exactly when a Connection header says so, and the last Content-Length |
| RequestStream.SplitRequestParsedAlike | src/http_conn.cpp:299-356 | the same request read in two parts split anywhere before its last byte: the first run waits, and the second ends as the single run does, recording the same method, URL, version, keep-alive and length |
| Resolver.RealFileBuffer | src/http_conn.cpp:364-366 | building the path never touches the last byte of m_real_file |
| Resolver.RealFilePath | src/http_conn.cpp:364-366 | the path handed to stat is doc_root followed by the URL, cut to FILENAME_LEN-1-strlen(doc_root) bytes; it is the whole URL when that fits, and always fits the buffer with its terminator |
| Resolver.Classify | src/http_conn.cpp:368-387 | do_request answers only NO_RESOURCE, FORBIDDEN_REQUEST, BAD_REQUEST or FILE_REQUEST |
| Resolver.ClassifyOutcomes | src/http_conn.cpp:368-387 | NO_RESOURCE exactly when stat fails; FORBIDDEN_REQUEST exactly when the others-read bit is clear, even for a directory; BAD_REQUEST exactly for a readable directory; FILE_REQUEST exactly for a readable non-directory |
| Resolver.ReadBit | src/http_conn.cpp:373 | the S_IROTH test is bit 2 of the mode |
| Resolver.DirectoryField | src/http_conn.cpp:378 | S_ISDIR is file-type field 4 in bits 12 to 15 of the mode |
| ResponseBuilder.Snprintf | src/http_conn.cpp:460 | vsnprintf leaves the bytes before its start alone and writes the whole text when it fits |
| ResponseBuilder.Append | src/http_conn.cpp:451-468 | add_response succeeds exactly when m_write_idx is below WRITE_BUFFER_SIZE and the text is shorter than the room left less one; on success the pending bytes grow by exactly the text and stay at most WRITE_BUFFER_SIZE-2; on failure m_write_idx and the pending bytes are unchanged |
| ResponseBuilder.PageOf | src/http_conn.cpp:4-12 | each error outcome's canned status, title and body fit fixed bounds |
| ResponseBuilder.AddHeaders | src/http_conn.cpp:475-480 | add_headers never shrinks the pending bytes |
| ResponseBuilder.BuildResponse | src/http_conn.cpp:505-582 | process_write leaves the segments as they were whenever it fails |
| ResponseBuilder.BuildErrorPage | src/http_conn.cpp:509-518 | an error case leaves the segments as they were whenever its body does not fit |
| ResponseBuilder.AppendsInOrder | src/http_conn.cpp:451-468 | two texts that fit are both appended, in order |
| ResponseBuilder.FieldLengths | src/http_conn.cpp:482-495 | the Content-Length, Connection and blank lines fit in 29, 24 and 2 bytes |
| ResponseBuilder.AddHeadersWrites | src/http_conn.cpp:475-480 | with room, add_headers appends the Content-Length, Connection and blank lines in that order |
| ResponseBuilder.ErrorPageFromEmpty | src/http_conn.cpp:509-518 | into an empty buffer an error page is built as status line, headers sized for the body, blank line and body, in one segment of exactly those bytes |
| ResponseBuilder.ErrorResponseFromEmpty | src/http_conn.cpp:507-548 | into an empty buffer each of the four error outcomes builds its own canned page in one segment |
| ResponseBuilder.FileResponseFromEmpty | src/http_conn.cpp:549-560 | into an empty buffer a non-empty file builds the 200 status line and the headers, with Content-Length the size cut to an int, then segments of the header bytes and of the whole file |
| ResponseBuilder.BuildResponseFails | src/http_conn.cpp:562-575 | process_write fails for an empty file, and for any outcome other than the errors and FILE_REQUEST without touching the buffer; on success it sets one or two segments, the first being the pending header bytes |
| Transport.RecvLoop | src/http_conn.cpp:160-180 | read()'s loop keeps m_read_idx within the buffer and only moves it forward |
| Transport.ReadRun | src/http_conn.cpp:153-181 | read() keeps m_read_idx within the buffer and only moves it forward |
| Transport.RecvLoopReads | src/http_conn.cpp:161-179 | the loop appends exactly the bytes received before it stopped, leaves the rest of the buffer alone, and succeeds exactly when it stopped on EAGAIN with room left |
| Transport.ReadRunReads | src/http_conn.cpp:153-181 | read() appends exactly the bytes received before it stopped and succeeds exactly when it stopped on EAGAIN with room left; a full buffer fails and reads nothing |
| Transport.WriteLoop | src/http_conn.cpp:415-448 | write()'s loop reports completion only once the counts before the first other answer reach m_write_idx; it fails only when the first answer that is not a count is an error, and waits for EAGAIN only when that answer is not an error |
| Transport.LandedThenAppended | src/http_conn.cpp:160-180 | one chunk received at m_read_idx followed by more bytes after it is the chunk and those bytes appended at m_read_idx, with the rest of the buffer unchanged |
| Transport.WriteLoopEnds | src/http_conn.cpp:415-448 | write()'s loop completes exactly when the counts before the first other answer reach m_write_idx, and fails exactly when that answer is an error that came first |
| Transport.HeaderBytesEndTheResponse | src/http_conn.cpp:429-431 | one writev() reporting only the header bytes completes the response, however much of the file is unsent |
| HttpConnection.UserCount.constructor | src/http_conn.cpp:28 | the user count starts at 0 |
| HttpConnection.Clear | src/http_conn.cpp:106-108 | memset leaves every byte of the buffer NUL |
| HttpConnection.ReadAnswer | src/http_conn.cpp:299-356 | process_read answers NO_REQUEST exactly when it needs more input |
| HttpConnection.Conn.constructor | src/http_conn.h:40 | a new connection is closed, has no events, nothing pending and no mapping, and is in the state init() leaves |
| HttpConnection.Conn.Init | src/http_conn.cpp:91-109 | init() zeroes every cursor, resets the state machine and keep-alive, clears the three buffers, and leaves the socket, events, mapping, stat and segments alone |
| HttpConnection.Conn.ClearBuffers | src/http_conn.cpp:106-108 | the read, write and path buffers become all NUL |
| HttpConnection.Conn.ResetCursors | src/http_conn.cpp:102-105 | the four cursors become 0 |
| HttpConnection.Conn.ResetRequest | src/http_conn.cpp:94-101 | state REQUESTLINE, keep-alive off, method GET, null pointers, Content-Length 0 |
| HttpConnection.Conn.InitSocket | src/http_conn.cpp:60-89 | the connection takes the socket and events, with the read event pending, counts one more user, and starts parsing from scratch with the three buffers cleared; the mapping, stat answer, segments and closed descriptors stay |
| HttpConnection.Conn.TakeEvents | src/http_conn.cpp:65-83 | the new events replace the old ones and the read event is pending |
| HttpConnection.Conn.FreeEvents | src/http_conn.cpp:38-47 | both events end up freed |
| HttpConnection.Conn.CloseConn | src/http_conn.cpp:31-51 | an open connection is closed once: one fewer user, both events freed, descriptor -1 closed; a closed one only resets; both end with sockfd -1, parsing from scratch, the three buffers cleared, and the mapping, stat answer and segments kept |
| HttpConnection.Conn.Read | src/http_conn.cpp:153-181 | read() is ReadRun on the buffer and m_read_idx, and keeps the connection valid |
| HttpConnection.Conn.RecvAll | src/http_conn.cpp:160-180 | the recv() loop is ReadRun on the buffer and m_read_idx |
| HttpConnection.Conn.Land | src/http_conn.cpp:163 | recv() copies its bytes to m_read_idx and changes nothing else: the buffer becomes `HttpTypes.Landed` of the old one |
| HttpConnection.Conn.ParseLine | src/http_conn.cpp:114-151 | parse_line's status, cursor and buffer are those of LineStep |
| HttpConnection.Conn.EndLine | src/http_conn.cpp:130-131 | both terminator bytes become NUL and the cursor moves past them |
| HttpConnection.Conn.ProcessRead | src/http_conn.cpp:299-356 | process_read leaves the parse state ReadLoop computes and answers its outcome, resolved by do_request; the path, stat and mapping change only when the request completes |
| HttpConnection.Conn.Pass | src/http_conn.cpp:305-352 | one pass of the loop either returns process_read's answer or goes on with less left to scan and the same loop outcome |
| HttpConnection.Conn.NextLine | src/http_conn.cpp:305-310 | the loop test either stops with NO_REQUEST or hands the switch a line at the old m_start_line, with m_start_line moved to the cursor |
| HttpConnection.Conn.TakeLine | src/http_conn.cpp:309-310 | the line starts at the old m_start_line, which moves to m_checked_idx |
| HttpConnection.Conn.HandleLine | src/http_conn.cpp:314-352 | the switch does what Dispatch computes, and the body case continues with LINE_OPEN |
| HttpConnection.Conn.OnRequestLine | src/http_conn.cpp:316-324 | the request-line case returns only on BAD_REQUEST |
| HttpConnection.Conn.OnHeader | src/http_conn.cpp:325-337 | the header case resolves the request on GET_REQUEST and otherwise goes on |
| HttpConnection.Conn.OnBody | src/http_conn.cpp:338-347 | the body case resolves the request once the body is in and otherwise continues with LINE_OPEN |
| HttpConnection.Conn.ParseRequestLine | src/http_conn.cpp:186-237 | parse_request_line's answer and new state are those of RequestLineStep |
| HttpConnection.Conn.ParseHeaders | src/http_conn.cpp:242-282 | parse_headers' answer and new state are those of HeadersStep |
| HttpConnection.Conn.ParseField | src/http_conn.cpp:255-279 | a non-empty header line sets keep-alive, Content-Length and host as FieldStep does |
| HttpConnection.Conn.ParseConnection | src/http_conn.cpp:255-263 | keep-alive becomes set exactly when it was set or the value is keep-alive in any case |
| HttpConnection.Conn.ParseContentLength | src/http_conn.cpp:264-269 | m_content_length becomes atol of the value, cut to an int |
| HttpConnection.Conn.ParseHost | src/http_conn.cpp:270-275 | m_host points at the value, past the name and blanks |
| HttpConnection.Conn.ParseContent | src/http_conn.cpp:284-294 | parse_content's answer and new state are those of ContentStep |
| HttpConnection.Conn.DoRequest | src/http_conn.cpp:361-388 | the path buffer becomes RealFileBuffer of the URL, the answer is Classify of stat's answer, m_file_stat is kept when stat succeeds, and the file is mapped exactly when it is served |
| HttpConnection.Conn.CopyPath | src/http_conn.cpp:364-366 | strcpy and strncpy leave the path buffer RealFileBuffer builds, without touching its last byte |
| HttpConnection.Conn.GetLine | src/http_conn.h:72 | get_line's line starts at m_start_line, never past the cursor |
| HttpConnection.Conn.Unmap | src/http_conn.cpp:390-397 | afterwards nothing is mapped, whether or not something was |
| HttpConnection.Conn.AddResponse | src/http_conn.cpp:451-468 | add_response's answer and write buffer are those of Append |
| HttpConnection.Conn.Vsnprintf | src/http_conn.cpp:460 | vsnprintf answers the full text length and writes what Snprintf writes |
| HttpConnection.Conn.AddStatusLine | src/http_conn.cpp:470-473 | appends "HTTP/1.1 <status> <title>" and CR LF as Append does |
| HttpConnection.Conn.AddContentLength | src/http_conn.cpp:482-485 | appends the Content-Length line as Append does |
| HttpConnection.Conn.AddLinger | src/http_conn.cpp:487-490 | appends "Connection: keep-alive" or "Connection: close" as m_linger says |
| HttpConnection.Conn.AddBlankLine | src/http_conn.cpp:492-495 | appends CR LF as Append does |
| HttpConnection.Conn.AddContent | src/http_conn.cpp:497-500 | appends the body text as Append does |
| HttpConnection.Conn.AddHeaders | src/http_conn.cpp:475-480 | the write buffer becomes AddHeaders of the old one |
| HttpConnection.Conn.ProcessWrite | src/http_conn.cpp:505-582 | process_write's answer, write buffer and segments are those of BuildResponse |
| HttpConnection.Conn.WritePage | src/http_conn.cpp:509-518 | an error case's answer, buffer and segments are those of BuildErrorPage |
| HttpConnection.Conn.SetSegments | src/http_conn.cpp:555-559 | m_iv holds exactly the given segments |
| HttpConnection.Conn.WritePageText | src/http_conn.cpp:511-516 | status line, headers, then body, whose append alone decides |
| HttpConnection.Conn.WriteFile | src/http_conn.cpp:549-571 | the FILE_REQUEST case's answer, buffer and segments are those of BuildResponse |
| HttpConnection.Conn.WriteFileText | src/http_conn.cpp:551-570 | succeeds exactly when the file is not empty, after appending the status line and headers, and for an empty file the stock page too |
| HttpConnection.Conn.Write | src/http_conn.cpp:399-449 | nothing pending: reset and rearm the read event, answering true; otherwise true exactly on EAGAIN or on completion with keep-alive; the mapping survives only EAGAIN; a completed keep-alive response resets and rearms reading, and any other end leaves the parse, buffers and events alone; the socket, stat answer, segments and closed descriptors always stay |
| HttpConnection.Conn.Recycle | src/http_conn.cpp:437-440 | the connection parses from scratch with nothing pending, the three buffers cleared, the write event idle and the read event pending; the socket, mapping, stat answer, segments and closed descriptors stay |
| HttpConnection.Conn.RearmRead | src/http_conn.cpp:439-440 | the write event stops being pending and the read event becomes pending |
| HttpConnection.Conn.ArmWrite | src/http_conn.cpp:604-605 | the read event stops being pending and the write event becomes pending |
| HttpConnection.Conn.Parse | src/http_conn.cpp:299-388 | process_read as process() sees it: the parse and answer of ReadLoop; when the request completed, the path RealFileBuffer builds, m_file_stat set to stat's answer when the file exists, and the file mapped when served; otherwise path, stat and mapping as they were; the socket, events, user count, response and segments stay |
| HttpConnection.Conn.Process | src/http_conn.cpp:587-606 | m_file_stat becomes stat's answer exactly when the request completed and the file exists; on NO_REQUEST only the parse changes; on any other answer either the response BuildResponse computes on that file size is in place, the socket waits for writability and the path and mapping are as do_request left them, or, when building failed, the connection is closed as close_conn does, with one fewer user for an open socket and both events freed, and reset with the buffers cleared |
| HttpConnection.Conn.Answer | src/http_conn.cpp:589-593 | NO_REQUEST leaves the response, segments, socket, events, user count, mapping, stat answer and path alone; any other answer goes on to respond |
| HttpConnection.Conn.Respond | src/http_conn.cpp:596-605 | the built response waits for writability with the user count, mapping and path unchanged, or, when building failed, the connection is closed as close_conn does; the segments are those BuildResponse leaves and the stat answer stays |
| HttpConnection.Conn.Settle | src/http_conn.cpp:597-605 | a built response swaps read interest for write interest and changes nothing else; a failed one closes the connection: for an open socket one fewer user, both events freed and descriptor -1 closed, and in any case the buffers cleared and the segments kept |
| HttpConnection.SendLoop | src/http_conn.cpp:415-448 | write()'s writev() loop ends as WriteLoop says |

## Left out

- The system calls are inputs, not code. `recv`, `writev` and `stat` are scripts or answers
  given to the methods. `open`, `mmap`, `munmap` and `close` are a flag and a ghost log.
  `fcntl` (`setnonblocking`), `getsockopt`, `printf` and the peer address `m_address` are
  not modelled.
- The libevent objects are reduced to three states: freed, registered and pending.
  `HttpTypes.Added` and `HttpTypes.Deleted` model event_add and event_del on those states.
  The event base, the callbacks and the destructor, which only frees events, are not modelled.
- HttpTypes.Added: event_add on a freed (null) event would crash libevent; the model treats it
  as a no-op that leaves the event freed. The same holds for HttpTypes.Deleted and event_del.
  The program never reaches that state, because process() and write() run only after
  init(fd, ...) has created both events.
- `m_user_count` is shared between threads without a lock. The model has a plain counter
  object and no concurrency.
- HttpConnection.Conn.ProcessRead: requires that the parse does not reach undefined
  behaviour in `parse_content`. That covers two cases, and the model stops with `Overrun`
  at either:
  - the `int` sum `m_content_length + m_checked_idx` overflows;
  - the write of `text[m_content_length]` leaves the read buffer. It does so exactly when
    `text` plus m_content_length lies outside [0, READ_BUFFER_SIZE).
  Any other negative Content-Length writes its NUL over an earlier byte of the request, and
  the model does the same.
- HttpConnection.Conn.Process: carries the same requirement as `ProcessRead`.
- HttpConnection.Conn.OnBody: requires that the body case does not reach `parse_content`'s
  undefined behaviour, as `ProcessRead` does. Outside that, its contract covers every case.
- HttpConnection.Conn.ParseContent: carries the same requirement as `OnBody`.
- RequestParser.ContentStep: carries the same requirement as `OnBody`.
- RequestStream.WholeRequestParsed: covers only requests whose URL and header lines hold no
  CR, LF or NUL and whose declared length is not negative. RFC 7230 section 3.3.2 does not
  allow a negative length.
- HttpConnection.Conn.Read: requires that `recv()` never returns more bytes than it was asked
  for (`Transport.Fits`).
- A `recv()` asked for no room answers 0. The model treats it as a closed peer, which is what
  the code does with a 0.
- HttpConnection.Conn.constructor: the C++ constructor leaves every field indeterminate. The
  model starts from a closed connection in the state `init()` leaves.
- `init()` does not unmap a file mapped for an earlier request, and neither does
  `close_conn`. The model keeps the `mapped` flag as it was, but does not model the leak
  further.
- A failure of `open` or `mmap` after a successful `stat` is not modelled. The code does not
  check for it.
- The path is not normalised. `doc_root` plus the URL is only bounded in length, so nothing
  beyond the bound is proved.
- `atol` is modelled as glibc's `strtol` in base 10: leading white space, an optional sign,
  decimal digits, saturating at the range of `long`. `vsnprintf` is modelled only for the
  concrete `%s` and `%d` formats the code uses.
- The `default: INTERNAL_ERROR` branch of `process_read` is unreachable, because the state
  has three values. The model's `match` has no such case.
- HttpConnection.Conn.AddHeaders: returns nothing. The source function has no return
  statement and no caller uses its result.
