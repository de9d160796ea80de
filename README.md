# Ethernut HTTP daemon, service threads and Shoutcast player — a Dafny model

This project models the request engine of the Nut/OS embedded web server
(`httpd.c`), the worker-thread bookkeeping and the `ShowQuery` CGI of the
sample application that runs it (`main.c`), and the Shoutcast receiver of the
MP3 player sample (`PlayStream.c`).

It covers:

* **MIME lookup.** The extension table is scanned in order and compared without
  regard to case. An empty name gives `text/html` and an unknown extension gives
  `text/plain`. As in the C code, the comparison window is the last
  `strlen(ext)` bytes of the name, so a name shorter than an extension is
  compared together with the bytes stored in memory just before it (the
  `before` parameter, which `Env` supplies separately for the file name and
  for `req_url`).
* **URL decoding in place.** `+` becomes a space and `%xy` becomes one byte, as
  `strtol` reads it: an invalid hex digit ends the number. A `%` within two
  characters of the end makes the C loop step over the terminating NUL. The
  model reports that case as `None` instead of following the loop past the
  end of the string.
* **Query strings.** The query is cut at every `&`. The entries and the `=`
  inside each are NUL-terminated in the same buffer, the table
  `req_qptrs` is filled in, and every name and value is URL-decoded in place.
* **Request lines.**
  * `NextWord` splits the first line into method, path and protocol.
  * The method must be GET, HEAD or POST (otherwise 501), and the path and
    protocol must not be empty (otherwise 400).
  * HTTP/1.0 versus 1.1 decides the connection mode.
  * The keep-alive countdown starts at `HTTP_KEEP_ALIVE_REQ` (5).
* **Header lines.**
  * The line is cut at CR and LF, and the field name is matched without regard
    to case.
  * `HeaderFieldValue` keeps the first value of a string field, with leading
    blanks removed. A failed allocation ends the header loop.
  * Content-Length and If-Modified-Since are overwritten by every line of their
    name.
  * For `Connection:`, the value is read from offset 12 of the line, one past
    the colon. A line sets the mode only when the text there starts with
    `close` or `Keep-Alive`, and the last such line wins. `Connection:close`
    and `Connection:  close` leave the mode unchanged.
* **Response text.** `NutHttpSendHeaderTop`, `NutHttpSendHeaderBot`,
  `NutHttpSendHeaderBottom` and `NutHttpSendError` produce the status line, the
  Content-Type, Content-Length and Connection lines, the
  `WWW-Authenticate` realm and the canned error body.
* **File requests.**
  * `CreateFilePath` joins the root, the URL and a default file name.
  * Authorization comes first (401). A URL under `cgi-bin/` goes to the CGI
    registered under the rest of its name; an unregistered name gets 404,
    which closes the connection like every status of 400 or more.
  * Otherwise the default files are probed in order: 500 if a path cannot be
    allocated, 404 if no file is found.
  * With `HTTP_OF_USE_FILE_TIME` set and no MIME handler for the file, a 304
    is sent when `st_mtime` is not newer than If-Modified-Since. When `stat`
    fails, the code still compares `s.st_mtime`, which then holds whatever
    the buffer held (`Env.staleMtime`), not the file's time.
  * The file is sent in 512-byte chunks, or only its header for HEAD.
  * `NutRegisterHttpRoot` sets the root.
* **The connection loop.** `NutHttpProcessRequest` is modelled over a socket
  whose input is a sequence of lines. Each round reads a request and answers
  it. The loop ends when the connection is closed.
* **`main.c` worker pool.**
  * `httpd_tc` and `httpd_id` with `HTTPD_MIN_THREADS` = 4 and
    `HTTPD_MAX_THREADS` = 16.
  * The two `wcntr` countdowns that wait for heap memory and for a stream.
  * A worker starts a replacement before it serves.
  * A worker exits after serving while at least the minimum number of workers
    runs.
* **`ShowQuery`.** The method name and the `major.minor` version text.
* **`PlayStream.c`.**
  * `ConnectStation` sends the station request and scans the reply header for
    `icy-metaint:`. The value is stored into a 32-bit `u_long`, so a negative
    one wraps around modulo 2^32.
  * `ProcessMetaData` reads a metadata block of up to 32 × 16 bytes.
  * In `PlayMp3Stream`, reads are clamped to `mp3left` so that a metadata block
    is read after exactly `metaint` audio bytes. The method is proved to read
    the stream exactly as the function `Icy.Play` says, and the framing is
    proved about that function.

## How the model is built

Outside effects become explicit inputs:

* **Streams.** A `Streams.Socket` class holds the input lines, a read position
  and the output text written so far. Methods that read and write it are
  proved against functions that give the output text and the new position.
* **Allocation.** The outcome of every `malloc` is the parameter
  `Env.alloc(requestNo, site)`.
* **File system and server settings.**
  * The file system is a map from path to contents.
  * File times and If-Modified-Since parsing are functions in `Env`, and so are
    the authorization check and the registered MIME handlers.
  * `NutVersionString()` is `Env.version`.
* **Player inputs.** The radio stream is a byte sequence plus the size of
  every successive `fread`. For `PlayMp3Stream`, the free space of the segment
  buffer on each pass is the sequence `room`.

Code that works on arrays in place stays imperative:

* URL decoding, the `req_qptrs` table and the byte loops are methods
  over `array<char>`.
* The thread counters form a class `Pool.Workers`.

Pure decisions are functions with lemmas: MIME lookup, `CreateFilePath`, header
classification and the response texts.

`HTTP_KEEP_ALIVE_REQ` is documented as the maximum number of requests per
connection. However, the countdown at `httpd.c:892-897` forces `close` only
after it reaches zero, so a sixth request on one connection is still answered
(with `Connection: close`). The model follows the code: one connection is
served for at most `KeepAliveRequests + 1` rounds.

## Model

| member | source | states |
|---|---|---|
| CString.SkipBlanks | source/httpd.c:759-760 | the result is a suffix of the input that starts with a non-blank, and everything skipped is a space or tab |
| CString.Atol | source/httpd.c:829 | `atol`: blanks, a sign, then the leading digits; AtolDecimalThen and AtolSignedDecimalThen state that it reads back what `%ld` prints |
| CString.AtolDecimalThen | source/httpd.c:829 | a non-negative number printed in decimal and followed by a non-digit reads back as itself |
| CString.AtolSignedDecimalThen | source/PlayStream.c:307 | a number of either sign printed with `%ld` and followed by a non-digit reads back as itself |
| Mime.ExtensionsAreShort | source/httpd.c:162-177 | every extension in the table has between 1 and 6 characters |
| Mime.Window | source/httpd.c:373 | the compared window is the name's last `strlen(ext)` characters when the name is long enough, and never longer than the extension |
| Mime.FirstMatchIsFirst | source/httpd.c:372-375 | the scan returns the first entry whose extension matches the name's tail ignoring case, or entry 0 when none matches |
| Mime.MimeIndex | source/httpd.c:365-376 | the entry chosen for a name is always inside the table |
| Mime.GetMimeType | source/httpd.c:365-376 | the MIME type returned is always one of the table's types |
| Mime.GetMimeHandler | source/httpd.c:393-404 | a handler is returned exactly when the entry chosen by the same scan has one registered, and it belongs to the same entry as `NutGetMimeType`'s answer |
| Mime.EmptyNameIsHtml | source/httpd.c:370-371 | a null or empty name gives `text/html` |
| Mime.FirstSuffixIsFirst | source/httpd.c:372-375 | the in-bounds suffix scan returns the first matching entry, or entry 0 when none matches |
| Mime.LongNameScan | source/httpd.c:372-375 | for a name at least as long as every extension, the scan gives the same entry as a scan that looks only at the name |
| Mime.LongNameLookup | source/httpd.c:365-376 | a name of 6 or more characters gets the same type whatever lies before it, and `text/plain` when no extension matches |
| Mime.HtmlExample | source/httpd.c:365-376 | `index.html` is served as `text/html` |
| Mime.HtmSkipsFirstEntries | source/httpd.c:372-374 | for `INDEX.HTM` the first four entries do not match |
| Mime.HtmMatchesEntry4 | source/httpd.c:372-374 | `INDEX.HTM` matches the `.htm` entry ignoring case |
| Mime.UpperCaseExample | source/httpd.c:365-376 | `INDEX.HTM` is `text/html` via entry 4 |
| Mime.ShortNameReadsBeforeIt | source/httpd.c:373 | the name `tml` stored right after `.sh` matches `.shtml`, and with other bytes before it does not: the lookup reads memory before a short name |
| UrlCodec.HexValue | source/httpd.c:425-427 | a hex digit's value is below 16 |
| UrlCodec.EscapeByte | source/httpd.c:425-428 | `%xy` yields one byte, 16·x + y for two hex digits |
| UrlCodec.Decode | source/httpd.c:417-434 | `NutHttpURLDecode` as a function, None on a truncated escape; DecodeShrinks, DecodeAppend, DecodeEncode and URLDecode state what it does |
| UrlCodec.DecodeShrinks | source/httpd.c:417-434 | the decoded text is never longer than the input |
| UrlCodec.DecodePlain | source/httpd.c:430-431 | text without `+` or `%` decodes to itself |
| UrlCodec.DecodeAppend | source/httpd.c:421-432 | decoding is compositional over concatenation |
| UrlCodec.MalformedEscapes | source/httpd.c:425-427 | `strtol` stops at the first non-hex digit: `%zz` gives NUL, `%-1` gives 0xFF, `%0x` gives NUL |
| UrlCodec.TruncatedEscapes | source/httpd.c:424-429 | a `%` within two characters of the end is a truncated escape, and `%41` gives `A` |
| UrlCodec.DecodeEncode | source/httpd.c:417-434 | decoding the percent-encoding of any byte string gives that string back |
| UrlCodec.EscapedSpace | source/httpd.c:424-429 | `%20` decodes to a space |
| UrlCodec.PlusIsSpace | source/httpd.c:422-423 | `+` decodes to a space |
| UrlCodec.DecodeStep | source/httpd.c:421-432 | one step of the loop extends the decoded prefix by the head character |
| UrlCodec.DecodeTruncated | source/httpd.c:424-429 | a truncated escape anywhere makes the whole decode fail |
| UrlCodec.ReadStep | source/httpd.c:422-431 | reading one input unit reports truncation exactly when it happens, and otherwise returns its width and output byte |
| UrlCodec.DecodeOne | source/httpd.c:421-432 | the loop body writes the next decoded byte in place and keeps the undecoded rest intact |
| UrlCodec.URLDecode | source/httpd.c:417-434 | the buffer afterwards holds the decoded string terminated by NUL, or the decode is reported truncated; nothing outside the string changes |
| Query.AmpsGrow | source/httpd.c:455-457 | the `&` positions found in a prefix are a prefix of those found in a longer one |
| Query.AmpsCount | source/httpd.c:454-457 | the positions found are exactly the `&` characters |
| Query.SegmentBounds | source/httpd.c:467-474 | each entry lies between two `&`s (or the ends) and contains none |
| Query.Segment | source/httpd.c:467-474 | an entry contains no `&` |
| Query.SegmentsCount | source/httpd.c:454-457 | there are 1 + (number of `&`) entries, none containing `&` |
| Query.JoinSegments | source/httpd.c:465-474 | joining the entries with `&` gives the query back |
| Query.DecodeSegment | source/httpd.c:475-486 | one entry split at its first `=` and both halves decoded; SegmentWithValue and SegmentWithoutValue state the split |
| Query.DecodeParams | source/httpd.c:476-486 | a successful decode has one parameter per entry |
| Query.DecodeParamsStaysNone | source/httpd.c:476-486 | once an entry fails to decode, the whole table fails |
| Query.ParseQuery | source/httpd.c:446-487 | no query, no table memory, an overrun, or the decoded entries; ParseQueryEntries and ProcessQueryString state it |
| Query.ParseQueryEntries | source/httpd.c:446-487 | the table has 1 + (number of `&`) entries, and entry k is the decoding of segment k |
| Query.DecodeParamsEntry | source/httpd.c:476-486 | entry k of the table is the decoding of segment k |
| Query.SingleName | source/httpd.c:465-485 | a query without `&` or `=` is one parameter, its decoded name, with no value |
| Query.SegmentWithValue | source/httpd.c:477-485 | an entry with `=` splits at the first `=` into a decoded name and a decoded value |
| Query.SegmentWithoutValue | source/httpd.c:477-485 | an entry without `=` is a decoded name with no value |
| Query.FindEquals | source/httpd.c:477-478 | the scan stops at the first `=` or at the terminator |
| Query.CutValue | source/httpd.c:478-481 | the `=` becomes NUL and the value is decoded in place after it |
| Query.DecodePair | source/httpd.c:478-485 | name and value are both decoded in place, and the call succeeds exactly when both decodes do |
| Query.DecodeEntry | source/httpd.c:476-486 | the entry is decoded in place, and the value slot is set exactly when the entry has a value |
| Query.Layout | source/httpd.c:465-474 | after cutting, segment k lies between its recorded start and a NUL |
| Query.SegmentOverrun | source/httpd.c:476-486 | a truncated escape in any entry fails the table |
| Query.CountEntries | source/httpd.c:454-457 | `req_numqptrs` is 1 + the number of `&` |
| Query.CutSegments | source/httpd.c:465-474 | every `&` is replaced by NUL, name slots hold the segment starts, and value slots are null |
| Query.DecodeParamsSnoc | source/httpd.c:476-486 | decoding one more entry extends the table by that entry |
| Query.StoreEntry | source/httpd.c:476-486 | one pass of the decode loop leaves entry k's name and value in place and changes no other slot |
| Query.Advance | source/httpd.c:476-486 | the loop invariant advances by one entry or reports the overrun |
| Query.DecodeEntries | source/httpd.c:476-486 | after the loop every entry holds its decoded parameter, unless a truncated escape overran |
| Query.ProcessQueryString | source/httpd.c:446-487 | with the table allocated, `req_qptrs` holds every decoded parameter; when allocation fails, `req_numqptrs` is 0 and the query is untouched |
| Requests.WordEnd | source/httpd.c:631-632 | the word ends at the first space or tab |
| Requests.NextWord | source/httpd.c:629-638 | the word has no blanks, and the rest is a suffix of the input that starts with a non-blank |
| Requests.NextWordJoin | source/httpd.c:629-638 | the word followed by blanks and a rest splits back into exactly those two parts |
| Requests.NextWordLast | source/httpd.c:629-638 | a single word leaves an empty rest |
| Requests.RequestLine | source/httpd.c:860-862 | method, path and protocol are blank-free |
| Requests.RequestLineJoin | source/httpd.c:860-862 | `method path protocol` splits back into its three words |
| Requests.MethodOf | source/httpd.c:865-874 | a recognised method is never unset |
| Requests.NewRequest | source/httpd.c:645-654 | `CreateRequestInfo`: every field cleared and the version 11; RoundAnswers starts each pass from it |
| Requests.Negotiate | source/httpd.c:881-889 | HTTP/1.0 sets version 10 and keeps keep-alive only if the client asked for it; other protocols keep the connection open unless it was closed; nothing else changes |
| Requests.Budget | source/httpd.c:892-897 | the budget drops by one while positive; only the connection mode changes, and it is close exactly when the budget is spent or the request was already closing |
| Headers.Chop | source/httpd.c:816-822 | the line is a prefix of what was read, cut before CR, LF and NUL |
| Headers.Index | source/httpd.c:825-856 | each field kind has its place in the name table |
| Headers.NameLengths | source/httpd.c:825-849 | the name lengths match the offsets used (14, 15, 13, 7, 11, 18, 8, 5, 11) |
| Headers.FirstPrefixIs | source/httpd.c:825-856 | the first name that prefixes the line, ignoring case, is the one chosen |
| Headers.Classify | source/httpd.c:825-856 | a classified line starts with its field name, ignoring case |
| Headers.ClashAt | source/httpd.c:825-849 | any two field names differ, ignoring case, at some position within both |
| Headers.ClassifyByName | source/httpd.c:825-856 | a line that starts with a field name is classified as that field |
| Headers.HeaderFieldValue | source/httpd.c:754-767 | a set field is kept; an unset one gets the value with leading blanks skipped; the failure flag is raised exactly when allocation fails for an unset field |
| Headers.Store | source/httpd.c:825-848 | storing a string field never changes Content-Length, If-Modified-Since or the connection mode |
| Headers.ReadFrom | source/httpd.c:814-857 | the header loop reads forward and never past the input |
| Headers.ReadHeaders | source/httpd.c:814-857 | the loop leaves the request and read position given by the header function, and writes nothing |
| Headers.StoreKeeps | source/httpd.c:757 | storing one field leaves another field that is already set unchanged |
| Headers.Capture | source/httpd.c:819-856 | one header line stored into the request; CaptureKeeps, CaptureSets, CaptureOther, CaptureOwn, CaptureMode and CaptureKeepsMode state what each kind of line changes |
| Headers.ConnectionValue | source/httpd.c:850-855 | the mode a Connection line's text at offset 12 selects; ConnectionOffset and LastConnectionWins state it |
| Headers.CaptureKeeps | source/httpd.c:757 | no header line changes a string field that is already set |
| Headers.CaptureSets | source/httpd.c:754-767 | a line of an unset field stores its value with blanks skipped |
| Headers.CaptureOther | source/httpd.c:825-856 | a line of another name leaves Content-Length or If-Modified-Since unchanged |
| Headers.CaptureOwn | source/httpd.c:828-841 | a Content-Length or If-Modified-Since line assigns its parsed value |
| Headers.FirstValueStays | source/httpd.c:757-766 | once set, a string field keeps its value to the end of the header |
| Headers.FirstValueCaptured | source/httpd.c:754-767 | the first line of a string field decides its value |
| Headers.ScalarUnchanged | source/httpd.c:813-841 | without a line of its name before the header's empty line (or the end of the input), Content-Length or If-Modified-Since keeps its value |
| Headers.LastLengthWins | source/httpd.c:813-829 | Content-Length is `atol` of the last such line before the header's empty line, whatever later requests on the connection say |
| Headers.LastImsWins | source/httpd.c:813-841 | If-Modified-Since is the parse of the last such line before the header's empty line |
| Headers.CaptureKeepsMode | source/httpd.c:823-856 | a line that does not set the mode leaves it alone |
| Headers.ModeUnchanged | source/httpd.c:813-857 | without a line that sets the mode before the header's empty line, the header loop leaves the mode as it was |
| Headers.CaptureMode | source/httpd.c:849-856 | a Connection line assigns the mode its text at offset 12 selects |
| Headers.LastConnectionWins | source/httpd.c:813-856 | the last Connection line of the header whose value starts with `close` or `Keep-Alive` decides the mode |
| Headers.ConnectionChop | source/httpd.c:816-849 | a `Connection:` line is chopped at its CR and classified as Connection |
| Headers.LineBuffer | source/httpd.c:816-822 | the buffer of a line holds its text, a NUL where the CR was, and then the LF |
| Headers.TextAtOffset | source/httpd.c:816-850 | the text at offset k of a line is the rest of the line from k |
| Headers.ConnectionLine | source/httpd.c:849-856 | a `Connection:` line with value v sets the mode from v without its first character |
| Headers.ConnectionOffset | source/httpd.c:850-853 | `Connection:close` and `Connection:  close` leave the mode unchanged, and `Connection: close` closes |
| Responses.HeaderTop | source/httpd.c:214-225 | the status line and Server line; StatusLineReadsBack states that the status reads back after `HTTP/1.1 ` |
| Responses.StatusLineReadsBack | source/httpd.c:214-218 | the reply starts `HTTP/1.1 ` and the number after it reads back as the status |
| Responses.HeaderBot | source/httpd.c:243-251 | the Content-Type and Content-Length lines and the empty line; HeadersEndInEmptyLine and HeaderBottomExtendsBot state it |
| Responses.HeaderBottom | source/httpd.c:269-288 | the same lines, then the Connection line and the empty line; HeadersEndInEmptyLine and HeaderBottomExtendsBot state it |
| Responses.HeadersEndInEmptyLine | source/httpd.c:243-288 | both header endings finish the header with an empty line |
| Responses.HeaderBottomExtendsBot | source/httpd.c:243-288 | `NutHttpSendHeaderBottom` is `NutHttpSendHeaderBot` with the Connection line before the blank line |
| Responses.Title | source/httpd.c:306-328 | the title of each status; TitleIsErrorExactlyForUnknown states which statuses get `Error` |
| Responses.ErrorBody | source/httpd.c:300-347 | the canned page naming status and title; ErrorReplyStatus states the status line in front of it |
| Responses.TitleIsErrorExactlyForUnknown | source/httpd.c:306-328 | the title is `Error` exactly for statuses other than 304, 400, 401, 404, 500 and 501 |
| Responses.Realm | source/httpd.c:337-342 | the realm is the URL up to its last `/`, or `.` when it has none |
| Responses.ErrorReply | source/httpd.c:330-332 | the connection closes exactly when the status is at least 400 or it was already closed; nothing else in the request changes |
| Responses.NotModifiedHasBody | source/httpd.c:334-348 | a 304 keeps the connection mode and still carries the HTML error body |
| Responses.ErrorReplyStatus | source/httpd.c:300-349 | every error reply's status line reads back as its status |
| Responses.SendError | source/httpd.c:300-349 | the socket output grows by exactly the error reply, and the request is updated as the reply says |
| Files.RegisterHttpRoot | source/httpd.c:699-714 | an empty or null path clears the root; a failed allocation returns -1 and leaves no root; otherwise the path becomes the root |
| Files.RegisteredRootIsUsed | source/httpd.c:491 | paths use the registered root, or `UROM:` when none is registered |
| Files.DefaultFileShape | source/httpd.c:185-196 | every default file after the empty first one is a single `/name` component |
| Files.CreateFilePath | source/httpd.c:489-503 | root, URL and addon; FilePathFits, FilePathJoin and FirstProbeIsUrl state its shape |
| Files.FilePathFits | source/httpd.c:489-503 | the path fits the length the code allocates, starts with root and URL, and ends with the addon less at most its first character |
| Files.FilePathJoin | source/httpd.c:489-503 | root + URL is followed by the default file name, with its slash dropped when the URL is empty or ends in `/` |
| Files.FirstProbeIsUrl | source/httpd.c:489-503 | the first probe is root + URL |
| Files.ProbeFindsFirst | source/httpd.c:536-546 | a found file is the first default name that is allocated and exists |
| Files.ProbeNotFound | source/httpd.c:536-550 | 404 exactly when every probe's path was allocated and no file exists |
| Files.ProbeNoMemory | source/httpd.c:536-541 | 500 comes from a failed path allocation before any file was found |
| Files.ProbeFrom | source/httpd.c:536-550 | the probe of the default files; ProbeFindsFirst, ProbeNotFound and ProbeNoMemory state its three outcomes |
| Files.FindFile | source/httpd.c:536-550 | the probing loop computes the probe function |
| Files.ChunksCoverFile | source/httpd.c:606-618 | the chunks add up to the file length, each is at most 512 bytes, all but the last are full, and there are ⌈len/512⌉ of them |
| Files.Transfer | source/httpd.c:606-618 | the chunk loop sends exactly the file contents in those chunks |
| Files.FoundReply | source/httpd.c:553-623 | serving a found file does not change the request |
| Files.CgiName | source/httpd.c:526-529 | the name after `cgi-bin/`, which with the prefix gives the URL back |
| Files.CgiServes | source/httpd.c:526-529 | a `cgi-bin/` URL whose name a CGI is registered under; FileReplyStatus and UnknownCgiEndsLoop state what happens otherwise |
| Files.NotModified | source/httpd.c:557-575 | the 304 test; FileReplyStatus and StaleTimeGives304 state when it decides the reply |
| Files.FileReply | source/httpd.c:505-624 | a file request changes only the connection mode, and never reopens a closed connection |
| Files.FileReplyStatus | source/httpd.c:505-624 | unless a registered CGI answers, the status is 401, 404 for an unregistered CGI name, 500, 404, 304 or 200, in the order the code checks them |
| Files.FoundReplyStatus | source/httpd.c:553-605 | a found file gets 304 when it has no handler and is not modified, and 200 otherwise |
| Files.StaleTimeGives304 | source/httpd.c:559-575 | when `stat` fails, the stale `st_mtime` decides: not newer than If-Modified-Since gives 304, whatever the file |
| Files.FileBody | source/httpd.c:596-621 | the header bottom, then the file or its handler's output; FileFollowsHeader states the case without a handler |
| Files.FileFollowsHeader | source/httpd.c:599-621 | without a handler, the header carries the file length and ends in a blank line; HEAD gets only the header, and otherwise the whole file follows |
| Files.ProcessFileRequest | source/httpd.c:505-624 | the socket output grows by exactly the file reply |
| Files.SendFound | source/httpd.c:553-623 | the output for a found file is exactly its reply |
| Engine.SplitQuery | source/httpd.c:899-912 | the path is cut at the first `?` into URL and query, and nothing is lost |
| Engine.Prepare | source/httpd.c:899-912 | no request exactly when the copy of the query or of the path cannot be allocated; otherwise the URL is the path before `?` and the mode is kept |
| Engine.Respond | source/httpd.c:914-918 | a request that is closing stays closing |
| Engine.Dispatch | source/httpd.c:899-923 | dispatch reads no input; an allocation failure sends nothing and ends the loop; otherwise the loop goes on exactly when the answer leaves the request not closing |
| Engine.StatusDecidesLoop | source/httpd.c:914-923 | a reply that is not a registered CGI's output starts with a status line, and the loop goes on exactly when the status is below 400 and the request is not closing |
| Engine.ServesCgi | source/httpd.c:526-529 | a request a registered CGI answers; StatusDecidesLoop and CgiKeepsConnection split on it |
| Engine.CgiKeepsConnection | source/httpd.c:914-923 | after the output of a registered CGI the loop goes on exactly when the request is not closing |
| Engine.UnknownCgiEndsLoop | source/httpd.c:526-529 | a `cgi-bin/` name with no CGI registered gets a 404, which ends the loop even on a keep-alive request |
| Engine.OutOfMemorySendsNothing | source/httpd.c:788-911 | a failed allocation of the request, a line buffer, the query or the path sends nothing and ends the loop |
| Engine.Answer | source/httpd.c:860-897 | another round follows only if the keep-alive budget was positive, and it is then decremented |
| Engine.RoundAt | source/httpd.c:788-923 | a further round follows only after input was consumed and budget spent |
| Engine.Serve | source/httpd.c:788-924 | the loop never reads past the input |
| Engine.RoundsBounded | source/httpd.c:786-897 | a connection is served for at least 1 and at most budget + 1 rounds |
| Engine.ExhaustedBudgetCloses | source/httpd.c:892-897 | with the budget spent, the current round is the last |
| Engine.RequestLineErrors | source/httpd.c:865-878 | an unknown method gets 501, an empty path or protocol gets 400, and either ends the loop |
| Engine.RoundAnswers | source/httpd.c:788-858 | a round reads the header lines into a fresh request, then answers the request line |
| Engine.CloseEndsLoop | source/httpd.c:921-923 | a request already closing when dispatched ends the loop, whatever the answer |
| Engine.AnswerDispatches | source/httpd.c:860-897 | a valid request line is negotiated, charged to the budget and dispatched |
| Engine.Finish | source/httpd.c:899-923 | the tail of a round writes exactly the dispatch output |
| Engine.AnswerRequest | source/httpd.c:860-923 | answering writes exactly the answer and returns its budget and continuation |
| Engine.ServeRound | source/httpd.c:788-923 | one round writes exactly the round's output and advances the input to the round's end |
| Engine.ProcessRequest | source/httpd.c:778-928 | the connection's output is exactly that of the served rounds, at most 6 of them |
| Pool.Spawn | source/main.c:716-731 | `httpd_id` grows exactly when below the maximum, `httpd_tc` grows exactly when a thread was also created, and never beyond 16 |
| Pool.Leave | source/main.c:703-709 | a worker exits exactly when at least 4 are counted, decrementing `httpd_tc` |
| Pool.RunBounded | source/main.c:703-731 | in any sequence of starts and exits the thread count stays between 0 and 16 |
| Pool.IdsIncrease | source/main.c:716-731 | thread ids are handed out strictly increasing |
| Pool.Countdown | source/main.c:645-667 | the countdown admits exactly when the resource appears within 10 sleeps, and ends at -1 otherwise |
| Pool.Workers.constructor | source/main.c:140 | the counters start at zero |
| Pool.Workers.StartServiceThread | source/main.c:716-731 | the counters change as the spawn rule says |
| Pool.Workers.StartAll | source/main.c:959-961 | the initial loop tries 4 threads and counts those created |
| Pool.Workers.ServiceRound | source/main.c:589-711 | a worker spawns a replacement and then serves exactly when socket, accept, memory and stream all succeed; afterwards it exits by the exit rule |
| CgiSample.MethodName | source/main.c:277-290 | `UNKNOWN` exactly for an unset method |
| CgiSample.MethodNameRoundTrip | source/main.c:277-290 | the printed method name parses back to the same method |
| CgiSample.VersionPartsReadBack | source/main.c:291 | `major.minor` reads back both parts |
| CgiSample.VersionTextReadsBack | source/main.c:291 | the version line reads back as version/10 and version%10 |
| CgiSample.KnownVersionTexts | source/main.c:291 | versions 10 and 11 print as `1.0` and `1.1` |
| CgiSample.NumberLineReadsBack | source/main.c:291 | a number line reads back as its value |
| CgiSample.ShowQuery | source/main.c:256-323 | the report page; ShowQueryReports states its method and Length lines |
| CgiSample.ShowQueryReports | source/main.c:256-323 | the page starts with the method line, and its Length line reads back as `req_length` |
| Icy.Got | source/PlayStream.c:437 | a read returns at most what was asked, and something exactly when data is available |
| Icy.Stream.Read | source/PlayStream.c:437 | the stream's `fread` returns and advances as the read function says |
| Icy.StationRequestParses | source/PlayStream.c:273-281 | the station request is a GET of the radio URL with HTTP/1.0, closing the connection |
| Icy.Classify | source/PlayStream.c:293-308 | a header line skipped, empty, carrying the interval modulo 2^32, or other; TaggedLine, NegativeMetaintWraps and AnnouncementKinds state it |
| Icy.CutCR | source/PlayStream.c:293-298 | a kept line is a CR-free prefix of what was read |
| Icy.Kinds | source/PlayStream.c:287-310 | one kind per header line |
| Icy.KindAt | source/PlayStream.c:287-310 | the kind of line k is its classification |
| Icy.ScanHeader | source/PlayStream.c:287-310 | the header ends after the first empty line or at the end of input, and without `icy-metaint:` lines `metaint` is untouched |
| Icy.ScanStep | source/PlayStream.c:303-308 | an empty line ends the scan, and any other line carries `metaint` forward |
| Icy.LastMetaintWins | source/PlayStream.c:306-308 | `metaint` is the value of the last `icy-metaint:` line of the header |
| Icy.TaggedLine | source/PlayStream.c:293-308 | a tagged line is read as `atol` of its value modulo 2^32 |
| Icy.NegativeMetaintWraps | source/PlayStream.c:306-308 | a negative value wraps modulo 2^32 into the `u_long`: `icy-metaint:-1` gives 4294967295 |
| Icy.AnnouncementKinds | source/PlayStream.c:306-308 | `icy-metaint:N` is read as N modulo 2^32, and CRLF alone ends the header |
| Icy.AnnouncedMetaint | source/PlayStream.c:287-310 | a status line, a metaint line and a blank line yield that interval, modulo 2^32, after three lines |
| Icy.ConnectStation | source/PlayStream.c:248-316 | on success the request is written and the header scanned, and the interval is the scan's, never negative; on failure nothing is written or read |
| Icy.ReadHeader | source/PlayStream.c:287-310 | the header loop computes the header scan |
| Icy.HeaderLine | source/PlayStream.c:293-308 | one line ends the header exactly when empty, and an `icy-metaint:` line sets `metaint` to `atol` of its value modulo 2^32 |
| Icy.Fill | source/PlayStream.c:350-359 | the fill loop succeeds by consuming exactly `cnt` bytes, and fails when fewer are there |
| Icy.FillSucceeds | source/PlayStream.c:350-359 | with enough data and non-empty reads, the fill succeeds |
| Icy.MetaBlock | source/PlayStream.c:321-365 | a failed length read, more than 32 blocks or a failed allocation give -1; a zero length gives 0; success consumes 1 + 16·blocks bytes |
| Icy.MetaBlockSucceeds | source/PlayStream.c:321-365 | with enough data, memory and non-empty reads, the block is consumed |
| Icy.ProcessMetaData | source/PlayStream.c:321-365 | the method returns and consumes what the metadata function says |
| Icy.AudioRead | source/PlayStream.c:436-448 | an audio read keeps the framing and lowers `mp3left`, or makes a block due |
| Icy.BlockRead | source/PlayStream.c:444-447 | reading a due block resets `mp3left` to `metaint` |
| Icy.PlaybackEnds | source/PlayStream.c:463-465 | an empty read ends playback with the framing kept |
| Icy.Step | source/PlayStream.c:437-448 | one read gets no more than it asks for, and with an interval leaves no more to read than is due before the next block |
| Icy.Drain | source/PlayStream.c:436-461 | a pass only moves forward on the stream |
| Icy.Play | source/PlayStream.c:407-466 | playback only moves forward on the stream |
| Icy.StepPlays | source/PlayStream.c:437-448 | one read keeps the framing; a read of nothing ends playback with the log played out |
| Icy.DrainPlays | source/PlayStream.c:436-461 | a pass keeps the framing, and `got` is the last audio read's |
| Icy.PlayFrames | source/PlayStream.c:407-466 | blocks come every `metaint` audio bytes, no read crosses a block, and playback stops exactly when a pass ends with a read of nothing |
| Icy.ReadOnce | source/PlayStream.c:437-448 | one read on the stream moves the cursor and logs exactly as `Step` says |
| Icy.ReadPass | source/PlayStream.c:436-461 | the inner loop reads the stream exactly as `Drain` says |
| Icy.PlayMp3Stream | source/PlayStream.c:372-467 | the stream is read, and the events logged, exactly as `Play` says; so a block is read after exactly `metaint` audio bytes, no read asks past the next block, and playback stops exactly on an empty read |

## Left out

- Date and Last-Modified lines: they come from the wall clock and from `Rfc1123TimeString`, neither of which is modelled.
- `DestroyRequestInfo` and every `free`: the model has no heap, so releasing memory has no effect on what is modelled.
- `CreateRequestInfo` is the value `Requests.NewRequest` (all fields cleared, version 11). Its allocation failure is `Env.alloc(reqNo, SiteRequest)`.
- `NutHttpSetOptionFlags` and `NutHttpGetOptionFlags`: they only store a word. The option that matters, using file times, is part of `Env`.
- The registered CGI functions, `NutDecodePath`, `NutHttpAuthValidate`, `RfcTimeParse` and the MIME handlers (SSI, ASP) are code outside this model. They are parameters in `Env`. Of `NutCgiProcessRequest` the model keeps the lookup: a name registered in `Env.cgiNames` runs the CGI, whose output is `Env.cgi`; any other name is answered 404 through `NutHttpSendError`, which closes the connection.
- Engine.CgiKeepsConnection: a registered CGI is taken to leave `req_connection` alone, as the CGI functions of `main.c` do; one that changes it is not modelled.
- Files.Transfer: assumes `_read` returns the full chunk it asks for, and does not model the `fwrite` returning 0 break, because the file system and the socket are not modelled.
- Engine.ProcessRequest: the 256-byte `fgets` limit is not modelled. Request and header lines arrive whole.
- Icy.ReadHeader: the 512-byte `fgets` limit is abstracted the same way. A line without CR is skipped, as in the code.
- Mime.GetMimeType: the bytes before a short name are parameters, not real memory: `Env.beforeFile` for the handler lookup on the file name and `Env.beforeUrl` for the type lookup on `req_url`.
- Threads, scheduling, `NutSleep` and `NutThreadYield`: the worker pool is modelled one step at a time, without concurrency.
- Pool.Countdown: takes the success of each attempt as a function of the attempt number. It does not model the heap or stream pool changing for other reasons.
- `WriteHtmlIntro` and the date line of `ShowQuery`: the intro is page text, and the date is a parameter `dateText`.
- The diagnostic CGIs (`ShowThreads`, `ShowTimers`, `ShowSockets`, `ShowForm`, `ASPCallback`), `InitTimeAndDate`, `ConfigureLan`, and the `main` functions of both programs: board setup and printing.
- The VS1001 player, the segment buffer and the kick/timeout logic in `PlayMp3Stream`: these are hardware. The free space of each pass is the input `room`.
- Icy.PlayMp3Stream: runs one pass per element of `room`, which bounds the otherwise endless loop.
- `ProcessMetaData`: the metadata text itself is printed and not kept. The caller ignores the return code, and the model does too.
- `ConnectStation`: the `malloc` of the header line is unchecked, so the model assumes it succeeds.
- `ConnectStation`: console printing is not modelled.
- Icy.HeaderLine: the overflow of `atol` beyond a `long` is undefined in C and is not modelled; only the conversion of its result to the 32-bit `u_long` is.
