# tinyweb and membuf, modelled in Dafny

This project models tinyweb v3, a small libuv web server, together with membuf, the byte buffer it uses to accumulate each request.

**membuf** (module `Membuf`) is an auto-enlarging contiguous byte buffer:
- A `membuf_t` holds `data`, `size`, `buffer_size` and a 512-byte inline buffer embedded in the struct.
- `data` points either at the inline buffer or at a heap block.
- The model is the class `Membuf.MemBuf`:
  - `inlineBuffer` and `data` are arrays, and `data == inlineBuffer` is C's inline test.
  - A ghost `contents` holds the bytes the buffer contains.
  - `Valid()` is the representation invariant every operation but `Uninit` keeps: `size <= bufferSize`; inline storage means `bufferSize == 512`; heap storage is larger than 512.
- Growth doubles the buffer size in a `while` loop and zeroes the new tail.
- Exchange swaps two buffers in four cases.

**The request pipeline of tinyweb v3** is split over four modules.
- `Response`: `format_http_respone`, plus a decoder for exactly the layout it produces. The decoder is the partner the round-trip lemmas use.
- `Router`: `_get_content_type`, `_404_not_found`, `_on_send_file` and `tinyweb_on_request_get`.
  - `OnRequestGet`, `SendFile`, `Page` and `WriteUvData` return the list of actions they ask the event loop for: `Write(bytes)` or `Close`. The other functions compute the bytes those actions carry: the content type, the extension, the file path and the page texts.
  - The filesystem is a `readAll` oracle held in the configuration.
- `Framing`: the decisions of `on_uv_read` on values. These are:
  - the boundary search;
  - the NULs written into the accumulated bytes;
  - the `GET` test;
  - the scans that cut the path and the query.

  `Framing` also holds the write-then-close discipline as a state machine over reactor events: `Read(nread, chunk)`, `WriteDone(status)` and `Closed`.
- `Connection`: `on_uv_read` as the C code runs it, on the client's `MemBuf`. It writes NUL bytes into the buffer's storage and walks a pointer over whitespace. Its methods are proved equal to the `Framing` functions.

`Bytes` holds the libc routines the code relies on: `strlen`, `strchr`, `strrchr`, `strstr`, `snprintf` truncation and `isspace`. `Decimal` holds `%d` and its inverse.

Three behaviours of the code that the model keeps as they are:
- The request line is not cut at the first CR. The whole header before the boundary is scanned, so the path runs to the first space even across a line break.
- A missing query is NULL, not an empty string. It is modelled as `None`, and echoed as `(null)`, the way glibc prints a null `%s`.
- A `.` anywhere in the path makes a file request. The code does not check that the `.` comes after the last `/`.

## Model

| member | source | states |
|---|---|---|
| Bytes.StrLen | tinyweb3.c:88-89 | `strlen`: the index of the first NUL, with no NUL before it |
| Bytes.IndexOf | tinyweb3.c:216-218 | `strchr`: the index of the first occurrence of the byte, with none before it; None exactly when the byte does not occur |
| Bytes.LastIndexOf | tinyweb3.c:167 | `strrchr`: the index of the last occurrence of the byte, with none after it; None exactly when the byte does not occur |
| Bytes.Find | tinyweb3.c:207 | `strstr`: the first index where the pattern occurs, with no occurrence before it; None exactly when it occurs nowhere |
| Bytes.Truncate | tinyweb3.c:112 | what `snprintf` keeps: a prefix of the text of at most `cap` bytes, and the whole text when it fits |
| Bytes.TruncateExact | tinyweb3.c:112 | a text longer than `cap` is cut to exactly its first `cap` bytes, and a text that fits is kept whole |
| Bytes.IsSpaceBytes | tinyweb3.c:215 | `isspace` in the C locale accepts exactly space, `\t`, `\n`, `\v`, `\f` and `\r` |
| Membuf.MemBuf.Init | membuf.c:7-17 | size 0 and empty contents; storage is inline exactly when the requested size is at most 512, and then the buffer size is 512, not the size asked for; otherwise a heap block of exactly the requested size; the inline buffer is zeroed |
| Membuf.MemBuf.Uninit | membuf.c:19-25 | data is null, size and buffer size are 0, and the inline buffer is zeroed |
| Membuf.MemBuf.GetData | membuf.h:29 | null when size is 0, otherwise the storage pointer |
| Membuf.MemBuf.GetSize | membuf.h:30 | the number of bytes held, changing nothing |
| Membuf.MemBuf.Empty | membuf.h:31 | contents become empty; storage, buffer size and mode are unchanged |
| Membuf.MemBuf.IsEmpty | membuf.h:32 | true exactly when the buffer holds bytes (the code, not the name) |
| Membuf.MemBuf.EnsureNewSize | membuf.c:27-46 | afterwards `buffer_size - size >= k` and the contents are unchanged; with enough room nothing changes at all; otherwise the new size is the doubling of the old one until it covers `size + k`, storage is on the heap and so larger than 512, the tail past `size` is zero, and a vacated inline buffer is zeroed |
| Membuf.Doubled | membuf.c:31-33 | the doubling loop ends at a size no smaller than the one it started from and no smaller than the size needed |
| Membuf.GrowthIsMinimalDoubling | membuf.c:31-33 | the grown size is `old * 2^j` for the smallest `j >= 1` with `old * 2^j >= size + k` |
| Membuf.DoubledBelowTwiceNeed | membuf.c:31-33 | the grown size is below twice the size needed, so with `size + k <= 2^31` it fits an `unsigned int` |
| Membuf.MemBuf.AppendData | membuf.c:49-55 | contents become old contents followed by the data (never empty), the result is the old size, the buffer size follows the growth rule, and a zero tail stays zero |
| Membuf.MemBuf.AppendZeros | membuf.c:57-63 | exactly `n` zero bytes are appended even over stale bytes, and the result is the old size |
| Membuf.MemBuf.AppendText | membuf.c:65-69 | with `len == (unsigned)-1` appends `strlen(str)` bytes, otherwise exactly `len` bytes; the result is the old size |
| Membuf.MemBuf.AppendByte | membuf.h:44-46 | appends exactly the one byte, and the result is the old size |
| Membuf.MemBuf.Exchange | membuf.c:71-112 | each buffer ends with the other's old contents, size, buffer size and mode; heap blocks change owner; the contract is symmetric in the two operands, so `exchange(a, b)` and `exchange(b, a)` agree |
| Membuf.MemBuf.ExchangeInline | membuf.c:76-88 | both inline and the first no longer: the payloads are swapped through a scratch buffer, with sizes and buffer sizes |
| Membuf.MemBuf.ExchangeInlineWithHeap | membuf.c:89-94 | the inline buffer adopts the heap block; the other copies the inline bytes into its own inline buffer |
| Membuf.MemBuf.ExchangeHeap | membuf.c:96-99 | both on the heap: only the pointers, sizes and buffer sizes are swapped |
| Membuf.ExchangeTwice | membuf.c:71-112 | exchanging twice restores contents, sizes, buffer sizes, modes and storage of both buffers |
| Decimal.Digits | tinyweb3.c:94-95 | `%d` of a non-negative number is at least one decimal digit, with no leading zero unless the number is 0 |
| Decimal.ValueOfDigits | tinyweb3.c:94-95 | reading back the `%d` digits of `n` gives `n` |
| Decimal.DigitsOfInt | tinyweb3.c:90-95 | every number up to `INT_MAX` prints in at most ten digits |
| Response.BodyLength | tinyweb3.c:88-89 | a negative length becomes `strlen(content)`, or 0 for a null content; a non-negative one is kept |
| Response.FormatResponse | tinyweb3.c:85-103 | header, NUL terminator and body fit the `strlen(status) + strlen(type) + n + 128` bytes allocated |
| Response.ResponseSize | tinyweb3.c:92-101 | `*respone_size` is 59 bytes of fixed text plus status, type, length digits and the body length, and the response ends with exactly the first `n` bytes of the content |
| Response.ParseWire | tinyweb3.c:92-99 | decoding `"HTTP/1.1 " status "\r\nContent-Type:" type ";charset=utf-8\r\nContent-Length:" n "\r\n\r\n" body` gives back status, type, `n` and body |
| Response.FormatThenParse | tinyweb3.c:85-103 | a client decodes a formatted response into its status, its type, the body length used, and exactly that prefix of the content |
| Router.StartDocRoot | tinyweb3.c:27-28 | the document root is kept exactly when the argument is a non-empty string, so a configured root is never empty and holds no NUL |
| Router.ContentType | tinyweb3.c:141-158 | a content type holds no NUL, CR or ';', so it can be framed in the header |
| Router.ContentTypeByTable | tinyweb3.c:141-158 | the if-chain agrees with the extension table (exact, case-sensitive), and every other extension is `application/octet-stream` |
| Router.Extension | tinyweb3.c:167-169 | the text after the last `.` of the path: it holds no `.`, and the path is its head, a `.`, and it |
| Router.FilePath | tinyweb3.c:171-172 | a prefix of the document root followed by the path, of at most 1023 bytes, and all of it when it fits |
| Router.FilePathIs | tinyweb3.c:171-172 | the file looked up is the document root followed by the path, or exactly the first 1023 bytes of that |
| Router.NotFoundText | tinyweb3.c:111-112 | a prefix of `<h1>404 Not Found</h1><p>` path `</p>` of at most 1023 bytes, holding no NUL |
| Router.NotFoundTextIs | tinyweb3.c:111-112 | the 404 body is `<h1>404 Not Found</h1><p>` path `</p>` with the path unchanged, or exactly the first 1023 bytes of that |
| Router.EchoText | tinyweb3.c:190-191 | a prefix of the echo page with path and query, unescaped, of at most 1023 bytes, holding no NUL |
| Router.EchoTextIs | tinyweb3.c:190-191 | the echo page is its head, the path, its middle, the query (`(null)` when missing) and `</p>`, or exactly the first 1023 bytes of that |
| Router.WriteUvData | tinyweb3.c:59-77 | no action for empty data, otherwise exactly one write of the data |
| Router.PageParses | tinyweb3.c:183-193 | a page formatted with length -1 decodes to its status, type and exactly its text |
| Router.OneWrite | tinyweb3.c:64-76 | a response that decodes is not empty, so it goes out as exactly one write that decodes the same way |
| Router.PageReply | tinyweb3.c:113-114 | a page with length -1 goes out as one write that decodes to its status, its type and exactly its text |
| Router.FileReply | tinyweb3.c:132-134 | a file's bytes go out as one write that decodes to 200, the type and exactly those bytes |
| Router.FileRouted | tinyweb3.c:166-173 | a `.` path under a document root whose file exists gets the 200 response of the file's bytes with the extension's type |
| Router.NotFoundRouted | tinyweb3.c:166-178 | a `.` path without a document root, or whose file cannot be opened, gets the 404 page for the path |
| Router.WelcomeRouted | tinyweb3.c:182-184 | `/` gets the 200 page `Welcome to tinyweb` |
| Router.Canned404Routed | tinyweb3.c:185-187 | `/404` gets the 404 page `<h3>404 Page Not Found<h3>` |
| Router.EchoRouted | tinyweb3.c:188-194 | any other path without a `.` gets the 200 echo page of its path and query |
| Router.RouteFile | tinyweb3.c:118-134 | a `.` path whose file exists is answered by one write that decodes to status 200, the extension's content type and the whole file |
| Router.RouteFileNotFound | tinyweb3.c:109-115 | a `.` path without a document root, or whose file cannot be read, is answered by one write that decodes to 404 and `NotFoundText(path)`, which is `<h1>404 Not Found</h1><p>` path `</p>` whenever that fits in 1023 bytes |
| Router.RouteWelcome | tinyweb3.c:182-184 | `/` is answered by one write that decodes to 200 and `Welcome to tinyweb` |
| Router.RouteCanned404 | tinyweb3.c:185-187 | `/404` is answered by one write that decodes to 404 and `<h3>404 Page Not Found<h3>` |
| Router.RouteEcho | tinyweb3.c:188-194 | any other path is answered by one write that decodes to 200 and the echo page, which holds path and query verbatim when it fits in 1023 bytes |
| Router.ExactlyOneWrite | tinyweb3.c:161-195 | every request is answered by exactly one write, of a well-formed response |
| Framing.SkipSpaces | tinyweb3.c:215 | the pointer stops at the first byte that is not whitespace, having passed only whitespace |
| Framing.TargetEnd | tinyweb3.c:216-217 | the target ends at the first space after the path start, or at the end of the header |
| Framing.QueryMark | tinyweb3.c:218-222 | the first `?` of the target, or none |
| Framing.ScanLine | tinyweb3.c:212-222 | a header is accepted exactly when it starts with `GET` (no space required), and the positions found satisfy `LineOf`, the scan stated without scanning |
| Framing.RequestAt | tinyweb3.c:217-223 | the path holds no space and no `?`, the query no space, and neither holds a NUL |
| Framing.ParseRequestLine | tinyweb3.c:212-223 | the line `GET <path>[?<query>] <rest>` parses back to exactly that path and query |
| Framing.Boundary | tinyweb3.c:207 | the first `\r\n\r\n` in the C string of the bytes received, and None exactly when that C string holds none; the bytes before it hold no NUL |
| Framing.Marked | tinyweb3.c:209-220 | the length is kept and the boundary's first byte becomes NUL |
| Framing.MarkedKeepsBytes | tinyweb3.c:209-220 | writing the NULs turns no byte into anything but a NUL |
| Framing.OnAppended | tinyweb3.c:206-228 | the framing of the accumulated bytes keeps their length |
| Framing.OnAppendedKeepsBytes | tinyweb3.c:207-228 | after framing, each byte is the byte received there or a NUL |
| Framing.HandleRead | tinyweb3.c:201-235 | a positive `nread` grows the bytes by exactly `nread`; any other value keeps them, and -1 closes while the rest do nothing |
| Framing.HandleReadKeepsBytes | tinyweb3.c:202-228 | after a positive read, each byte is the old byte or the chunk's byte at that place, or a NUL |
| Framing.NoBoundaryNoAction | tinyweb3.c:206-207 | without a boundary a read keeps the bytes and neither writes nor closes |
| Framing.NotGetCloses | tinyweb3.c:212-227 | a header not starting with `GET` is closed without a write |
| Framing.SplitBoundaryFound | tinyweb3.c:206-207 | a boundary split over two reads is found on the read that completes it |
| Framing.DispatchActs | tinyweb3.c:211-227 | a complete header leads to a close exactly when it is not a `GET`, and otherwise to exactly one write |
| Framing.DispatchSpends | tinyweb3.c:207-222 | after a dispatch the NULs written leave no boundary to find, and appending keeps it so |
| Framing.SpentAppend | tinyweb3.c:206-207 | bytes with a NUL and no boundary before it stay so whatever is appended |
| Framing.RequestDispatched | tinyweb3.c:201-223 | a complete GET request is handed to the router with the path and query of its request line |
| Framing.ReadActions | tinyweb3.c:201-235 | one read does nothing, closes, or writes once; after dispatching, later reads do nothing but append |
| Framing.Perform | tinyweb3.c:41-51 | issuing actions changes neither the bytes received nor whether the close callback has run |
| Framing.PerformOne | tinyweb3.c:44-50 | no action changes nothing; a close marks the handle closing and counts one `uv_close`; a write marks a write pending and counts one write |
| Framing.WriteDoneCloses | tinyweb3.c:41-46 | as written, the write callback closes the connection whatever the write status, counting one more close and changing neither the bytes nor the write count |
| Framing.GuardedWriteDoneCloses | tinyweb3.c:41-46 | with the `uv_is_closing` guard, the write callback leaves the connection closing whatever the status, and adds a close only when none was issued before |
| Framing.StepKeepsInv | tinyweb3.c:41-51 | every callback keeps the connection invariant: at most one write, and none once the bytes are spent |
| Framing.AtMostOneWrite | tinyweb3.c:201-235 | whatever the event loop delivers, a connection issues at most one write |
| Framing.RequestOnFresh | tinyweb3.c:201-223 | a complete GET request on a fresh connection queues one write and closes nothing yet |
| Framing.DoubleClose | tinyweb3.c:41-46 | as written, a read error while the write is pending closes the handle, and the write callback closes it again |
| Framing.DoubleCloseOnRoot | tinyweb3.c:229-230 | the double close happens on `GET / HTTP/1.1\r\n\r\n` followed by `nread == -1` and the write callback |
| Framing.AtMostOneClose | tinyweb3.c:41-51 | with after_uv_write skipping a handle already closing, uv_close is called at most once |
| Framing.BoundaryAfterLine | tinyweb3.c:207 | in a header without CR, the first `\r\n\r\n` is the one that follows it |
| Framing.RootRequestLine | tinyweb3.c:207 | `GET / HTTP/1.1\r\n\r\n` is the printable request line for `/` with its boundary right after it |
| Connection.Client.constructor | tinyweb3.c:240-242 | a client's request buffer is initialised with 128 bytes: empty, inline, 512 bytes large, zero tail |
| Connection.Client.WriteNul | tinyweb3.c:209-220 | one byte of the storage becomes NUL, nothing else changes |
| Connection.Client.OnUvRead | tinyweb3.c:201-235 | the buffer's new contents and the actions are exactly those of `Framing.HandleRead` |
| Connection.Client.Frame | tinyweb3.c:207-228 | the NULs written and the actions are exactly those of `Framing.OnAppended` |
| Connection.Client.SkipWhitespace | tinyweb3.c:214-215 | the loop stops where `Framing.SkipSpaces` does |
| Connection.Client.Route | tinyweb3.c:212-224 | the GET branch writes the NULs of `Framing.Marked` and acts as `Framing.Dispatch` |
| Connection.Client.RouteQuery | tinyweb3.c:218-223 | once the target is cut, splitting off the query and routing leaves the NULs of `Framing.Marked` and acts as `Framing.Dispatch` |
| Connection.Client.CutTarget | tinyweb3.c:216-217 | the target ends at `Framing.TargetEnd`, and a NUL is written there when a space was found |
| Connection.Client.CutQuery | tinyweb3.c:218-222 | path end and query are those of `Framing.QueryMark`, and a NUL is written over the `?` |
| Connection.StorageScan | tinyweb3.c:207 | the as-written scan finds a terminator in the storage exactly when the storage holds a NUL |
| Connection.OverRead | tinyweb3.c:206-207 | a 512-byte request on a fresh client leaves no NUL in the storage, so the as-written scan runs past it |
| Connection.BoundedScanAgrees | tinyweb3.c:207 | when a NUL follows the bytes received, the as-written scan and the bounded search agree |
| Connection.ClientScanAgrees | tinyweb3.c:206-207 | for every client whose storage is not full, the as-written scan finds exactly the boundary the bounded search finds |

## Left out

- The libuv plumbing is reduced to events and actions: `tinyweb_start` (apart from the document root it keeps, `Router.StartDocRoot`), `on_uv_alloc`, `after_uv_close_client`, the `uv_*` calls, and freeing the read buffer. The close callback only sets `released`.
- `tinyweb_on_connection` is modelled only as far as it initialises the request buffer (`Connection.Client.constructor`).
- `_on_send_file` does not open the file. The `fopen`/`ftell`/`fread` sequence is replaced by the `readAll` oracle, which returns the file's bytes or nothing. A file larger than `INT_MAX` and a short `fread` are not modelled.
- The numeric append helpers (`membuf_append_int`, `_uint`, `_short`, `_ushort`, `_float`, `_double`) dump native in-memory representations and are not modelled; two of them are floating point.
- Allocation failure (`assert(buf->data)`, unchecked `malloc`/`realloc`) is not modelled.
- Membuf.MemBuf.EnsureNewSize: requires `size + k <= 2^31`, so the doubled size cannot wrap around an `unsigned int`. The wrap-around is not modelled.
- Membuf.MemBuf.EnsureNewSize: `realloc` is modelled as a fresh block with the held bytes copied, so its in-place case is not distinguished.
- Membuf.MemBuf.Exchange: requires two distinct buffers with disjoint storage. Exchanging a buffer with itself is not modelled.
- Membuf.MemBuf.Exchange: the inline bytes left stale past `size` after an exchange are not described. `AppendZeros` is the operation that must not rely on them, and its contract says it writes its zeros.
- Membuf.MemBuf.AppendText: a null `str` is not modelled. The count must be positive, as `membuf_append_data` asserts.
- Membuf.MemBuf.Empty: `membuf_empty` is declared to return `unsigned int` but returns nothing. The model returns nothing.
- Membuf.MemBuf.AppendData: the C code's `assert(data && size > 0)` is a precondition, not an error path.
- Response.FormatResponse: requires a present content whenever the length is positive. With a null content and a positive length the C code reports a size covering bytes it never wrote.
- Response.FormatResponse: `totalsize` is an `int` sum, computed here without wrap-around; status, type and body lengths whose sum with 128 exceeds `INT_MAX` are not modelled.
- DigitsOfInt: only the non-negative lengths `%d` receives here are covered; `content_length` is never negative by the time it is printed.
- Router.WriteUvData: the responses are passed with `len = -1`, i.e. `strlen`, although the formatted response is not NUL-terminated. The model writes the formatted response, of length `*respone_size`.
- Router.Config: a configuration whose document root is empty or holds a NUL is not excluded by the lemmas, but tinyweb_start never sets one up, as `Router.StartDocRoot` states.
- Router.EchoText: a null query printed with `%s` is undefined behaviour in C. The model prints `(null)`, as glibc does.
- Router.OnRequestGet, Router.SendFile, Router.Page, Framing.Dispatch and Framing.Step carry no contract of their own; what they do is stated by the lemmas about them (`FileRouted` to `EchoRouted`, `RouteFile` to `RouteEcho`, `PageReply`, `DispatchActs`, `ReadActions`, `WriteDoneCloses`, `GuardedWriteDoneCloses`, `StepKeepsInv`).
- The `printf` of the request header (tinyweb3.c:210) is logging and is left out; so is `_snprintf` on Windows.
- Framing.Boundary: the search is bounded by the bytes received, up to their first NUL. As written, `strstr` relies on a NUL after them; see the findings.
- Connection: the write-then-close callbacks are modelled on values in `Framing.Step`, not on the client object.
- tinyweb1.c, main.c, tinyweb3.h and the test program are startup code or an earlier version; they are not part of this model.

## Findings

| source | as written | input that shows it | evidently intended | confidence | as-written member | corrected member |
|---|---|---|---|---|---|---|
| tinyweb3.c:206-207 | `strstr(membuf->data, "\r\n\r\n")` relies on a NUL after the bytes received, but when they fill the storage exactly there is none | a fresh connection receiving 512 bytes with no NUL and no boundary: size equals buffer size 512 and the scan reads past the inline buffer | search only the `size` bytes received | not executed; high | Connection.OverRead | Framing.Boundary |
| tinyweb3.c:41-46 | `after_uv_write` calls `uv_close` unconditionally, and `on_uv_read` also closes on `nread == -1` (tinyweb3.c:229-230) | request `GET / HTTP/1.1\r\n\r\n`, then `nread == -1` while the response is being written, then the write callback: `uv_close` is called twice on one handle | close at most once, e.g. test `uv_is_closing` in `after_uv_write` | not executed; medium | Framing.DoubleCloseOnRoot | Framing.AtMostOneClose |
