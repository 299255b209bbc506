# site_unblock: the HTTP request framer

site_unblock is a small Go proxy (`main.go`). The part with real correctness
content is `read_http_request`. It reads one HTTP request off a buffered
connection using only the header lines and one `Content-Length` value. It
returns the exact bytes it consumed together with the `Host` value. Anything it
cannot frame makes it `panic`. The connection handler `over_the_horizon` frames
one request and answers it with a fixed 43-byte HTTP/1.0 response whose body
is the five bytes "Hello".

The model has four modules:

- `Bytes` (`bytes.dfy`) holds bytes and the line structure of a stream, as
  `bufio.Reader.ReadBytes('\n')` sees it. A line is every byte up to and
  including the next `'\n'`. Bytes after the last `'\n'` never form a line.
- `Strconv` (`strconv.dfy`) is Go's `strconv.Atoi` on a 64-bit platform: an
  optional sign, at least one digit, and a value in the `int64` range. `Itoa`
  is written as its inverse.
- `Framer` (`framer.dfy`) has three parts:
  - The specification function `ReadRequest`, defined on the unread bytes of
    the connection.
  - A `Reader` class: a cursor over the bytes the connection delivers, with
    `ReadBytes` and `ReadFull`.
  - The imperative `ReadHttpRequest`. It is the source's loop, with its local
    `host`, `content_length` and `packet`, and it is proved to compute
    `ReadRequest` and to consume exactly the returned packet.
- `FramerProperties` (`framer_properties.dfy`) says what the framer accepts
  and returns, without running its loop:
  - `WellFormed(s)` is a reference definition stated over the lines of the
    stream, and `ReadRequest(s)` succeeds exactly when `WellFormed(s)` holds.
  - On success the packet is the header block plus the declared body.
  - Each error has a lemma naming the input that produces it.

Every `panic` of the source is a distinct `Error`:

| error | when |
|---|---|
| `BadHeader` | the stream ended before a two-byte line |
| `DuplicateHost` | a second `Host: ` line |
| `DuplicateContentLength` | a `Content-Length: ` line after one with a non-zero value |
| `BadContentLength` | `Atoi` rejected the value |
| `MissingHost` | no `Host: ` line before the blank line |
| `ShortContent` | fewer body bytes than declared |
| `LineTooShort` | the Go runtime panic when a prefixed line is too short to slice |
| `NegativeContentLength` | the Go runtime panic of `make([]byte, n)` with `n < 0` |

A `Host: ` line needs 8 bytes and a `Content-Length: ` line needs 18. The
model does not require lines to end in CRLF: any line of exactly two bytes
ends the headers, as in the code.

Two points where the code does less than its comments suggest:

- The comment above `over_the_horizon` (main.go:93-97) describes the intended
  bypass: put a dummy host in front of the request and drop the answer to it.
  That splice was never written. The handler is a stub, marked TODO at
  main.go:102, that logs the request and writes the fixed reply. The model
  follows the code and has no splice.
- The panic at main.go:60 reads "too many content-length". But the check
  before it (main.go:59) is `content_length != 0`, so a second
  `Content-Length: ` line is rejected only when the earlier value was non-zero.
  After `Content-Length: 0` a repeat is accepted and its value is used. The
  model follows the code (see `OnlyLastNonZero` and
  `FramerProperties.DuplicateContentLengthNeedsNonZero`).

## Model

| member | source | states |
|---|---|---|
| Framer.ReadRequest | main.go:27-91 | The specification of read_http_request on the unread bytes: scan the header lines, then read the body. On success the packet is a prefix of the stream. `FramerProperties.ReadRequestIsWellFormed` proves it succeeds exactly on `WellFormed` streams and gives the exact packet and host. |
| Framer.ScanHeaders | main.go:33-68 | The header loop over the remaining lines. On success it has read between one line and all of them. `Framer.ScanStopsAtBlankLine` and `FramerProperties.ScanHeadersCharacterized` state where it stops and what it captures. |
| Framer.ScanLine | main.go:49-67 | The Host and Content-Length checks on one non-blank line. A captured host is never replaced, and a non-zero length is never replaced. A line with neither prefix changes nothing. DuplicateHost arises only when a host is already set, and DuplicateContentLength only when a non-zero length is set. `FramerProperties.ScanLineAccepts` ties it to the reference conditions `Accepts` and `Captured`. |
| Framer.Complete | main.go:70-90 | The body step after the header block. On success a host was captured and is returned, the declared length is not negative, and the packet is the header block followed by exactly that many of the next bytes of the stream. |
| FramerProperties.CompleteIsPrefix | main.go:70-90 | Once the header block is a prefix of the stream, the body step succeeds exactly when a host was captured, the length is not negative and enough bytes remain. It then returns the prefix of the stream covering the headers and the body. |
| Framer.Serve | main.go:98-111 | over_the_horizon writes the fixed reply only when the request was framed, and nothing where the source panics. `FramerProperties.ServeRepliesToWellFormed` states exactly when the reply is written. |
| Strconv.Atoi | main.go:62-63 | strconv.Atoi on a 64-bit platform. An accepted value lies in the int64 range, comes from one or more digits after an optional sign, and is negative only after a `-`. `Strconv.AtoiItoa`, `Strconv.AtoiOutOfRange`, `Strconv.AtoiLeadingZero` and `Strconv.AtoiRejectsNonDigit` complete the picture. |
| Framer.ReadHttpRequest | main.go:27-91 | The loop reads lines into the packet until a two-byte line, capturing Host and Content-Length, then reads the body. Its result equals `ReadRequest` of the unread bytes. On success the reader has advanced by exactly the packet's length. |
| Framer.Reader.ReadBytes | main.go:35-39 | Returns the next `'\n'`-terminated line of the unread bytes and advances past it. Returns an error and drains the reader when no `'\n'` is left. |
| Framer.Reader.ReadFull | main.go:83-87 | Returns exactly the next n unread bytes and advances by n. Returns an error when fewer remain. |
| Framer.CaptureHeader | main.go:49-67 | The two checks on a non-blank header line, in the source's order. A Host line when a host is already set gives DuplicateHost; a line too short to slice gives LineTooShort; otherwise the value is captured. A Content-Length line after a non-zero value gives DuplicateContentLength; a short line gives LineTooShort; a value Atoi rejects gives BadContentLength; otherwise the value is stored. Any other line changes nothing. |
| Framer.ReadBody | main.go:70-90 | After the headers: no host gives MissingHost; a zero length returns the header bytes alone; a negative length gives NegativeContentLength; too few bytes gives ShortContent; otherwise exactly n body bytes are appended. On success the reader advanced by the body length. |
| Framer.PrefixesDiffer | main.go:50-58 | Helper for the proofs: the two prefixes differ in their first byte (`H` and `C`), so at most one of the two separate checks applies to any line. |
| Framer.ScanStopsAtBlankLine | main.go:44-47 | The header scan ends at the first line of exactly two bytes, whatever they are, and fails when no such line exists. |
| Framer.DuplicatesComeFromScan | main.go:50-61 | DuplicateHost and DuplicateContentLength arise only in the header loop, never after it. |
| Bytes.HasPrefix | main.go:50-58 | bytes.HasPrefix, used for the `Host: ` and `Content-Length: ` tests. When it holds, the line is the prefix followed by the rest of the line. |
| Bytes.NextLine | main.go:35-39 | ReadBytes('\n') on the unread bytes: a line it returns is non-empty and is a prefix of the unread bytes. `Bytes.NextLineIsFirstLine` adds that it ends at the first `'\n'` and that there is none exactly when no `'\n'` is left. |
| Bytes.Lines | main.go:33-39 | The successive results of ReadBytes('\n'). There are never more lines than bytes, since each line holds at least its `'\n'`. `Bytes.LinesAreLines` and `Bytes.LinesArePrefix` state that they are complete lines laid end to end from the start of the stream. `Bytes.LinesComplete` states that they run to the last `'\n'` of the stream. |
| Framer.HostValue | main.go:54 | The slice `line[6:len(line)-2]`. When the line is long enough, the line is the 6-byte prefix, then the value, then its last two bytes. A shorter line gives no value, because the source panics there (`LineTooShort` in `CaptureHeader`). |
| Framer.ContentLengthValue | main.go:62-63 | strconv.Atoi of `line[16:len(line)-2]`. A value is produced only when the line is long enough to slice, and it lies in the int64 range. |
| Bytes.NewlineIndexIsFirst | main.go:35 | The line search finds the first `'\n'`, and finds none exactly when there is none. |
| Bytes.NextLineIsFirstLine | main.go:35-39 | The next line is a complete line (it ends with its only `'\n'`) and is a prefix of the unread bytes. There is none exactly when no `'\n'` is left. |
| Bytes.LinesAreLines | main.go:35 | Every line the reader yields is a complete line. |
| Bytes.LinesArePrefix | main.go:41-42 | The first k lines laid end to end are a prefix of the stream: lines are appended verbatim and without gaps. |
| Bytes.LinesComplete | main.go:33-39 | The lines cover the stream up to its last `'\n'`: no `'\n'` lies after them, which is the point where ReadBytes first fails. |
| Bytes.ConcatSnoc | main.go:42 | Helper for the proofs: appending one more line to the packet extends the concatenation of the lines by that line. |
| Strconv.AtoiItoa | main.go:62-63 | Atoi reads back every int64 value from its decimal form. |
| Strconv.DecimalValue | main.go:62-63 | The decimal digits of n have the value n. |
| Strconv.AtoiRejectsNonDigit | main.go:62-66 | Atoi rejects any value that has a non-digit after the optional sign. |
| Strconv.AtoiOutOfRange | main.go:62-65 | The decimal form of any value outside the int64 range is rejected (Go's range error), which leads to the panic at main.go:65. |
| Strconv.AtoiLeadingZero | main.go:62-63 | A leading `0` or `+` before a run of digits leaves Atoi's result unchanged, so "007" and "+7" both read as 7. |
| FramerProperties.ScanLineAccepts | main.go:49-67 | One header line is let through exactly when the reference conditions (`Accepts`) hold for it, and what it captures matches the reference capture (`Captured`). |
| FramerProperties.ScanPrefix | main.go:33-68 | Scanning a run of non-blank lines either fails or goes on from exactly what those lines captured. It fails if they are not accepted. |
| FramerProperties.ScanHeadersCharacterized | main.go:33-68 | The header loop succeeds exactly when a two-byte line exists and the lines before it are accepted. It has then read up to and including that line and captured the first Host value and the last Content-Length value. |
| FramerProperties.ReadRequestIsWellFormed | main.go:27-91 | read_http_request succeeds exactly on `WellFormed` streams. It then returns the prefix of the stream made of the header block plus the declared length, with the Host line's value. |
| FramerProperties.CompleteAfterScan | main.go:70-90 | After accepted headers, the body step succeeds exactly when there is one Host line, the length is not negative and enough bytes remain. Its packet is then one prefix of the stream. |
| FramerProperties.PacketLayout | main.go:44-89 | On success the packet is the lines up to and including the first two-byte line, followed by exactly the declared number of body bytes (none for length 0 or no header). |
| FramerProperties.HostIsTheHostLine | main.go:50-55 | On success there is exactly one Host line among the headers. The host is that line's bytes strictly between the 6-byte prefix and its last two bytes. |
| FramerProperties.NoBlankLineFails | main.go:35-39 | A stream that ends before any two-byte line yields an error, never a partial packet. |
| FramerProperties.NoBlankLineBadHeader | main.go:35-39 | When nothing else is wrong with such a stream, the error is BadHeader. |
| FramerProperties.DuplicateHostFails | main.go:50-53 | A second Host line, reached without an earlier error, yields DuplicateHost. |
| FramerProperties.MissingHostFails | main.go:71-73 | Accepted headers with no Host line yield MissingHost. |
| FramerProperties.BadContentLengthFails | main.go:62-66 | A Content-Length value that Atoi rejects, reached with no non-zero length set, yields BadContentLength. |
| FramerProperties.DuplicateContentLengthFails | main.go:58-61 | A Content-Length line after one with a non-zero value yields DuplicateContentLength. |
| FramerProperties.DuplicateContentLengthNeedsNonZero | main.go:58-61 | Conversely, DuplicateContentLength means some Content-Length line came after an accepted one with a non-zero value. A repeat after `0` is never reported. |
| FramerProperties.DuplicateNeedsNonZero | main.go:58-61 | The scan reports DuplicateContentLength only at a Content-Length line reached with a non-zero length captured. |
| FramerProperties.LineTooShortFails | main.go:50-63 | A Host line under 8 bytes reached with no host captured, or a Content-Length line under 18 bytes reached with no non-zero length set, gives LineTooShort. This is the slice bounds panic of `header_line[6 : len-2]` or `header_line[16 : len-2]`. |
| FramerProperties.ShortHostLineExample | main.go:54 | The request "Host: \n\r\n" gives LineTooShort. |
| FramerProperties.ShortContentFails | main.go:83-87 | Fewer bytes after the blank line than a positive declared length yields ShortContent. |
| FramerProperties.NegativeContentLengthFails | main.go:83 | A negative declared length, which Go's `make` rejects, yields NegativeContentLength. |
| FramerProperties.ServeRepliesToWellFormed | main.go:98-111 | over_the_horizon writes the fixed reply exactly for well-formed requests. |
| FramerProperties.FirstHostIsTheHostLine | main.go:54 | When there is exactly one Host line, the captured host is that line's value. |

## Left out

- `main` is not modelled: argument parsing, `net.Listen`, the accept loop and the goroutine per connection are socket I/O and concurrency.
- `usage` is not modelled: it only prints and calls `os.Exit`.
- From `over_the_horizon`, only the fixed reply is modelled, as the constant `Framer.Reply`, and `Framer.Serve` says when it is written. Writing, flushing, closing and the `Printf` log line are I/O.
- `bufio`'s buffering is not modelled. `Framer.Reader` delivers the connection's bytes as one sequence, so blocking reads and partial reads are not represented.
- A Go `panic` ends the goroutine, and in this program the process. The model returns a distinct `Err` instead.
- Framer.ReadHttpRequest: on an error, the reader's position is not stated, because the source panics there and never uses the reader again.
- Framer.ReadBody: Go's `make([]byte, n)` panics with "makeslice: len out of range" whenever `n` exceeds the runtime's allocation limit (2^48 on amd64), and may also fail for lack of memory below it. Neither is modelled: `make` is taken to succeed for every non-negative `int64`, so for such a `Content-Length` the model gives ShortContent or Ok where Go panics.
- `strconv.Atoi` is modelled for a 64-bit `int`; on a 32-bit platform its range is narrower. Its error value is reduced to `None`, and the value Atoi returns alongside an error is dropped, since the source panics on any error.
- `LineTooShort` and `NegativeContentLength` stand for Go runtime panics, not for the source's own `panic` messages.
