/**
  The HTTP request framer of main.go: read_http_request reads one request off
  a buffered connection using only its header lines and a Content-Length
  value, and returns the bytes it consumed together with the Host value.

  ReadRequest is the specification, a function of the unread bytes;
  ReadHttpRequest is the loop of the source over a Reader, proved to
  compute it. Every panic of the source is a distinct Error.
 */
module Framer {
  import opened Bytes
  import opened Strconv

  datatype Error =
    | BadHeader              // the stream ended before a two-byte line
    | DuplicateHost          // a second "Host: " line
    | DuplicateContentLength // a "Content-Length: " line after a non-zero one
    | BadContentLength       // Atoi rejected the value
    | LineTooShort           // a prefixed line too short to slice (a Go runtime panic)
    | MissingHost            // no "Host: " line before the blank line
    | NegativeContentLength  // make([]byte, n) with n < 0 (a Go runtime panic)
    | ShortContent           // fewer than Content-Length bytes after the headers

  datatype Result<T> = Ok(value: T) | Err(error: Error)

  /** A framed request: the exact bytes consumed, and the Host value. */
  datatype Request = Request(packet: seq<byte>, host: seq<byte>)

  /** What the header scan has captured so far: host is nil in Go until set. */
  datatype Headers = Headers(host: Option<seq<byte>>, contentLength: int)

  const Init := Headers(None, 0)

  /** The header lines read, the blank line included, and what they captured. */
  datatype Scanned = Scanned(count: nat, headers: Headers)

  /** "Host: " */
  const HostPrefix: seq<byte> := [72, 111, 115, 116, 58, 32]
  /** "Content-Length: " */
  const ContentLengthPrefix: seq<byte> :=
    [67, 111, 110, 116, 101, 110, 116, 45, 76, 101, 110, 103, 116, 104, 58, 32]

  /** The reply over_the_horizon writes once a request has been framed. */
  const Reply: seq<byte> := Ascii("HTTP/1.0 200 OK\r\nContent-Length: 5\r\n\r\nHello")

  /** Host value of a Host line: the bytes between the prefix and the last two. */
  function HostValue(l: seq<byte>): (r: seq<byte>)
    ensures |l| >= |HostPrefix| + 2 ==> l == l[..|HostPrefix|] + r + l[|l| - 2..]
    ensures |l| < |HostPrefix| + 2 ==> r == []
  {
    if |l| >= |HostPrefix| + 2 then l[|HostPrefix|..|l| - 2] else []
  }

  /** Atoi of a Content-Length line's bytes between the prefix and the last two. */
  function ContentLengthValue(l: seq<byte>): (r: Option<int>)
    ensures r.Some? ==> |l| >= |ContentLengthPrefix| + 2 && MinInt <= r.value <= MaxInt
  {
    if |l| >= |ContentLengthPrefix| + 2 then Atoi(l[|ContentLengthPrefix|..|l| - 2]) else None
  }

  /**
    One header line that is not the blank line. The two prefixes differ in
    their first byte, so at most one of the two checks of the source applies.
   */
  function ScanLine(l: seq<byte>, hs: Headers): (r: Result<Headers>)
    ensures r.Ok? && hs.host.Some? ==> r.value.host == hs.host
    ensures r.Ok? && hs.contentLength != 0 ==> r.value.contentLength == hs.contentLength
    ensures r.Ok? && !HasPrefix(l, HostPrefix) && !HasPrefix(l, ContentLengthPrefix) ==> r.value == hs
    ensures r == Err(DuplicateHost) ==> hs.host.Some?
    ensures r == Err(DuplicateContentLength) ==> hs.contentLength != 0
  {
    if HasPrefix(l, HostPrefix) then
      if hs.host.Some? then Err(DuplicateHost)
      else if |l| < |HostPrefix| + 2 then Err(LineTooShort)
      else Ok(hs.(host := Some(HostValue(l))))
    else if HasPrefix(l, ContentLengthPrefix) then
      if hs.contentLength != 0 then Err(DuplicateContentLength)
      else if |l| < |ContentLengthPrefix| + 2 then Err(LineTooShort)
      else match ContentLengthValue(l)
        case None => Err(BadContentLength)
        case Some(n) => Ok(hs.(contentLength := n))
    else Ok(hs)
  }

  /** No line starts with both prefixes: they differ in their first byte. */
  lemma PrefixesDiffer(l: seq<byte>)
    ensures HasPrefix(l, HostPrefix) ==> l[0] == HostPrefix[0]
    ensures HasPrefix(l, ContentLengthPrefix) ==> l[0] == ContentLengthPrefix[0]
  {
    if HasPrefix(l, HostPrefix) {
      assert l[..|HostPrefix|][0] == l[0];
    }
    if HasPrefix(l, ContentLengthPrefix) {
      assert l[..|ContentLengthPrefix|][0] == l[0];
    }
  }

  /** Counts n more lines read before a scan result. */
  function Shift(r: Result<Scanned>, n: nat): Result<Scanned> {
    match r
    case Err(e) => Err(e)
    case Ok(sc) => Ok(Scanned(sc.count + n, sc.headers))
  }

  /**
    The header loop over the lines ls still to be read: it stops after the
    first line of exactly two bytes, whatever they are.
   */
  function ScanHeaders(ls: seq<seq<byte>>, hs: Headers): (r: Result<Scanned>)
    ensures r.Ok? ==> 1 <= r.value.count <= |ls|
  {
    if |ls| == 0 then Err(BadHeader)
    else if |ls[0]| == 2 then Ok(Scanned(1, hs))
    else match ScanLine(ls[0], hs)
      case Err(e) => Err(e)
      case Ok(hs') => Shift(ScanHeaders(ls[1..], hs'), 1)
  }

  /** The header scan stops at the first line of exactly two bytes, and fails without one. */
  lemma {:induction false} ScanStopsAtBlankLine(ls: seq<seq<byte>>, hs: Headers)
    ensures ScanHeaders(ls, hs).Ok? ==> |ls[ScanHeaders(ls, hs).value.count - 1]| == 2
    ensures ScanHeaders(ls, hs).Ok? ==> forall i | 0 <= i < ScanHeaders(ls, hs).value.count - 1 :: |ls[i]| != 2
    ensures (forall i | 0 <= i < |ls| :: |ls[i]| != 2) ==> ScanHeaders(ls, hs).Err?
  {
    if |ls| > 0 && |ls[0]| != 2 {
      match ScanLine(ls[0], hs)
      case Err(_) =>
      case Ok(hs') =>
        ScanStopsAtBlankLine(ls[1..], hs');
        assert forall i | 1 <= i < |ls| :: ls[i] == ls[1..][i - 1];
    }
  }

  /**
    What read_http_request does once the header block header (a prefix of s)
    has been read and hs captured from it.
   */
  function Complete(s: seq<byte>, header: seq<byte>, hs: Headers): (r: Result<Request>)
    requires |header| <= |s|
    ensures r.Ok? ==> hs.host == Some(r.value.host)
    ensures r.Ok? ==>
      && 0 <= hs.contentLength
      && |r.value.packet| == |header| + hs.contentLength <= |s|
      && r.value.packet == header + s[|header|..|r.value.packet|]
  {
    var n := hs.contentLength;
    if hs.host.None? then Err(MissingHost)
    else if n == 0 then Ok(Request(header, hs.host.value))
    else if n < 0 then Err(NegativeContentLength)
    else if |s| - |header| < n then Err(ShortContent)
    else Ok(Request(header + s[|header|..|header| + n], hs.host.value))
  }

  /** read_http_request on the unread bytes s of the connection. */
  function ReadRequest(s: seq<byte>): (r: Result<Request>)
    ensures r.Ok? ==> |r.value.packet| <= |s| && r.value.packet == s[..|r.value.packet|]
  {
    var ls := Lines(s);
    match ScanHeaders(ls, Init)
    case Err(e) => Err(e)
    case Ok(sc) =>
      LinesArePrefix(s, sc.count);
      var header := Concat(ls[..sc.count]);
      var r := Complete(s, header, sc.headers);
      PrefixExtends(s, header, r);
      r
  }

  /** A body appended after a header block that is a prefix of s leaves a prefix of s. */
  lemma PrefixExtends(s: seq<byte>, header: seq<byte>, r: Result<Request>)
    requires |header| <= |s| && header == s[..|header|]
    requires r.Ok? ==> |header| <= |r.value.packet| <= |s| && r.value.packet == header + s[|header|..|r.value.packet|]
    ensures r.Ok? ==> r.value.packet == s[..|r.value.packet|]
  {
  }

  /** The header loop's next step, n lines into ls. */
  lemma ScanStep(ls: seq<seq<byte>>, n: nat, hs: Headers)
    requires n < |ls|
    ensures |ls[n]| == 2 ==> Shift(ScanHeaders(ls[n..], hs), n) == Ok(Scanned(n + 1, hs))
    ensures |ls[n]| != 2 && ScanLine(ls[n], hs).Err? ==>
      Shift(ScanHeaders(ls[n..], hs), n) == Err(ScanLine(ls[n], hs).error)
    ensures |ls[n]| != 2 && ScanLine(ls[n], hs).Ok? ==>
      Shift(ScanHeaders(ls[n..], hs), n) == Shift(ScanHeaders(ls[n + 1..], ScanLine(ls[n], hs).value), n + 1)
  {
    assert ls[n..][0] == ls[n];
    assert ls[n..][1..] == ls[n + 1..];
  }

  /** ReadRequest fails as the header scan over the lines of s does. */
  lemma ReadRequestFails(s: seq<byte>, r: Result<Headers>)
    requires r.Err? && ScanHeaders(Lines(s), Init) == Err(r.error)
    ensures ReadRequest(s) == Err(r.error)
  {
  }

  /** ReadRequest once the header scan over the lines of s has succeeded. */
  lemma ReadRequestScanned(s: seq<byte>, k: nat, hs: Headers)
    requires ScanHeaders(Lines(s), Init) == Ok(Scanned(k, hs))
    ensures k <= |Lines(s)| && |Concat(Lines(s)[..k])| <= |s|
    ensures ReadRequest(s) == Complete(s, Concat(Lines(s)[..k]), hs)
  {
    LinesArePrefix(s, k);
  }

  /** The body step never reports a duplicate header: those errors come from the header scan. */
  lemma DuplicatesComeFromScan(s: seq<byte>, e: Error)
    requires e == DuplicateHost || e == DuplicateContentLength
    ensures ReadRequest(s) == Err(e) ==> ScanHeaders(Lines(s), Init) == Err(e)
  {
    match ScanHeaders(Lines(s), Init)
    case Err(_) =>
    case Ok(sc) => ReadRequestScanned(s, sc.count, sc.headers);
  }

  /** over_the_horizon: the fixed reply once a request is framed; None where the source panics. */
  function Serve(s: seq<byte>): (r: Option<seq<byte>>)
    ensures r.Some? ==> r.value == Reply && ReadRequest(s).Ok?
    ensures r.None? ==> ReadRequest(s).Err?
  {
    if ReadRequest(s).Ok? then Some(Reply) else None
  }

  /** A bufio.Reader over the bytes a connection delivers; pos is the read cursor. */
  class Reader {
    const data: seq<byte>
    var pos: nat

    ghost predicate Valid()
      reads this
    {
      pos <= |data|
    }

    function Unread(): seq<byte>
      reads this
      requires Valid()
    {
      data[pos..]
    }

    constructor (data: seq<byte>)
      ensures Valid() && this.data == data && pos == 0
    {
      this.data := data;
      pos := 0;
    }

    /** ReadBytes('\n'): the next line, or None (an error) when no '\n' is left. */
    method ReadBytes() returns (line: Option<seq<byte>>)
      requires Valid()
      modifies this
      ensures Valid()
      ensures line == NextLine(old(Unread()))
      ensures line.Some? ==> pos == old(pos) + |line.value|
      ensures line.None? ==> pos == |data|
    {
      line := NextLine(data[pos..]);
      if line.Some? {
        pos := pos + |line.value|;
      } else {
        pos := |data|;
      }
    }

    /** io.ReadFull: exactly n bytes, or None (an error) when fewer are left. */
    method ReadFull(n: nat) returns (buf: Option<seq<byte>>)
      requires Valid()
      modifies this
      ensures Valid()
      ensures n <= |old(Unread())| ==> buf == Some(old(Unread())[..n]) && pos == old(pos) + n
      ensures n > |old(Unread())| ==> buf == None && pos == |data|
    {
      if n <= |data| - pos {
        assert data[pos..][..n] == data[pos..pos + n];
        buf := Some(data[pos..pos + n]);
        pos := pos + n;
      } else {
        buf := None;
        pos := |data|;
      }
    }
  }

  /**
    The loop's account of what it has read: packet is the first n lines of s
    laid end to end, a prefix of s, and ls[n..] are the lines still unread.
   */
  ghost predicate LinesRead(s: seq<byte>, ls: seq<seq<byte>>, n: nat, packet: seq<byte>) {
    && n <= |ls| && |packet| <= |s|
    && packet == s[..|packet|] && packet == Concat(ls[..n])
    && ls[n..] == Lines(s[|packet|..])
  }

  /** Reading line l after the first n lines of s keeps the loop's account of the packet. */
  lemma ReadLineStep(s: seq<byte>, ls: seq<seq<byte>>, n: nat, packet: seq<byte>, l: seq<byte>)
    requires LinesRead(s, ls, n, packet)
    requires NextLine(s[|packet|..]) == Some(l)
    ensures n < |ls| && ls[n] == l
    ensures LinesRead(s, ls, n + 1, packet + l)
  {
    LinesAt(s, |packet|, l);
    assert |packet + l| == |packet| + |l|;
    assert ls[n] == ls[n..][0];
    assert ls[n + 1..] == ls[n..][1..];
    assert ls[..n + 1] == ls[..n] + [l];
    ConcatSnoc(ls[..n], l);
    PrefixGrows(s, packet, l);
  }

  /** The stream ends before the blank line: ReadRequest fails with BadHeader. */
  lemma EndOfStream(s: seq<byte>, n: nat, packet: seq<byte>, hs: Headers)
    requires LinesRead(s, Lines(s), n, packet)
    requires NextLine(s[|packet|..]).None?
    requires ScanHeaders(Lines(s), Init) == Shift(ScanHeaders(Lines(s)[n..], hs), n)
    ensures ReadRequest(s) == Err(BadHeader)
  {
    assert Lines(s)[n..] == [];
  }

  /**
    The Host and Content-Length checks the loop of read_http_request makes
    on one header line that is not the blank line.
   */
  method CaptureHeader(l: seq<byte>, host: Option<seq<byte>>, contentLength: int)
    returns (r: Result<Headers>)
    ensures r == ScanLine(l, Headers(host, contentLength))
  {
    PrefixesDiffer(l);
    var h, n := host, contentLength;
    if HasPrefix(l, HostPrefix) {
      if h.Some? {
        return Err(DuplicateHost);
      }
      if |l| < |HostPrefix| + 2 {
        return Err(LineTooShort);
      }
      h := Some(l[|HostPrefix|..|l| - 2]);
    }
    if HasPrefix(l, ContentLengthPrefix) {
      if n != 0 {
        return Err(DuplicateContentLength);
      }
      if |l| < |ContentLengthPrefix| + 2 {
        return Err(LineTooShort);
      }
      var v := Atoi(l[|ContentLengthPrefix|..|l| - 2]);
      if v.None? {
        return Err(BadContentLength);
      }
      n := v.value;
    }
    return Ok(Headers(h, n));
  }

  /**
    The end of read_http_request, once the header block packet (a prefix of
    s, whose rest is unread) has been read and hs captured from it.
   */
  method ReadBody(reader: Reader, ghost s: seq<byte>, packet: seq<byte>, hs: Headers)
    returns (r: Result<Request>)
    requires reader.Valid() && |packet| <= |s| && reader.Unread() == s[|packet|..]
    modifies reader
    ensures reader.Valid()
    ensures r == Complete(s, packet, hs)
    ensures r.Ok? ==> reader.pos == old(reader.pos) + |r.value.packet| - |packet|
  {
    if hs.host.None? {
      return Err(MissingHost);
    }
    var contentLength := hs.contentLength;
    if contentLength == 0 {
      return Ok(Request(packet, hs.host.value));
    }
    if contentLength < 0 {
      return Err(NegativeContentLength);
    }
    var body := reader.ReadFull(contentLength);
    if body.None? {
      return Err(ShortContent);
    }
    assert body.value == s[|packet|..|packet| + contentLength];
    return Ok(Request(packet + body.value, hs.host.value));
  }

  /**
    read_http_request: reads header lines into packet until a two-byte line,
    capturing Host and Content-Length, then reads the body. On success the
    reader has consumed exactly the returned packet.
   */
  method ReadHttpRequest(reader: Reader) returns (r: Result<Request>)
    requires reader.Valid()
    modifies reader
    ensures reader.Valid()
    ensures r == ReadRequest(old(reader.Unread()))
    ensures r.Ok? ==> reader.pos == old(reader.pos) + |r.value.packet|
  {
    ghost var s := reader.Unread();
    ghost var ls := Lines(s);

    ghost var n := 0;
    var host: Option<seq<byte>> := None;
    var contentLength := 0;
    var packet: seq<byte> := [];

    while true
      invariant LinesRead(s, ls, n, packet)
      invariant |packet| <= |s| && reader.Valid() && reader.Unread() == s[|packet|..]
      invariant reader.pos == old(reader.pos) + |packet|
      invariant n <= |ls| && ScanHeaders(ls, Init) == Shift(ScanHeaders(ls[n..], Headers(host, contentLength)), n)
      decreases |s| - |packet|
    {
      var line := reader.ReadBytes();
      if line.None? {
        EndOfStream(s, n, packet, Headers(host, contentLength));
        return Err(BadHeader);
      }
      var l := line.value;
      ReadLineStep(s, ls, n, packet, l);
      ScanStep(ls, n, Headers(host, contentLength));
      packet := packet + l;
      n := n + 1;

      if |l| == 2 {
        break;
      }

      var step := CaptureHeader(l, host, contentLength);
      if step.Err? {
        ReadRequestFails(s, step);
        return Err(step.error);
      }
      host, contentLength := step.value.host, step.value.contentLength;
    }

    ReadRequestScanned(s, n, Headers(host, contentLength));
    r := ReadBody(reader, s, packet, Headers(host, contentLength));
  }
}
