/**
  What read_http_request promises, stated over the lines of the stream
  without running its loop: which requests it accepts (WellFormed), the
  exact bytes it returns for them, and which error each kind of bad
  request yields.
 */
module FramerProperties {
  import opened Bytes
  import opened Strconv
  import opened Framer

  predicate IsHostLine(l: seq<byte>) {
    HasPrefix(l, HostPrefix)
  }

  predicate IsContentLengthLine(l: seq<byte>) {
    HasPrefix(l, ContentLengthPrefix)
  }

  /** The index of the blank line: the first line of exactly two bytes. */
  function BlankLine(ls: seq<seq<byte>>): (r: Option<nat>)
    ensures r.Some? ==> r.value < |ls| && |ls[r.value]| == 2
    ensures r.Some? ==> forall i | 0 <= i < r.value :: |ls[i]| != 2
    ensures r.None? ==> forall i | 0 <= i < |ls| :: |ls[i]| != 2
  {
    if |ls| == 0 then None
    else if |ls[0]| == 2 then Some(0)
    else match BlankLine(ls[1..])
      case None => None
      case Some(k) => Some(k + 1)
  }

  /** The header lines: every line before the blank line, or every line when there is none. */
  function HeaderLines(ls: seq<seq<byte>>): seq<seq<byte>> {
    match BlankLine(ls)
    case None => ls
    case Some(k) => ls[..k]
  }

  /** The bytes of the header lines and of the blank line that ends them. */
  function HeaderBlock(s: seq<byte>): seq<byte>
    requires BlankLine(Lines(s)).Some?
  {
    Concat(Lines(s)[..BlankLine(Lines(s)).value + 1])
  }

  function HostCount(ls: seq<seq<byte>>): nat {
    if |ls| == 0 then 0
    else (if IsHostLine(ls[0]) then 1 else 0) + HostCount(ls[1..])
  }

  function ContentLengthCount(ls: seq<seq<byte>>): nat {
    if |ls| == 0 then 0
    else (if IsContentLengthLine(ls[0]) then 1 else 0) + ContentLengthCount(ls[1..])
  }

  /** Every Host line is long enough to slice its value out. */
  predicate HostLinesComplete(ls: seq<seq<byte>>) {
    forall i | 0 <= i < |ls| && IsHostLine(ls[i]) :: |ls[i]| >= |HostPrefix| + 2
  }

  /** Every Content-Length line is long enough to slice, and Atoi accepts its value. */
  predicate ContentLengthsParse(ls: seq<seq<byte>>) {
    forall i | 0 <= i < |ls| && IsContentLengthLine(ls[i]) :: ContentLengthValue(ls[i]).Some?
  }

  /** Every Content-Length line that another one follows has the value 0. */
  predicate OnlyLastNonZero(ls: seq<seq<byte>>) {
    |ls| == 0 ||
    ((IsContentLengthLine(ls[0]) && ContentLengthCount(ls[1..]) > 0 ==> ContentLengthValue(ls[0]) == Some(0))
     && OnlyLastNonZero(ls[1..]))
  }

  /** The value of the first Host line. */
  function FirstHost(ls: seq<seq<byte>>): seq<byte> {
    if |ls| == 0 then []
    else if IsHostLine(ls[0]) then HostValue(ls[0])
    else FirstHost(ls[1..])
  }

  /** The value of the last Content-Length line, 0 when there is none. */
  function LastContentLength(ls: seq<seq<byte>>): int {
    if |ls| == 0 then 0
    else if ContentLengthCount(ls[1..]) > 0 then LastContentLength(ls[1..])
    else if IsContentLengthLine(ls[0]) then
      match ContentLengthValue(ls[0])
      case Some(v) => v
      case None => 0
    else 0
  }

  /** Scanning the header lines hl from hs raises no error. */
  predicate Accepts(hl: seq<seq<byte>>, hs: Headers) {
    && HostLinesComplete(hl)
    && HostCount(hl) <= (if hs.host.Some? then 0 else 1)
    && ContentLengthsParse(hl)
    && OnlyLastNonZero(hl)
    && (hs.contentLength != 0 ==> ContentLengthCount(hl) == 0)
  }

  /** What scanning hl from hs captures. */
  function Captured(hl: seq<seq<byte>>, hs: Headers): Headers {
    Headers(
      if HostCount(hl) == 0 then hs.host else Some(FirstHost(hl)),
      if ContentLengthCount(hl) == 0 then hs.contentLength else LastContentLength(hl))
  }

  /**
    Header lines read_http_request accepts from the start: exactly one Host
    line, long enough to slice; every Content-Length value parses and all but
    the last are 0; and the last is not negative.
   */
  predicate HeadersAccepted(hl: seq<seq<byte>>) {
    && HostCount(hl) == 1
    && HostLinesComplete(hl)
    && ContentLengthsParse(hl)
    && OnlyLastNonZero(hl)
    && LastContentLength(hl) >= 0
  }

  /**
    The requests read_http_request accepts: a blank line ends the headers,
    the header lines are accepted, and the stream holds as many bytes after
    the blank line as the last Content-Length declares.
   */
  predicate WellFormed(s: seq<byte>) {
    && BlankLine(Lines(s)).Some?
    && HeadersAccepted(HeaderLines(Lines(s)))
    && |HeaderBlock(s)| + LastContentLength(HeaderLines(Lines(s))) <= |s|
  }

  /**
    Some Content-Length line among the header lines hl follows lines that
    are accepted from Init and declared a non-zero length.
   */
  predicate RepeatsNonZero(hl: seq<seq<byte>>) {
    exists j | 0 <= j < |hl| ::
      && IsContentLengthLine(hl[j])
      && Accepts(hl[..j], Init)
      && LastContentLength(hl[..j]) != 0
  }

  // ---------------------------------------------------------------------------
  // The header scan, one line at a time

  lemma QuantifiedCons(l: seq<byte>, t: seq<seq<byte>>)
    ensures HostLinesComplete([l] + t) <==>
      (IsHostLine(l) ==> |l| >= |HostPrefix| + 2) && HostLinesComplete(t)
    ensures ContentLengthsParse([l] + t) <==>
      (IsContentLengthLine(l) ==> ContentLengthValue(l).Some?) && ContentLengthsParse(t)
  {
    var ls := [l] + t;
    assert ls[0] == l;
    assert forall i | 0 <= i < |t| :: ls[i + 1] == t[i];
    if HostLinesComplete(t) && (IsHostLine(l) ==> |l| >= |HostPrefix| + 2) {
      forall i | 0 <= i < |ls| && IsHostLine(ls[i]) ensures |ls[i]| >= |HostPrefix| + 2 {
        if i > 0 { assert ls[i] == t[i - 1]; }
      }
    }
    if ContentLengthsParse(t) && (IsContentLengthLine(l) ==> ContentLengthValue(l).Some?) {
      forall i | 0 <= i < |ls| && IsContentLengthLine(ls[i]) ensures ContentLengthValue(ls[i]).Some? {
        if i > 0 { assert ls[i] == t[i - 1]; }
      }
    }
  }

  /** One line of the scan: l is accepted from hs exactly when ScanLine lets it through. */
  lemma ScanLineAccepts(l: seq<byte>, t: seq<seq<byte>>, hs: Headers)
    ensures Accepts([l] + t, hs) <==> ScanLine(l, hs).Ok? && Accepts(t, ScanLine(l, hs).value)
    ensures Accepts([l] + t, hs) ==> Captured([l] + t, hs) == Captured(t, ScanLine(l, hs).value)
  {
    var ls := [l] + t;
    assert ls[0] == l && ls[1..] == t;
    QuantifiedCons(l, t);
    PrefixesDiffer(l);
  }

  lemma ShiftTwice(r: Result<Scanned>, a: nat, b: nat)
    ensures Shift(Shift(r, a), b) == Shift(r, a + b)
  {
  }

  /**
    Scanning the first j lines of ls, none of them blank: if they are
    accepted the scan goes on from what they captured, otherwise it fails.
   */
  lemma {:induction false} ScanPrefix(ls: seq<seq<byte>>, j: nat, hs: Headers)
    requires j <= |ls|
    requires forall i | 0 <= i < j :: |ls[i]| != 2
    ensures Accepts(ls[..j], hs) ==>
      ScanHeaders(ls, hs) == Shift(ScanHeaders(ls[j..], Captured(ls[..j], hs)), j)
    ensures !Accepts(ls[..j], hs) ==> ScanHeaders(ls, hs).Err?
  {
    if j == 0 {
      assert ls[..0] == [] && ls[0..] == ls;
      assert Captured([], hs) == hs;
    } else {
      var l, t := ls[0], ls[1..];
      assert ls[..j] == [l] + t[..j - 1];
      ScanLineAccepts(l, t[..j - 1], hs);
      match ScanLine(l, hs)
      case Err(_) =>
      case Ok(hs') =>
        ScanPrefix(t, j - 1, hs');
        assert t[j - 1..] == ls[j..];
        if Accepts(ls[..j], hs) {
          ShiftTwice(ScanHeaders(ls[j..], Captured(ls[..j], hs)), j - 1, 1);
        }
    }
  }

  lemma {:induction false} NoContentLengthIsZero(ls: seq<seq<byte>>)
    requires ContentLengthCount(ls) == 0
    ensures LastContentLength(ls) == 0
  {
    if |ls| > 0 {
      NoContentLengthIsZero(ls[1..]);
    }
  }

  /**
    The header scan, characterised: it succeeds exactly when there is a
    blank line and the header lines before it are accepted, and then it has
    read the lines up to the blank line and captured what they hold.
   */
  lemma ScanHeadersCharacterized(ls: seq<seq<byte>>, hs: Headers)
    ensures ScanHeaders(ls, hs).Ok? <==> BlankLine(ls).Some? && Accepts(HeaderLines(ls), hs)
    ensures ScanHeaders(ls, hs).Ok? ==>
      ScanHeaders(ls, hs).value == Scanned(BlankLine(ls).value + 1, Captured(HeaderLines(ls), hs))
  {
    var k := match BlankLine(ls) case None => |ls| case Some(b) => b;
    assert HeaderLines(ls) == ls[..k];
    ScanPrefix(ls, k, hs);
    if Accepts(ls[..k], hs) && k < |ls| {
      assert ls[k..][0] == ls[k];
    }
  }

  // ---------------------------------------------------------------------------
  // The whole request

  /** Scanning from Init captures the first Host value, if any, and the last Content-Length value. */
  lemma CapturedFromInit(hl: seq<seq<byte>>)
    ensures Captured(hl, Init) ==
      Headers(if HostCount(hl) == 0 then None else Some(FirstHost(hl)), LastContentLength(hl))
  {
    if ContentLengthCount(hl) == 0 {
      NoContentLengthIsZero(hl);
    }
  }

  /**
    Once the header block is a prefix of the stream, the body step succeeds
    exactly when a host was captured and the declared length is neither
    negative nor longer than what is left, and it returns one longer prefix.
   */
  lemma CompleteIsPrefix(s: seq<byte>, header: seq<byte>, hs: Headers)
    requires |header| <= |s| && header == s[..|header|]
    ensures Complete(s, header, hs).Ok? <==>
      hs.host.Some? && 0 <= hs.contentLength && |header| + hs.contentLength <= |s|
    ensures Complete(s, header, hs).Ok? ==>
      Complete(s, header, hs) == Ok(Request(s[..|header| + hs.contentLength], hs.host.value))
  {
    var n := hs.contentLength;
    if hs.host.Some? && 0 <= n && |header| + n <= |s| {
      assert header + s[|header|..|header| + n] == s[..|header| + n];
    }
  }

  /** read_http_request in terms of the header lines: scan them, then read the body. */
  lemma ReadRequestByLines(s: seq<byte>)
    ensures ReadRequest(s).Ok? ==> BlankLine(Lines(s)).Some? && Accepts(HeaderLines(Lines(s)), Init)
    ensures BlankLine(Lines(s)).Some? && Accepts(HeaderLines(Lines(s)), Init) ==>
      |HeaderBlock(s)| <= |s| && HeaderBlock(s) == s[..|HeaderBlock(s)|] &&
      ReadRequest(s) == Complete(s, HeaderBlock(s), Captured(HeaderLines(Lines(s)), Init))
  {
    var ls := Lines(s);
    ScanHeadersCharacterized(ls, Init);
    match ScanHeaders(ls, Init)
    case Err(e) =>
    case Ok(sc) =>
      var k := BlankLine(ls).value;
      ReadRequestScanned(s, k + 1, Captured(HeaderLines(ls), Init));
      LinesArePrefix(s, k + 1);
  }

  /** The body step after header lines hl were accepted from Init, h being their block. */
  lemma CompleteAfterScan(s: seq<byte>, h: seq<byte>, hl: seq<seq<byte>>)
    requires |h| <= |s| && h == s[..|h|] && Accepts(hl, Init)
    ensures Complete(s, h, Captured(hl, Init)).Ok? <==>
      HeadersAccepted(hl) && |h| + LastContentLength(hl) <= |s|
    ensures Complete(s, h, Captured(hl, Init)).Ok? ==>
      Complete(s, h, Captured(hl, Init)) ==
        Ok(Request(s[..|h| + LastContentLength(hl)], FirstHost(hl)))
  {
    CapturedFromInit(hl);
    CompleteIsPrefix(s, h, Captured(hl, Init));
  }

  /** The condition under which the body step succeeds, spelled out from Init. */
  lemma CompleteFromInit(s: seq<byte>)
    requires BlankLine(Lines(s)).Some? && Accepts(HeaderLines(Lines(s)), Init)
    ensures ReadRequest(s).Ok? <==> WellFormed(s)
    ensures ReadRequest(s).Ok? ==>
      ReadRequest(s) == Ok(Request(
        s[..|HeaderBlock(s)| + LastContentLength(HeaderLines(Lines(s)))],
        FirstHost(HeaderLines(Lines(s)))))
  {
    ReadRequestByLines(s);
    CompleteAfterScan(s, HeaderBlock(s), HeaderLines(Lines(s)));
  }

  /**
    read_http_request succeeds exactly on well-formed requests, and then
    returns the header block followed by exactly as many bytes as the last
    Content-Length line declares (none when there is none), as one prefix
    of the stream, together with the Host line's value.
   */
  lemma ReadRequestIsWellFormed(s: seq<byte>)
    ensures ReadRequest(s).Ok? <==> WellFormed(s)
    ensures WellFormed(s) ==>
      ReadRequest(s) == Ok(Request(
        s[..|HeaderBlock(s)| + LastContentLength(HeaderLines(Lines(s)))],
        FirstHost(HeaderLines(Lines(s)))))
  {
    if BlankLine(Lines(s)).Some? && Accepts(HeaderLines(Lines(s)), Init) {
      CompleteFromInit(s);
    } else {
      ReadRequestByLines(s);
    }
  }

  /**
    On success the packet is the lines up to the first two-byte line, that
    line included, then the declared number of body bytes.
   */
  lemma PacketLayout(s: seq<byte>)
    requires ReadRequest(s).Ok?
    ensures BlankLine(Lines(s)).Some?
    ensures var h := HeaderBlock(s);
      var n := LastContentLength(HeaderLines(Lines(s)));
      0 <= n && |h| + n <= |s| &&
      ReadRequest(s).value.packet == h + s[|h|..|h| + n]
  {
    ReadRequestByLines(s);
    CompleteAfterScan(s, HeaderBlock(s), HeaderLines(Lines(s)));
    PrefixSplit(s, HeaderBlock(s), LastContentLength(HeaderLines(Lines(s))));
  }

  lemma PrefixSplit(s: seq<byte>, h: seq<byte>, n: nat)
    requires |h| + n <= |s| && h == s[..|h|]
    ensures s[..|h| + n] == h + s[|h|..|h| + n]
  {
  }

  lemma {:induction false} FirstHostIsTheHostLine(ls: seq<seq<byte>>, i: nat)
    requires i < |ls| && IsHostLine(ls[i]) && HostCount(ls) == 1
    ensures FirstHost(ls) == HostValue(ls[i])
  {
    if i > 0 {
      if IsHostLine(ls[0]) {
        assert HostCount(ls[1..]) == 0;
        HostCountZero(ls[1..], i - 1);
      } else {
        FirstHostIsTheHostLine(ls[1..], i - 1);
      }
    }
  }

  lemma {:induction false} HostCountZero(ls: seq<seq<byte>>, i: nat)
    requires i < |ls| && IsHostLine(ls[i])
    ensures HostCount(ls) > 0
  {
    if i > 0 {
      HostCountZero(ls[1..], i - 1);
    }
  }

  /**
    On success there is exactly one Host line among the header lines, and the
    host is its bytes between the "Host: " prefix and its last two bytes.
   */
  lemma HostIsTheHostLine(s: seq<byte>, i: nat)
    requires ReadRequest(s).Ok?
    requires i < |HeaderLines(Lines(s))| && IsHostLine(HeaderLines(Lines(s))[i])
    ensures HostCount(HeaderLines(Lines(s))) == 1
    ensures var l := HeaderLines(Lines(s))[i];
      |l| >= |HostPrefix| + 2 && ReadRequest(s).value.host == l[|HostPrefix|..|l| - 2]
  {
    ReadRequestIsWellFormed(s);
    FirstHostIsTheHostLine(HeaderLines(Lines(s)), i);
  }

  // ---------------------------------------------------------------------------
  // Errors

  /** A stream that ends before any two-byte line never yields a request. */
  lemma NoBlankLineFails(s: seq<byte>)
    requires BlankLine(Lines(s)).None?
    ensures ReadRequest(s).Err?
  {
    ReadRequestIsWellFormed(s);
  }

  /** ... and when its lines raise nothing else, the error is BadHeader. */
  lemma NoBlankLineBadHeader(s: seq<byte>)
    requires BlankLine(Lines(s)).None? && Accepts(Lines(s), Init)
    ensures ReadRequest(s) == Err(BadHeader)
  {
    var ls := Lines(s);
    ScanPrefix(ls, |ls|, Init);
    assert ls[..|ls|] == ls && ls[|ls|..] == [];
  }

  /** The scan reaches header line j of s with what the lines before it captured. */
  lemma ScanReaches(s: seq<byte>, j: nat)
    requires j < |HeaderLines(Lines(s))| && Accepts(HeaderLines(Lines(s))[..j], Init)
    ensures var ls := Lines(s);
      j < |ls| && |ls[j]| != 2 && ls[j] == HeaderLines(ls)[j] &&
      ScanHeaders(ls, Init) == Shift(ScanHeaders(ls[j..], Captured(ls[..j], Init)), j) &&
      ls[..j] == HeaderLines(ls)[..j]
  {
    var ls := Lines(s);
    assert HeaderLines(ls)[..j] == ls[..j];
    ScanPrefix(ls, j, Init);
  }

  /** A second Host line, once the lines before it raise nothing, yields DuplicateHost. */
  lemma DuplicateHostFails(s: seq<byte>, j: nat)
    requires j < |HeaderLines(Lines(s))| && IsHostLine(HeaderLines(Lines(s))[j])
    requires HostCount(HeaderLines(Lines(s))[..j]) == 1
    requires Accepts(HeaderLines(Lines(s))[..j], Init)
    ensures ReadRequest(s) == Err(DuplicateHost)
  {
    var ls := Lines(s);
    ScanReaches(s, j);
    assert ls[j..][0] == ls[j];
  }

  /** Headers with no Host line at all, and nothing else wrong with them, yield MissingHost. */
  lemma MissingHostFails(s: seq<byte>)
    requires BlankLine(Lines(s)).Some?
    requires HostCount(HeaderLines(Lines(s))) == 0 && Accepts(HeaderLines(Lines(s)), Init)
    ensures ReadRequest(s) == Err(MissingHost)
  {
    ScanHeadersCharacterized(Lines(s), Init);
  }

  /**
    A Content-Length line whose value Atoi rejects yields BadContentLength,
    once the lines before it raise nothing and declare no non-zero length.
   */
  lemma BadContentLengthFails(s: seq<byte>, j: nat)
    requires j < |HeaderLines(Lines(s))|
    requires var l := HeaderLines(Lines(s))[j];
      IsContentLengthLine(l) && |l| >= |ContentLengthPrefix| + 2 &&
      Atoi(l[|ContentLengthPrefix|..|l| - 2]).None?
    requires Accepts(HeaderLines(Lines(s))[..j], Init)
    requires LastContentLength(HeaderLines(Lines(s))[..j]) == 0
    ensures ReadRequest(s) == Err(BadContentLength)
  {
    var ls := Lines(s);
    ScanReaches(s, j);
    if ContentLengthCount(ls[..j]) == 0 {
      NoContentLengthIsZero(ls[..j]);
    }
    assert ls[j..][0] == ls[j];
    PrefixesDiffer(ls[j]);
  }

  /**
    A Host line too short to slice (fewer than 8 bytes), reached with no host
    captured, or a Content-Length line too short to slice (fewer than 18
    bytes), reached with no non-zero length, yields LineTooShort: Go's slice
    bounds panic.
   */
  lemma LineTooShortFails(s: seq<byte>, j: nat)
    requires j < |HeaderLines(Lines(s))|
    requires Accepts(HeaderLines(Lines(s))[..j], Init)
    requires var hl := HeaderLines(Lines(s));
      || (IsHostLine(hl[j]) && HostCount(hl[..j]) == 0 && |hl[j]| < |HostPrefix| + 2)
      || (IsContentLengthLine(hl[j]) && LastContentLength(hl[..j]) == 0 &&
          |hl[j]| < |ContentLengthPrefix| + 2)
    ensures ReadRequest(s) == Err(LineTooShort)
  {
    var ls := Lines(s);
    ScanReaches(s, j);
    if ContentLengthCount(ls[..j]) == 0 {
      NoContentLengthIsZero(ls[..j]);
    }
    CapturedFromInit(ls[..j]);
    assert ls[j..][0] == ls[j];
    PrefixesDiffer(ls[j]);
  }

  /** "Host: \n\r\n": the Host line is one byte too short to slice. */
  lemma ShortHostLineExample()
    ensures ReadRequest([72, 111, 115, 116, 58, 32, 10, 13, 10]) == Err(LineTooShort)
  {
    var s: seq<byte> := [72, 111, 115, 116, 58, 32, 10, 13, 10];
    var l1: seq<byte> := [72, 111, 115, 116, 58, 32, 10];
    var l2: seq<byte> := [13, 10];
    assert NewlineIndex(s[6..]) == Some(0);
    assert s[5..][1..] == s[6..];
    assert NewlineIndex(s[5..]) == Some(1);
    assert s[4..][1..] == s[5..];
    assert NewlineIndex(s[4..]) == Some(2);
    assert s[3..][1..] == s[4..];
    assert NewlineIndex(s[3..]) == Some(3);
    assert s[2..][1..] == s[3..];
    assert NewlineIndex(s[2..]) == Some(4);
    assert s[1..][1..] == s[2..];
    assert NewlineIndex(s[1..]) == Some(5);
    assert NewlineIndex(s) == Some(6);
    assert s[..7] == l1 && s[7..] == l2;
    assert NextLine(s) == Some(l1);
    assert NewlineIndex(l2[1..]) == Some(0);
    assert NewlineIndex(l2) == Some(1);
    assert l2[..2] == l2;
    assert NextLine(l2) == Some(l2);
    assert Lines(l2[2..]) == [];
    assert Lines(l2) == [l2];
    assert Lines(s) == [l1, l2];
    assert l1[..|HostPrefix|] == HostPrefix;
  }

  /**
    A Content-Length line after one with a non-zero value yields
    DuplicateContentLength; after a zero value it is not a duplicate
    (WellFormed admits it).
   */
  lemma DuplicateContentLengthFails(s: seq<byte>, j: nat)
    requires j < |HeaderLines(Lines(s))| && IsContentLengthLine(HeaderLines(Lines(s))[j])
    requires Accepts(HeaderLines(Lines(s))[..j], Init)
    requires LastContentLength(HeaderLines(Lines(s))[..j]) != 0
    ensures ReadRequest(s) == Err(DuplicateContentLength)
  {
    var ls := Lines(s);
    ScanReaches(s, j);
    if ContentLengthCount(ls[..j]) == 0 {
      NoContentLengthIsZero(ls[..j]);
    }
    assert ls[j..][0] == ls[j];
    PrefixesDiffer(ls[j]);
  }

  /** The scan reports DuplicateContentLength only at a Content-Length line reached with a non-zero length. */
  lemma {:induction false} DuplicateNeedsNonZero(ls: seq<seq<byte>>, hs: Headers)
    requires ScanHeaders(ls, hs) == Err(DuplicateContentLength)
    ensures exists j | 0 <= j < |ls| ::
      && (forall i | 0 <= i <= j :: |ls[i]| != 2)
      && IsContentLengthLine(ls[j])
      && Accepts(ls[..j], hs)
      && Captured(ls[..j], hs).contentLength != 0
  {
    var l := ls[0];
    PrefixesDiffer(l);
    match ScanLine(l, hs)
    case Err(_) =>
      assert ls[..0] == [];
      assert Captured([], hs) == hs;
    case Ok(hs') =>
      var t := ls[1..];
      DuplicateNeedsNonZero(t, hs');
      var j :| 0 <= j < |t| && (forall i | 0 <= i <= j :: |t[i]| != 2) && IsContentLengthLine(t[j]) &&
        Accepts(t[..j], hs') && Captured(t[..j], hs').contentLength != 0;
      assert ls[..j + 1] == [l] + t[..j];
      ScanLineAccepts(l, t[..j], hs);
      assert forall i | 1 <= i <= j + 1 :: ls[i] == t[i - 1];
  }

  lemma DuplicateInHeaderLines(ls: seq<seq<byte>>)
    requires ScanHeaders(ls, Init) == Err(DuplicateContentLength)
    ensures RepeatsNonZero(HeaderLines(ls))
  {
    var hl := HeaderLines(ls);
    DuplicateNeedsNonZero(ls, Init);
    var j :| 0 <= j < |ls| && (forall i | 0 <= i <= j :: |ls[i]| != 2) && IsContentLengthLine(ls[j]) &&
      Accepts(ls[..j], Init) && Captured(ls[..j], Init).contentLength != 0;
    assert j < |hl| && hl[j] == ls[j] && hl[..j] == ls[..j];
    CapturedFromInit(ls[..j]);
    assert IsContentLengthLine(hl[j]) && Accepts(hl[..j], Init) && LastContentLength(hl[..j]) != 0;
  }

  /**
    Conversely to DuplicateContentLengthFails: the DuplicateContentLength
    error means some header line starts with "Content-Length: " while an
    earlier one declared a non-zero length, so a repeat after a zero value
    is never reported.
   */
  lemma DuplicateContentLengthNeedsNonZero(s: seq<byte>)
    requires ReadRequest(s) == Err(DuplicateContentLength)
    ensures RepeatsNonZero(HeaderLines(Lines(s)))
  {
    DuplicatesComeFromScan(s, DuplicateContentLength);
    DuplicateInHeaderLines(Lines(s));
  }

  /** Fewer bytes after the blank line than a positive Content-Length yields ShortContent. */
  lemma ShortContentFails(s: seq<byte>)
    requires BlankLine(Lines(s)).Some?
    requires HostCount(HeaderLines(Lines(s))) == 1 && Accepts(HeaderLines(Lines(s)), Init)
    requires LastContentLength(HeaderLines(Lines(s))) > 0
    requires |s| < |HeaderBlock(s)| + LastContentLength(HeaderLines(Lines(s)))
    ensures ReadRequest(s) == Err(ShortContent)
  {
    ScanHeadersCharacterized(Lines(s), Init);
    LinesArePrefix(s, BlankLine(Lines(s)).value + 1);
  }

  /** A negative Content-Length, which Go's make would reject, yields NegativeContentLength. */
  lemma NegativeContentLengthFails(s: seq<byte>)
    requires BlankLine(Lines(s)).Some?
    requires HostCount(HeaderLines(Lines(s))) == 1 && Accepts(HeaderLines(Lines(s)), Init)
    requires LastContentLength(HeaderLines(Lines(s))) < 0
    ensures ReadRequest(s) == Err(NegativeContentLength)
  {
    ScanHeadersCharacterized(Lines(s), Init);
    LinesArePrefix(s, BlankLine(Lines(s)).value + 1);
  }

  /** over_the_horizon replies with its fixed bytes exactly to well-formed requests. */
  lemma ServeRepliesToWellFormed(s: seq<byte>)
    ensures Serve(s) == if WellFormed(s) then Some(Reply) else None
  {
    ReadRequestIsWellFormed(s);
  }
}
