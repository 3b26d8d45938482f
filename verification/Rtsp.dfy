/** RTSP requests (section 6 of RFC 2326): what the parsers and printers of
    src/types compute, as functions of the text. */
module Rtsp {
  import opened Bytes
  import opened Parsing

  const CAPACITY := 32
  const DOLLAR: byte := 36
  /** "RTSP/", "CSeq" and "Content-Length". */
  const RTSP_SLASH: seq<byte> := [82, 84, 83, 80, 47]
  const CSEQ: seq<byte> := [67, 83, 101, 113]
  const CONTENT_LENGTH: seq<byte> := [67, 111, 110, 116, 101, 110, 116, 45, 76, 101, 110, 103, 116, 104]
  const COLON_SPACE: seq<byte> := [COLON, SPACE]

  datatype Header = Header(key: seq<byte>, value: seq<byte>)
  datatype Version = Version(major: byte, minor: byte)
  datatype RequestLine = RequestLine(method_: seq<byte>, uri: seq<byte>, version: Version)
  datatype Request = Request(line: RequestLine, headers: seq<Header>, body: seq<byte>, cseq: u32)

  /** The three number conversions of the C library that parsing calls. */
  datatype Scanf = Scanf(u8: seq<byte> -> Option<byte>, size: seq<byte> -> Option<nat>, u32: seq<byte> -> Option<u32>)

  // ----------------------------------------------------------------- parsing

  function MethodParse(s: seq<byte>): (r: Parse<seq<byte>>)
    ensures r.Complete? ==> r.consumed <= |s|
  {
    var (a, _) :- MatchWhile(IsSpace, s);
    var (b, _) :- MatchToken(IsIdent, Ident, s[a..]);
    Complete(a + b, s[a..a + b])
  }

  function UriParse(s: seq<byte>): (r: Parse<seq<byte>>)
    ensures r.Complete? ==> r.consumed <= |s|
  {
    var (a, _) :- MatchWhile(IsSpace, s);
    var (b, _) :- MatchWhile(IsNonSpace, s[a..]);
    Complete(a + b, s[a..a + b])
  }

  /** "RTSP/" after optional spaces. */
  function VersionPrefix(s: seq<byte>): (r: Parse<()>)
    ensures r.Complete? ==> r.consumed <= |s|
  {
    var (a, _) :- MatchWhile(IsSpace, s);
    var (b, _) :- MatchStr(s[a..], RTSP_SLASH);
    Complete(a + b, ())
  }

  /** The two numbers with any number of dots between them. */
  function VersionDigits(s: seq<byte>): (r: Parse<(seq<byte>, seq<byte>)>)
    ensures r.Complete? ==> r.consumed <= |s|
  {
    var (a, _) :- MatchToken(IsDigit, Int, s);
    var (b, _) :- MatchWhile(IsDot, s[a..]);
    var (c, _) :- MatchToken(IsDigit, Int, s[a + b..]);
    Complete(a + b + c, (s[..a], s[a + b..a + b + c]))
  }

  function ScanVersion(f: Scanf, consumed: nat, digits: (seq<byte>, seq<byte>)): Parse<Version> {
    match (f.u8(digits.0), f.u8(digits.1))
    case (None, _) => Failure(TypeMismatch(Int, digits.0))
    case (_, None) => Failure(TypeMismatch(Int, digits.1))
    case (Some(major), Some(minor)) => Complete(consumed, Version(major, minor))
  }

  function VersionParse(f: Scanf, s: seq<byte>): (r: Parse<Version>)
    ensures r.Complete? ==> r.consumed <= |s|
  {
    var (a, _) :- VersionPrefix(s);
    var (b, digits) :- VersionDigits(s[a..]);
    ScanVersion(f, a + b, digits)
  }

  function LineParse(f: Scanf, s: seq<byte>): (r: Parse<RequestLine>)
    ensures r.Complete? ==> r.consumed <= |s|
  {
    var (a, verb) :- MethodParse(s);
    var (b, uri) :- UriParse(s[a..]);
    var (c, version) :- VersionParse(f, s[a + b..]);
    var (d, _) :- MatchStr(s[a + b + c..], CRLF);
    Complete(a + b + c + d, RequestLine(verb, uri, version))
  }

  function NameParse(s: seq<byte>): (r: Parse<seq<byte>>)
    ensures r.Complete? ==> 0 < r.consumed <= |s|
  {
    var (a, _) :- MatchWhile(IsSpace, s);
    var (b, _) :- MatchToken(IsNameChar, HeaderName, s[a..]);
    Complete(a + b, s[a..a + b])
  }

  /** Spaces, colons and spaces, each of them zero or more times. */
  function SeparatorParse(s: seq<byte>): (r: Parse<()>)
    ensures r.Complete? ==> r.consumed < |s|
  {
    var (a, _) :- MatchWhile(IsSpace, s);
    var (b, _) :- MatchWhile(IsColon, s[a..]);
    var (c, _) :- MatchWhile(IsSpace, s[a + b..]);
    Complete(a + b + c, ())
  }

  function KeyParse(s: seq<byte>): (r: Parse<seq<byte>>)
    ensures r.Complete? ==> 0 < r.consumed <= |s|
  {
    var (a, key) :- NameParse(s);
    var (b, _) :- SeparatorParse(s[a..]);
    Complete(a + b, key)
  }

  function HeaderParse(s: seq<byte>): (r: Parse<Header>)
    ensures r.Complete? ==> 0 < r.consumed <= |s|
  {
    var (a, key) :- KeyParse(s);
    var (b, _) :- MatchUntilStr(s[a..], CRLF);
    Complete(a + b, Header(key, s[a..a + b - 2]))
  }

  predicate EndsWithCr(s: seq<byte>) { |s| > 0 && s[|s| - 1] == CR }
  predicate StartsWithCrlf(s: seq<byte>) { |s| >= 2 && s[0] == CR && s[1] == LF }

  /** Header lines up to the empty line; `have` were read before. */
  function HeadersParse(s: seq<byte>, have: seq<Header>): (r: Parse<seq<Header>>)
    ensures r.Complete? ==> 2 <= r.consumed <= |s|
    decreases |s|
  {
    if EndsWithCr(s) then Partial
    else if StartsWithCrlf(s) then Complete(2, have)
    else if |have| == CAPACITY then Failure(HeaderMapOverflow)
    else
      var (n, h) :- HeaderParse(s);
      HeadersParse(s[n..], have + [h]).After(n)
  }

  /** The value of the first header with this key. */
  function Find(headers: seq<Header>, key: seq<byte>): Option<seq<byte>> {
    if |headers| == 0 then None
    else if headers[0].key == key then Some(headers[0].value)
    else Find(headers[1..], key)
  }

  /** How long the body is, 0 without a Content-Length. */
  function BodyLength(f: Scanf, headers: seq<Header>): Option<nat> {
    match Find(headers, CONTENT_LENGTH)
    case None => Some(0)
    case Some(v) => f.size(v)
  }

  /** Body and CSeq, once the headers are known. */
  function FinishParse(f: Scanf, line: RequestLine, headers: seq<Header>, s: seq<byte>): (r: Parse<Request>)
    ensures r.Complete? ==> r.consumed == |r.value.body| <= |s| && r.value.headers == headers
  {
    match BodyLength(f, headers)
    case None => Failure(ContentLength(Find(headers, CONTENT_LENGTH).value))
    case Some(n) =>
      if |s| < n then Partial
      else
        match Find(headers, CSEQ)
        case None => Failure(MissingCSeq)
        case Some(v) =>
          match f.u32(v)
          case None => Failure(InvalidCSeq(v))
          case Some(cseq) => Complete(n, Request(line, headers, s[..n], cseq))
  }

  function MessageParse(f: Scanf, s: seq<byte>): (r: Parse<Request>)
    ensures r.Complete? ==> r.consumed <= |s|
  {
    var (a, line) :- LineParse(f, s);
    var (b, headers) :- HeadersParse(s[a..], []);
    FinishParse(f, line, headers, s[a + b..]).After(a + b)
  }

  function FrameLength(s: seq<byte>): nat
    requires |s| >= 4
  {
    4 + Be16(s, 2)
  }

  /** Interleaved binary frames in front of a request are passed over. */
  function SkipFrames(s: seq<byte>): (r: Parse<()>)
    ensures r.Complete? ==> r.consumed + 4 <= |s| && s[r.consumed] != DOLLAR
    ensures !r.Failure?
    decreases |s|
  {
    if |s| < 4 then Partial
    else if s[0] != DOLLAR then Complete(0, ())
    else if |s| < FrameLength(s) then Partial
    else SkipFrames(s[FrameLength(s)..]).After(FrameLength(s))
  }

  function RequestParse(f: Scanf, s: seq<byte>): (r: Parse<Request>)
    ensures r.Complete? ==> r.consumed <= |s|
  {
    var (a, _) :- SkipFrames(s);
    MessageParse(f, s[a..]).After(a)
  }

  // ---------------------------------------------------------------- printing

  /** What "%u", "%zd" and the like print for a natural number. */
  function Decimal(n: nat): (s: seq<byte>)
    ensures |s| > 0 && forall i :: 0 <= i < |s| ==> IsDigit(s[i])
  {
    if n < 10 then [48 + n] else Decimal(n / 10) + [48 + n % 10]
  }

  function PrintVersion(v: Version): seq<byte> {
    RTSP_SLASH + Decimal(v.major) + [DOT] + Decimal(v.minor)
  }

  function PrintLine(l: RequestLine): seq<byte> {
    l.method_ + [SPACE] + l.uri + [SPACE] + PrintVersion(l.version) + CRLF
  }

  function PrintHeader(h: Header): (s: seq<byte>)
    ensures |s| >= 4
  {
    h.key + COLON_SPACE + h.value + CRLF
  }

  function PrintHeaders(hs: seq<Header>): seq<byte> {
    if |hs| == 0 then [] else PrintHeader(hs[0]) + PrintHeaders(hs[1..])
  }

  /** The headers the printer puts in front: CSeq unless present, and
      Content-Length unless present or the body is empty. */
  function Inserted(r: Request): seq<Header> {
    (if Find(r.headers, CSEQ).None? then [Header(CSEQ, Decimal(r.cseq))] else []) +
    (if Find(r.headers, CONTENT_LENGTH).None? && |r.body| > 0
     then [Header(CONTENT_LENGTH, Decimal(|r.body|))] else [])
  }

  function Print(r: Request): seq<byte> {
    PrintLine(r.line) + PrintHeaders(Inserted(r)) + PrintHeaders(r.headers) + CRLF + r.body
  }
}
