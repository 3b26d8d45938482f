/** Printing a request and parsing the text back. */
module RtspRoundTrip {
  import opened Bytes
  import opened Parsing
  import opened Rtsp
  import opened RtspIncremental

  /** The C library reads back the numbers it prints. */
  ghost predicate Inverts(f: Scanf) {
    && (forall n: nat :: n < 256 ==> f.u8(Decimal(n)) == Some(n))
    && (forall n: nat :: n < 0x1_0000_0000 ==> f.u32(Decimal(n)) == Some(n))
    && (forall n: nat :: n < 0x8000_0000_0000_0000 ==> f.size(Decimal(n)) == Some(n))
  }

  /** The value of a string of digits. */
  function DecimalValue(s: seq<byte>): nat {
    if |s| == 0 then 0
    else DecimalValue(s[..|s| - 1]) * 10 + if IsDigit(s[|s| - 1]) then s[|s| - 1] - 48 else 0
  }

  lemma {:induction false} DecimalRoundTrip(n: nat)
    ensures DecimalValue(Decimal(n)) == n
  {
    if n >= 10 {
      assert Decimal(n)[..|Decimal(n)| - 1] == Decimal(n / 10);
      DecimalRoundTrip(n / 10);
    } else {
      assert DecimalValue([]) == 0;
    }
  }

  /** Reading digits at their value is such a library. */
  lemma DigitsInvert()
    ensures Inverts(Scanf(
      s => if DecimalValue(s) < 256 then Some(DecimalValue(s)) else None,
      s => Some(DecimalValue(s)),
      s => if DecimalValue(s) < 0x1_0000_0000 then Some(DecimalValue(s)) else None))
  {
    forall n: nat ensures DecimalValue(Decimal(n)) == n { DecimalRoundTrip(n); }
  }

  /** ASCII text. */
  function Text(s: string): (t: seq<byte>)
    requires forall i :: 0 <= i < |s| ==> s[i] as int < 128
    ensures |t| == |s|
  {
    seq(|s|, i requires 0 <= i < |s| => s[i] as int)
  }

  /** The bytes 0-9, A-Z, a-z and '_'. */
  predicate IdentByte(c: byte) { 48 <= c <= 57 || 65 <= c <= 90 || 97 <= c <= 122 || c == 95 }

  /** The bytes A-Z, a-z and '-'. */
  predicate NameByte(c: byte) { 65 <= c <= 90 || 97 <= c <= 122 || c == 45 }

  predicate PrintableLine(l: RequestLine) {
    && |l.method_| > 0 && (forall i :: 0 <= i < |l.method_| ==> IdentByte(l.method_[i]))
    && |l.uri| > 0 && (forall i :: 0 <= i < |l.uri| ==> l.uri[i] != 32)
  }

  /** A key of letters and hyphens; a value without CRLF or a leading space. */
  predicate PrintableHeader(h: Header) {
    && |h.key| > 0 && (forall i :: 0 <= i < |h.key| ==> NameByte(h.key[i]))
    && (forall i: nat :: i < |h.value| ==> !OccursAt(h.value, [13, 10], i))
    && (|h.value| > 0 ==> h.value[0] != 32)
  }

  predicate PrintableHeaders(hs: seq<Header>) {
    forall i :: 0 <= i < |hs| ==> PrintableHeader(hs[i])
  }

  /** Any CSeq or Content-Length the caller set says what the request says. */
  predicate PresetsAgree(f: Scanf, r: Request) {
    && (Find(r.headers, CSEQ).Some? ==> f.u32(Find(r.headers, CSEQ).value) == Some(r.cseq))
    && (Find(r.headers, CONTENT_LENGTH).Some? ==> f.size(Find(r.headers, CONTENT_LENGTH).value) == Some(|r.body|))
  }

  predicate Printable(f: Scanf, r: Request) {
    PrintableLine(r.line) && PrintableHeaders(r.headers) && PresetsAgree(f, r) && |r.body| < 0x8000_0000_0000_0000
  }

  /** All headers of the printed text fit the header map. */
  predicate HeadersFit(r: Request) { |Inserted(r)| + |r.headers| <= 32 }

  // ------------------------------------------------------------- header lines

  lemma NameRoundTrip(key: seq<byte>, rest: seq<byte>)
    requires |key| > 0 && (forall i :: 0 <= i < |key| ==> NameByte(key[i]))
    requires |rest| > 0 && !NameByte(rest[0])
    ensures NameParse(key + rest) == Complete(|key|, key)
  {
    var s := key + rest;
    MatchWhileExact(IsSpace, [], s);
    assert [] + s == s && s[0..] == s;
    MatchWhileExact(IsNameChar, key, rest);
    assert s[..|key|] == key;
  }

  lemma SeparatorRoundTrip(rest: seq<byte>)
    requires |rest| > 0 && rest[0] != SPACE
    ensures SeparatorParse(COLON_SPACE + rest) == Complete(2, ())
  {
    var s := COLON_SPACE + rest;
    assert [] + s == s && s[0..] == s;
    MatchWhileExact(IsSpace, [], s);
    assert s == [COLON] + ([SPACE] + rest);
    MatchWhileExact(IsColon, [COLON], [SPACE] + rest);
    assert s[1..] == [SPACE] + rest;
    MatchWhileExact(IsSpace, [SPACE], rest);
  }

  lemma OccursInPrefix(a: seq<byte>, b: seq<byte>, str: seq<byte>, i: nat)
    ensures i + |str| <= |a| ==> OccursAt(a + b, str, i) == OccursAt(a, str, i)
  {
    if i + |str| <= |a| { assert (a + b)[i..i + |str|] == a[i..i + |str|]; }
  }

  lemma ValueRoundTrip(value: seq<byte>, rest: seq<byte>)
    requires forall i: nat :: i < |value| ==> !OccursAt(value, CRLF, i)
    ensures MatchUntilStr(value + CRLF + rest, CRLF) == Complete(|value| + 2, ())
  {
    hide MatchUntilStr;
    var s := value + CRLF + rest;
    assert s[|value|..|value| + 2] == CRLF;
    MatchUntilStrFirst(s, CRLF, |value|);
    MatchUntilStrFinds(s, CRLF);
    var at: nat := MatchUntilStr(s, CRLF).consumed - 2;
    assert s[at] == s[at..at + 2][0] == CR && s[at + 1] == s[at..at + 2][1] == LF;
    assert at + 1 != |value|;
    OccursInPrefix(value, CRLF + rest, CRLF, at);
    assert value + (CRLF + rest) == s;
    assert MatchUntilStr(s, CRLF).value == ();
  }

  lemma HeaderFromParts(s: seq<byte>, h: Header, a: nat, b: nat, c: nat)
    requires NameParse(s) == Complete(a, h.key) && a <= |s|
    requires SeparatorParse(s[a..]) == Complete(b, ()) && a + b <= |s|
    requires MatchUntilStr(s[a + b..], CRLF) == Complete(c, ()) && 2 <= c <= |s| - a - b
    requires s[a + b..a + b + c - 2] == h.value
    ensures HeaderParse(s) == Complete(a + b + c, h)
  {
    hide NameParse, SeparatorParse, MatchUntilStr;
  }

  lemma HeaderRoundTrip(h: Header, rest: seq<byte>)
    requires PrintableHeader(h)
    ensures HeaderParse(PrintHeader(h) + rest) == Complete(|PrintHeader(h)|, h)
  {
    hide NameParse, SeparatorParse, MatchUntilStr, HeaderParse;
    var s := PrintHeader(h) + rest;
    var tail := h.value + CRLF + rest;
    assert s == h.key + (COLON_SPACE + tail);
    NameRoundTrip(h.key, COLON_SPACE + tail);
    assert s[|h.key|..] == COLON_SPACE + tail;
    SeparatorRoundTrip(tail);
    var k := |h.key| + 2;
    assert s[k..] == tail;
    ValueRoundTrip(h.value, rest);
    assert s[k..k + |h.value|] == h.value;
    HeaderFromParts(s, h, |h.key|, 2, |h.value| + 2);
  }

  lemma HeadersStep(h: Header, rest: seq<byte>, have: seq<Header>)
    requires PrintableHeader(h) && |have| < CAPACITY && !EndsWithCr(PrintHeader(h) + rest)
    ensures HeadersParse(PrintHeader(h) + rest, have) == HeadersParse(rest, have + [h]).After(|PrintHeader(h)|)
  {
    hide HeaderParse, PrintHeader;
    var s := PrintHeader(h) + rest;
    HeaderRoundTrip(h, rest);
    FirstByte(h, rest);
    assert s[|PrintHeader(h)|..] == rest;
  }

  lemma HeadersEnd(body: seq<byte>, have: seq<Header>)
    requires !EndsWithCr(body)
    ensures HeadersParse(CRLF + body, have) == Complete(2, have)
  {
    assert [] + CRLF + body == CRLF + body;
    LastByte([], body);
  }

  lemma HeadersFull(h: Header, rest: seq<byte>, have: seq<Header>)
    requires PrintableHeader(h) && |have| == CAPACITY && !EndsWithCr(PrintHeader(h) + rest)
    ensures HeadersParse(PrintHeader(h) + rest, have) == Failure(HeaderMapOverflow)
  {
    hide HeaderParse, PrintHeader;
    FirstByte(h, rest);
  }

  lemma {:induction false} HeadersRoundTrip(hs: seq<Header>, body: seq<byte>, have: seq<Header>)
    requires PrintableHeaders(hs) && |have| <= CAPACITY && !EndsWithCr(body)
    ensures HeadersParse(PrintHeaders(hs) + CRLF + body, have)
         == if |have| + |hs| <= CAPACITY then Complete(|PrintHeaders(hs)| + 2, have + hs)
            else Failure(HeaderMapOverflow)
    decreases |hs|
  {
    hide HeaderParse, PrintHeader, PrintableHeader, EndsWithCr, HeadersParse;
    var s := PrintHeaders(hs) + CRLF + body;
    LastByte(PrintHeaders(hs), body);
    if |hs| == 0 {
      assert s == CRLF + body;
      HeadersEnd(body, have);
      assert have + hs == have;
    } else {
      var rest := PrintHeaders(hs[1..]) + CRLF + body;
      assert s == PrintHeader(hs[0]) + rest;
      if |have| == CAPACITY {
        HeadersFull(hs[0], rest, have);
      } else {
        HeadersStep(hs[0], rest, have);
        HeadersRoundTrip(hs[1..], body, have + [hs[0]]);
        assert have + [hs[0]] + hs[1..] == have + hs;
      }
    }
  }

  lemma LastByte(a: seq<byte>, body: seq<byte>)
    requires !EndsWithCr(body)
    ensures !EndsWithCr(a + CRLF + body)
  {
  }

  lemma FirstByte(h: Header, rest: seq<byte>)
    requires PrintableHeader(h)
    ensures !StartsWithCrlf(PrintHeader(h) + rest)
  {
    assert (PrintHeader(h) + rest)[0] == h.key[0];
  }

  lemma {:induction false} PrintHeadersAppend(a: seq<Header>, b: seq<Header>)
    ensures PrintHeaders(a + b) == PrintHeaders(a) + PrintHeaders(b)
    decreases |a|
  {
    hide PrintHeader;
    if |a| == 0 {
      assert a + b == b;
    } else {
      assert (a + b)[1..] == a[1..] + b;
      PrintHeadersAppend(a[1..], b);
    }
  }

  // --------------------------------------------------------- the request line

  lemma MethodRoundTrip(m: seq<byte>, rest: seq<byte>)
    requires |m| > 0 && (forall i :: 0 <= i < |m| ==> IdentByte(m[i]))
    ensures MethodParse(m + [SPACE] + rest) == Complete(|m|, m)
  {
    var s := m + ([SPACE] + rest);
    assert m + [SPACE] + rest == s;
    assert [] + s == s && s[0..] == s;
    MatchWhileExact(IsSpace, [], s);
    MatchWhileExact(IsIdent, m, [SPACE] + rest);
    assert s[..|m|] == m;
  }

  lemma UriRoundTrip(uri: seq<byte>, rest: seq<byte>)
    requires |uri| > 0 && (forall i :: 0 <= i < |uri| ==> uri[i] != 32)
    ensures UriParse([SPACE] + uri + [SPACE] + rest) == Complete(1 + |uri|, uri)
  {
    var s := [SPACE] + uri + [SPACE] + rest;
    assert s == [SPACE] + (uri + [SPACE] + rest);
    MatchWhileExact(IsSpace, [SPACE], uri + [SPACE] + rest);
    assert s[1..] == uri + ([SPACE] + rest);
    MatchWhileExact(IsNonSpace, uri, [SPACE] + rest);
    assert s[1..1 + |uri|] == uri;
  }

  lemma NumberRoundTrip(digits: seq<byte>, rest: seq<byte>)
    requires |digits| > 0 && (forall i :: 0 <= i < |digits| ==> IsDigit(digits[i]))
    requires |rest| > 0 && !IsDigit(rest[0])
    ensures MatchToken(IsDigit, Int, digits + rest) == Complete(|digits|, ())
  {
    MatchWhileExact(IsDigit, digits, rest);
  }

  lemma DigitsRoundTrip(major: seq<byte>, minor: seq<byte>, rest: seq<byte>)
    requires |major| > 0 && (forall i :: 0 <= i < |major| ==> IsDigit(major[i]))
    requires |minor| > 0 && (forall i :: 0 <= i < |minor| ==> IsDigit(minor[i]))
    requires |rest| > 0 && !IsDigit(rest[0])
    ensures VersionDigits(major + [DOT] + minor + rest) == Complete(|major| + 1 + |minor|, (major, minor))
  {
    hide MatchWhile, MatchToken;
    var s := major + [DOT] + minor + rest;
    var k := |major|;
    var afterDot := minor + rest;
    assert s == major + ([DOT] + afterDot);
    NumberRoundTrip(major, [DOT] + afterDot);
    assert s[k..] == [DOT] + afterDot;
    MatchWhileExact(IsDot, [DOT], afterDot);
    assert s[k + 1..] == afterDot;
    NumberRoundTrip(minor, rest);
    assert s[..k] == major && s[k + 1..k + 1 + |minor|] == minor;
  }

  lemma VersionRoundTrip(f: Scanf, v: Version, rest: seq<byte>)
    requires Inverts(f)
    ensures VersionParse(f, [SPACE] + PrintVersion(v) + CRLF + rest) == Complete(1 + |PrintVersion(v)|, v)
  {
    hide MatchWhile, VersionDigits, Decimal;
    var digits := Decimal(v.major) + [DOT] + Decimal(v.minor);
    var s := [SPACE] + PrintVersion(v) + CRLF + rest;
    var tail := digits + (CRLF + rest);
    assert s == [SPACE] + (RTSP_SLASH + tail);
    MatchWhileExact(IsSpace, [SPACE], RTSP_SLASH + tail);
    assert s[1..] == RTSP_SLASH + tail;
    assert s[1..][..5] == RTSP_SLASH;
    assert s[6..] == tail;
    DigitsRoundTrip(Decimal(v.major), Decimal(v.minor), CRLF + rest);
  }

  lemma LineRoundTrip(f: Scanf, l: RequestLine, rest: seq<byte>)
    requires Inverts(f) && PrintableLine(l)
    ensures LineParse(f, PrintLine(l) + rest) == Complete(|PrintLine(l)|, l)
  {
    hide MethodParse, UriParse, VersionParse, PrintVersion;
    var s := PrintLine(l) + rest;
    var m, u, v := |l.method_|, |l.uri|, |PrintVersion(l.version)|;
    assert s == l.method_ + [SPACE] + (l.uri + [SPACE] + PrintVersion(l.version) + CRLF + rest);
    MethodRoundTrip(l.method_, l.uri + [SPACE] + PrintVersion(l.version) + CRLF + rest);
    assert s[m..] == [SPACE] + l.uri + [SPACE] + (PrintVersion(l.version) + CRLF + rest);
    UriRoundTrip(l.uri, PrintVersion(l.version) + CRLF + rest);
    assert s[m + 1 + u..] == [SPACE] + PrintVersion(l.version) + CRLF + rest;
    VersionRoundTrip(f, l.version, rest);
    assert s[m + 2 + u + v..] == CRLF + rest;
  }

  // ------------------------------------------------- any spacing, any stop

  function Run(c: byte, n: nat): (s: seq<byte>)
    ensures |s| == n && forall i :: 0 <= i < n ==> s[i] == c
  {
    seq(n, i => c)
  }

  /** After any number of spaces, the method is the longest run of its alphabet. */
  lemma MethodTakes(pad: nat, m: seq<byte>, stop: byte, rest: seq<byte>)
    requires |m| > 0 && (forall i :: 0 <= i < |m| ==> IdentByte(m[i])) && !IdentByte(stop)
    ensures MethodParse(Run(32, pad) + m + [stop] + rest) == Complete(pad + |m|, m)
  {
    var s, tail := Run(32, pad) + m + [stop] + rest, m + ([stop] + rest);
    assert s == Run(32, pad) + tail;
    MatchWhileExact(IsSpace, Run(32, pad), tail);
    assert s[pad..] == tail;
    MatchWhileExact(IsIdent, m, [stop] + rest);
    assert s[pad..pad + |m|] == m;
  }

  /** So is a header name, over its alphabet. */
  lemma NameTakes(pad: nat, key: seq<byte>, stop: byte, rest: seq<byte>)
    requires |key| > 0 && (forall i :: 0 <= i < |key| ==> NameByte(key[i])) && !NameByte(stop)
    ensures NameParse(Run(32, pad) + key + [stop] + rest) == Complete(pad + |key|, key)
  {
    var s, tail := Run(32, pad) + key + [stop] + rest, key + ([stop] + rest);
    assert s == Run(32, pad) + tail;
    MatchWhileExact(IsSpace, Run(32, pad), tail);
    assert s[pad..] == tail;
    MatchWhileExact(IsNameChar, key, [stop] + rest);
    assert s[pad..pad + |key|] == key;
  }

  /** The URI is everything up to the next space, control characters included. */
  lemma UriTakes(pad: nat, uri: seq<byte>, rest: seq<byte>)
    requires |uri| > 0 && (forall i :: 0 <= i < |uri| ==> uri[i] != 32)
    ensures UriParse(Run(32, pad) + uri + [32] + rest) == Complete(pad + |uri|, uri)
  {
    var s, tail := Run(32, pad) + uri + [32] + rest, uri + ([32] + rest);
    assert s == Run(32, pad) + tail;
    MatchWhileExact(IsSpace, Run(32, pad), tail);
    assert s[pad..] == tail;
    MatchWhileExact(IsNonSpace, uri, [32] + rest);
    assert s[pad..pad + |uri|] == uri;
  }

  /** Between name and value: spaces, colons and spaces, any number of each. */
  lemma SeparatorTakes(i: nat, j: nat, k: nat, rest: seq<byte>)
    requires |rest| > 0 && rest[0] != 32 && (k == 0 ==> rest[0] != 58) && (j > 0 || k == 0)
    ensures SeparatorParse(Run(32, i) + Run(58, j) + Run(32, k) + rest) == Complete(i + j + k, ())
  {
    hide MatchWhile;
    var c := Run(32, k) + rest;
    var b := Run(58, j) + c;
    var s := Run(32, i) + Run(58, j) + Run(32, k) + rest;
    assert s == Run(32, i) + b;
    MatchWhileExact(IsSpace, Run(32, i), b);
    assert s[i..] == b;
    MatchWhileExact(IsColon, Run(58, j), c);
    assert s[i + j..] == c;
    MatchWhileExact(IsSpace, Run(32, k), rest);
  }

  /** Between the two numbers of the version: any number of dots, but one. */
  lemma VersionTakes(pad: nat, major: seq<byte>, dots: nat, minor: seq<byte>, rest: seq<byte>)
    requires |major| > 0 && (forall i :: 0 <= i < |major| ==> 48 <= major[i] <= 57) && dots > 0
    requires |minor| > 0 && (forall i :: 0 <= i < |minor| ==> 48 <= minor[i] <= 57)
    requires |rest| > 0 && !(48 <= rest[0] <= 57)
    ensures VersionPrefix(Run(32, pad) + Text("RTSP/") + rest) == Complete(pad + 5, ())
    ensures VersionDigits(major + Run(46, dots) + minor + rest) == Complete(|major| + dots + |minor|, (major, minor))
  {
    PrefixTakes(pad, rest);
    hide MatchWhile, MatchToken, VersionPrefix, Text;
    var s, k := major + Run(46, dots) + minor + rest, |major|;
    var afterDots := minor + rest;
    assert s == major + (Run(46, dots) + afterDots);
    NumberRoundTrip(major, Run(46, dots) + afterDots);
    assert s[k..] == Run(46, dots) + afterDots;
    MatchWhileExact(IsDot, Run(46, dots), afterDots);
    assert s[k + dots..] == afterDots;
    NumberRoundTrip(minor, rest);
    assert s[..k] == major && s[k + dots..k + dots + |minor|] == minor;
  }

  lemma PrefixTakes(pad: nat, rest: seq<byte>)
    ensures VersionPrefix(Run(32, pad) + Text("RTSP/") + rest) == Complete(pad + 5, ())
  {
    Texts();
    hide MatchWhile, Text;
    var slash := Text("RTSP/");
    var s := Run(32, pad) + slash + rest;
    assert s == Run(32, pad) + (slash + rest);
    MatchWhileExact(IsSpace, Run(32, pad), slash + rest);
    assert s[pad..] == slash + rest;
    assert s[pad..][..5] == slash;
  }

  /** What is reported when a token cannot start: what was expected, and the text
      from there on. */
  lemma ErrorKinds(pad: nat, c: byte, rest: seq<byte>)
    requires c != 32
    ensures !IdentByte(c) ==> MethodParse(Run(32, pad) + [c] + rest) == Failure(TypeMismatch(Ident, [c] + rest))
    ensures !NameByte(c) ==> NameParse(Run(32, pad) + [c] + rest) == Failure(TypeMismatch(HeaderName, [c] + rest))
    ensures !(48 <= c <= 57) ==> VersionDigits([c] + rest) == Failure(TypeMismatch(Int, [c] + rest))
  {
    var s, tail := Run(32, pad) + [c] + rest, [c] + rest;
    assert s == Run(32, pad) + tail;
    MatchWhileExact(IsSpace, Run(32, pad), tail);
    assert s[pad..] == tail;
    hide MatchWhile;
  }

  /** A version whose numbers do not fit is reported by the number at fault. */
  lemma VersionErrors(f: Scanf, v: seq<byte>)
    requires VersionPrefix(v).Complete? && VersionDigits(v[VersionPrefix(v).consumed..]).Complete?
    ensures var (major, minor) := VersionDigits(v[VersionPrefix(v).consumed..]).value;
      && (f.u8(major).None? ==> VersionParse(f, v) == Failure(TypeMismatch(Int, major)))
      && (f.u8(major).Some? && f.u8(minor).None? ==> VersionParse(f, v) == Failure(TypeMismatch(Int, minor)))
      && (f.u8(major).Some? && f.u8(minor).Some? ==>
          VersionParse(f, v).Complete? && VersionParse(f, v).value == Version(f.u8(major).value, f.u8(minor).value))
  {
    hide VersionPrefix, VersionDigits;
  }

  /** Fewer than four bytes are never enough; after that the first byte decides. */
  lemma FrontExactly(f: Scanf, s: seq<byte>)
    ensures |s| < 4 ==> RequestParse(f, s) == Partial
    ensures |s| >= 4 && s[0] != '$' as int ==> RequestParse(f, s) == MessageParse(f, s)
    ensures |s| >= 4 && s[0] == '$' as int ==>
      var n := 4 + Be16(s, 2);
      RequestParse(f, s) == if |s| < n then Partial else RequestParse(f, s[n..]).After(n)
  {
    hide MessageParse;
    if |s| >= 4 && s[0] != '$' as int { assert s[0..] == s; }
    if |s| >= 4 && s[0] == '$' as int && |s| >= 4 + Be16(s, 2) {
      var n := 4 + Be16(s, 2);
      if SkipFrames(s[n..]).Complete? {
        var a := SkipFrames(s[n..]).consumed;
        assert s[n..][a..] == s[n + a..];
      }
    }
  }

  // ------------------------------------------------------------ literal texts

  /** The texts and characters the parser looks for. */
  lemma Texts()
    ensures RTSP_SLASH == Text("RTSP/") && CSEQ == Text("CSeq") && CONTENT_LENGTH == Text("Content-Length")
    ensures CRLF == Text("\r\n") && COLON_SPACE == Text(": ") && DOLLAR == '$' as int
  {
  }

  lemma CharClasses(c: byte)
    ensures IsSpace(c) <==> c == ' ' as int
    ensures IsNonSpace(c) <==> c != ' ' as int
    ensures IsColon(c) <==> c == ':' as int
    ensures IsDot(c) <==> c == '.' as int
    ensures IsDigit(c) <==> '0' as int <= c <= '9' as int
    ensures IsIdent(c) <==> IdentByte(c)
    ensures IsNameChar(c) <==> NameByte(c)
  {
  }

  // ------------------------------------------------ where a token may be missing

  /** The view ends right behind "RTSP/".  There, and only there, the source looks
      at the first byte of an empty slice. */
  predicate EndsBehindSlash(s: seq<byte>) {
    && SkipFrames(s).Complete? && var m := s[SkipFrames(s).consumed..];
    && MethodParse(m).Complete? && var rest := m[MethodParse(m).consumed..];
    && UriParse(rest).Complete? && var v := rest[UriParse(rest).consumed..];
    VersionPrefix(v) == Complete(|v|, ())
  }

  /** Every other token follows a run that is known to have ended, so its first
      byte is there. */
  lemma TokensStartInside(s: seq<byte>)
    ensures var a := MatchWhile(IsSpace, s); a.Complete? ==> |s[a.consumed..]| > 0
    ensures var a := MatchToken(IsDigit, Int, s);
      a.Complete? ==> var b := MatchWhile(IsDot, s[a.consumed..]);
        b.Complete? ==> |s[a.consumed + b.consumed..]| > 0
  {
  }

  /** A view that ends there is answered with Partial. */
  lemma BehindSlashIsPartial(f: Scanf, s: seq<byte>)
    requires EndsBehindSlash(s)
    ensures RequestParse(f, s) == Partial
  {
    hide SkipFrames, LineParse, VersionParse, MethodParse, UriParse, VersionPrefix, HeadersParse, FinishParse;
    var m := s[SkipFrames(s).consumed..];
    var a := MethodParse(m).consumed;
    var rest := m[a..];
    var b := UriParse(rest).consumed;
    assert rest[b..] == m[a + b..];
    NoDigits(f, m[a + b..]);
    LineWithoutVersion(f, m);
  }

  lemma NoDigits(f: Scanf, v: seq<byte>)
    requires VersionPrefix(v) == Complete(|v|, ())
    ensures VersionParse(f, v) == Partial
  {
    hide VersionPrefix;
    assert v[|v|..] == [];
  }

  lemma LineWithoutVersion(f: Scanf, m: seq<byte>)
    requires MethodParse(m).Complete? && UriParse(m[MethodParse(m).consumed..]).Complete?
    requires var a := MethodParse(m).consumed;
      VersionParse(f, m[a + UriParse(m[a..]).consumed..]) == Partial
    ensures LineParse(f, m) == Partial
  {
    hide MethodParse, UriParse, VersionParse;
  }

  lemma NoFrames(s: seq<byte>)
    requires |s| >= 4 && s[0] != DOLLAR
    ensures SkipFrames(s) == Complete(0, ())
  {
  }

  lemma SlashAlone()
    ensures VersionPrefix([SPACE] + RTSP_SLASH) == Complete(6, ())
  {
    hide MatchWhile;
    var v := [SPACE] + RTSP_SLASH;
    MatchWhileExact(IsSpace, [SPACE], RTSP_SLASH);
    assert v[1..] == RTSP_SLASH && RTSP_SLASH[..5] == RTSP_SLASH;
  }

  /** Any method and URI followed by "RTSP/" are such a view. */
  lemma SlashViews(verb: seq<byte>, uri: seq<byte>)
    requires |verb| > 0 && (forall i :: 0 <= i < |verb| ==> IdentByte(verb[i]))
    requires |uri| > 0 && (forall i :: 0 <= i < |uri| ==> uri[i] != 32)
    ensures EndsBehindSlash(verb + [SPACE] + uri + [SPACE] + RTSP_SLASH)
  {
    hide SkipFrames, MethodParse, UriParse, VersionPrefix;
    var s := verb + [SPACE] + uri + [SPACE] + RTSP_SLASH;
    assert s[0] == verb[0];
    NoFrames(s);
    assert s[0..] == s;
    MethodRoundTrip(verb, uri + [SPACE] + RTSP_SLASH);
    assert s == verb + [SPACE] + (uri + [SPACE] + RTSP_SLASH);
    var rest := s[|verb|..];
    assert rest == [SPACE] + uri + [SPACE] + RTSP_SLASH;
    UriRoundTrip(uri, RTSP_SLASH);
    assert rest[1 + |uri|..] == [SPACE] + RTSP_SLASH;
    SlashAlone();
  }

  // -------------------------------------------------------------- the request

  lemma {:induction false} FindAppend(a: seq<Header>, b: seq<Header>, key: seq<byte>)
    ensures Find(a + b, key) == if Find(a, key).Some? then Find(a, key) else Find(b, key)
    decreases |a|
  {
    if |a| == 0 {
      assert a + b == b;
    } else {
      assert (a + b)[1..] == a[1..] + b;
      FindAppend(a[1..], b, key);
    }
  }

  lemma InsertedPrintable(r: Request)
    ensures PrintableHeaders(Inserted(r))
  {
    forall n: nat ensures NoCrlf(Decimal(n)) { DigitsNoCrlf(Decimal(n)); }
  }

  predicate NoCrlf(v: seq<byte>) {
    (forall i: nat :: i < |v| ==> !OccursAt(v, CRLF, i)) && (|v| > 0 ==> v[0] != SPACE)
  }

  lemma DigitsNoCrlf(v: seq<byte>)
    requires forall i :: 0 <= i < |v| ==> IsDigit(v[i])
    ensures NoCrlf(v)
  {
    forall i: nat | i < |v| ensures !OccursAt(v, CRLF, i) {
      if i + 2 <= |v| { assert v[i..i + 2][0] == v[i]; }
    }
  }

  /** With the inserted headers in front, body length and CSeq are found. */
  lemma Presets(f: Scanf, r: Request)
    requires Inverts(f) && Printable(f, r)
    ensures var all := Inserted(r) + r.headers;
      && BodyLength(f, all) == Some(|r.body|)
      && Find(all, CSEQ).Some? && f.u32(Find(all, CSEQ).value) == Some(r.cseq)
  {
    hide Decimal;
    FindAppend(Inserted(r), r.headers, CSEQ);
    FindAppend(Inserted(r), r.headers, CONTENT_LENGTH);
    assert CSEQ != CONTENT_LENGTH by { assert |CSEQ| != |CONTENT_LENGTH|; }
  }

  lemma PrintStart(r: Request, t: seq<byte>)
    requires PrintableLine(r.line)
    ensures SkipFrames(Print(r) + t) == Complete(0, ())
  {
    hide PrintHeaders, PrintVersion;
    assert (Print(r) + t)[0] == r.line.method_[0];
  }

  /** The line comes back and the rest is left to the header parser. */
  lemma PrintedLine(f: Scanf, r: Request, t: seq<byte>)
    requires Inverts(f) && Printable(f, r)
    ensures var s, a := Print(r) + t, |PrintLine(r.line)|;
      && SkipFrames(s) == Complete(0, ()) && LineParse(f, s) == Complete(a, r.line)
      && a <= |s| && s[a..] == PrintHeaders(Inserted(r) + r.headers) + CRLF + (r.body + t)
      && var b := |PrintHeaders(Inserted(r) + r.headers)| + 2;
         a + b + |r.body| == |Print(r)| && s[a + b..] == r.body + t
  {
    hide LineParse, PrintLine, PrintHeaders, Inserted, SkipFrames;
    PrintStart(r, t);
    PrintHeadersAppend(Inserted(r), r.headers);
    var tail := PrintHeaders(Inserted(r) + r.headers) + CRLF + (r.body + t);
    assert Print(r) + t == PrintLine(r.line) + tail;
    assert tail[|PrintHeaders(Inserted(r) + r.headers)| + 2..] == r.body + t;
    LineRoundTrip(f, r.line, tail);
  }

  /** A printed request with anything after it, as long as the last byte is not CR. */
  lemma PrintThenMore(f: Scanf, r: Request, t: seq<byte>)
    requires Inverts(f) && Printable(f, r) && !EndsWithCr(r.body + t)
    ensures RequestParse(f, Print(r) + t)
         == if HeadersFit(r) then Complete(|Print(r)|, r.(headers := Inserted(r) + r.headers))
            else Failure(HeaderMapOverflow)
  {
    hide LineParse, HeadersParse, PrintLine, PrintHeaders, Inserted, SkipFrames, Find, BodyLength;
    hide Print, PrintableHeader;
    var s, all := Print(r) + t, Inserted(r) + r.headers;
    PrintedLine(f, r, t);
    assert s[0..] == s;
    InsertedPrintable(r);
    var a, b := |PrintLine(r.line)|, |PrintHeaders(all)| + 2;
    HeadersRoundTrip(all, r.body + t, []);
    assert [] + all == all;
    if HeadersFit(r) {
      assert s[a + b..] == r.body + t;
      assert (r.body + t)[..|r.body|] == r.body;
      Presets(f, r);
    }
  }

  /** Parsing a printed request consumes the whole text and gives the request
      back, with the inserted headers in front, exactly when the body does not
      end in CR and the headers fit the map. */
  lemma PrintThenParse(f: Scanf, r: Request)
    requires Inverts(f) && Printable(f, r)
    ensures RequestParse(f, Print(r))
         == if EndsWithCr(r.body) then Partial
            else if HeadersFit(r) then Complete(|Print(r)|, r.(headers := Inserted(r) + r.headers))
            else Failure(HeaderMapOverflow)
  {
    hide LineParse, PrintLine, PrintHeaders, Inserted, SkipFrames, Print, HeaderParse, FinishParse;
    assert Print(r) + [] == Print(r) && r.body + [] == r.body;
    if EndsWithCr(r.body) {
      PrintedLine(f, r, []);
      assert Print(r)[0..] == Print(r);
    } else {
      PrintThenMore(f, r, []);
    }
  }

  /** Every proper prefix of a printed request asks for more, unless the request
      has 32 headers and is cut right after the last of them. */
  lemma PrintedPrefix(f: Scanf, r: Request, m: nat)
    requires Inverts(f) && Printable(f, r) && HeadersFit(r) && m < |Print(r)|
    ensures RequestParse(f, Print(r)[..m])
         == if |Inserted(r)| + |r.headers| == 32 && m + |r.body| + 2 == |Print(r)|
            then Failure(HeaderMapOverflow) else Partial
  {
    hide RequestParse, Print, Inserted, Printable;
    var longer := Print(r) + [LF];
    assert (r.body + [LF])[|r.body|] == LF;
    PrintThenMore(f, r, [LF]);
    PrefixIsPartial(f, longer, m);
    assert longer[..m] == Print(r)[..m];
  }

  /** CSeq goes in front unless it is there; after it Content-Length, unless it is
      there or there is no body. */
  lemma InsertedExactly(r: Request)
    ensures var cseq := Header(Text("CSeq"), Decimal(r.cseq));
      var length := Header(Text("Content-Length"), Decimal(|r.body|));
      var a, b := Find(r.headers, Text("CSeq")).None?, Find(r.headers, Text("Content-Length")).None? && r.body != [];
      Inserted(r) == if a && b then [cseq, length] else if a then [cseq] else if b then [length] else []
  {
    Texts();
    hide Text, Decimal, Find;
  }

  /** What follows a complete header block, in the order of the questions: is the
      length a number, is the body there, is there a CSeq, is it a number. */
  lemma Outcomes(f: Scanf, line: RequestLine, headers: seq<Header>, s: seq<byte>)
    ensures var r := FinishParse(f, line, headers, s);
      var length, cseq := Find(headers, Text("Content-Length")), Find(headers, Text("CSeq"));
      if length.Some? && f.size(length.value).None? then r == Failure(ContentLength(length.value))
      else
        var n := if length.None? then 0 else f.size(length.value).value;
        if |s| < n then r == Partial
        else if cseq.None? then r == Failure(MissingCSeq)
        else if f.u32(cseq.value).None? then r == Failure(InvalidCSeq(cseq.value))
        else r == Complete(n, Request(line, headers, s[..n], f.u32(cseq.value).value))
  {
    Texts();
    hide Text, Find;
  }

  // ------------------------------------------------------------- an example

  function ExampleLine(): RequestLine {
    RequestLine(Text("GET_PARAMETER"), Text("rtsp://camera/stream"), Version(1, 0))
  }

  function ExampleText(): seq<byte> {
    Text("GET_PARAMETER") + Text(" ") + Text("rtsp://camera/stream") + Text(" RTSP/1.0\r\n")
    + Text("CSeq: 312\r\n") + Text("Content-Length: 12\r\n") + Text("\r\n") + Text("packets_sent")
  }

  function ExampleHeaders(): seq<Header> {
    [Header(Text("CSeq"), Text("312")), Header(Text("Content-Length"), Text("12"))]
  }

  lemma Digits()
    ensures Decimal(0) == Text("0") && Decimal(1) == Text("1")
    ensures Decimal(12) == Text("12") && Decimal(312) == Text("312")
  {
    assert Decimal(12) == Decimal(1) + [50];
    assert Decimal(31) == Decimal(3) + [49];
    assert Decimal(312) == Decimal(31) + [50];
  }

  lemma ExampleLineText()
    ensures PrintLine(ExampleLine())
         == Text("GET_PARAMETER") + Text(" ") + Text("rtsp://camera/stream") + Text(" RTSP/1.0\r\n")
  {
    Texts();
    Digits();
    hide Decimal;
    assert Text(" RTSP/1.0\r\n") == Text(" ") + Text("RTSP/") + Text("1") + [46] + Text("0") + Text("\r\n");
    assert Text(" ") == [SPACE];
    hide Text;
  }

  lemma ExampleHeaderTexts()
    ensures PrintHeader(Header(Text("CSeq"), Text("312"))) == Text("CSeq: 312\r\n")
    ensures PrintHeader(Header(Text("Content-Length"), Text("12"))) == Text("Content-Length: 12\r\n")
  {
    Texts();
    assert Text("CSeq: 312\r\n") == Text("CSeq") + Text(": ") + Text("312") + Text("\r\n");
    assert Text("Content-Length: 12\r\n") == Text("Content-Length") + Text(": ") + Text("12") + Text("\r\n");
    hide Text;
  }

  lemma ExamplePrinted()
    ensures var r := Request(ExampleLine(), [], Text("packets_sent"), 312);
      Print(r) == ExampleText() && Inserted(r) == ExampleHeaders()
  {
    var r := Request(ExampleLine(), [], Text("packets_sent"), 312);
    Texts();
    Digits();
    ExampleLineText();
    ExampleHeaderTexts();
    hide Text, Decimal, PrintLine, PrintHeader, ExampleLine;
    var a, b := Header(Text("CSeq"), Text("312")), Header(Text("Content-Length"), Text("12"));
    assert Find([], CSEQ) == None && Find([], CONTENT_LENGTH) == None;
    assert Inserted(r) == [a, b];
    hide Inserted, Find;
    TwoHeaders(a, b);
    assert PrintHeaders([]) == [];
    hide PrintHeaders;
  }

  lemma TwoHeaders(a: Header, b: Header)
    ensures PrintHeaders([a, b]) == PrintHeader(a) + PrintHeader(b)
  {
    hide PrintHeader;
    assert [a, b][1..] == [b] && [b][1..] == [];
    assert PrintHeaders([b]) == PrintHeader(b) + [];
    assert PrintHeaders([a, b]) == PrintHeader(a) + PrintHeaders([b]);
  }

  lemma ExamplePrintable(f: Scanf)
    ensures Printable(f, Request(ExampleLine(), [], Text("packets_sent"), 312))
  {
    var verb, uri := Text("GET_PARAMETER"), Text("rtsp://camera/stream");
    assert forall i :: 0 <= i < |verb| ==> IdentByte(verb[i]);
    assert forall i :: 0 <= i < |uri| ==> uri[i] != 32;
    assert Find([], CSEQ) == None && Find([], CONTENT_LENGTH) == None;
  }

  /** A request as it stands in a stream is read for what it says. */
  lemma ExampleParses(f: Scanf)
    requires Inverts(f)
    ensures RequestParse(f, ExampleText())
         == Complete(|ExampleText()|, Request(ExampleLine(), ExampleHeaders(), Text("packets_sent"), 312))
  {
    var r := Request(ExampleLine(), [], Text("packets_sent"), 312);
    assert Text("packets_sent")[11] == 't' as int;
    assert !EndsWithCr(r.body);
    hide Text, Print, Inserted, ExampleLine, ExampleHeaders, ExampleText, Printable, RequestParse, EndsWithCr;
    ExamplePrinted();
    ExamplePrintable(f);
    ExampleFits();
    PrintThenParse(f, r);
    assert ExampleHeaders() + [] == ExampleHeaders();
  }

  lemma ExampleFits()
    ensures |ExampleHeaders()| == 2
  {
  }
}
