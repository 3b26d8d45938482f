/** The parser and printer of src/types as they run: slices that are advanced,
    an array of headers that fills up, a request filled in field by field. */
module RtspParser {
  import opened Bytes
  import opened Parsing
  import opened Rtsp
  import opened RtspPrinter

  /** The answer without the parsed value. */
  function Status<T>(r: Parse<T>): Parse<()> {
    match r
    case Complete(n, _) => Complete(n, ())
    case Partial => Partial
    case Failure(e) => Failure(e)
  }

  /** The headers stored by the time header parsing stops, for whatever reason. */
  function HeadersSeen(s: seq<byte>, have: seq<Header>): seq<Header>
    decreases |s|
  {
    if EndsWithCr(s) || StartsWithCrlf(s) || |have| == CAPACITY then have
    else
      match HeaderParse(s)
      case Complete(n, h) => HeadersSeen(s[n..], have + [h])
      case _ => have
  }

  lemma {:induction false} SeenIsParsed(s: seq<byte>, have: seq<Header>)
    requires HeadersParse(s, have).Complete?
    ensures HeadersParse(s, have).value == HeadersSeen(s, have)
    decreases |s|
  {
    hide HeaderParse;
    if !StartsWithCrlf(s) {
      SeenIsParsed(s[HeaderParse(s).consumed..], have + [HeaderParse(s).value]);
    }
  }

  lemma HeadersUnfold(s: seq<byte>, have: seq<Header>)
    requires !EndsWithCr(s) && !StartsWithCrlf(s) && |have| != CAPACITY && HeaderParse(s).Complete?
    ensures var n, h := HeaderParse(s).consumed, HeaderParse(s).value;
      && HeadersParse(s, have) == HeadersParse(s[n..], have + [h]).After(n)
      && HeadersSeen(s, have) == HeadersSeen(s[n..], have + [h])
  {
    hide HeaderParse;
  }

  /** One more header line, `offset` bytes into the header block. */
  lemma HeadersNext(input: seq<byte>, offset: nat, have: seq<Header>)
    requires offset <= |input|
    requires var rest := input[offset..];
      && !EndsWithCr(rest) && !StartsWithCrlf(rest) && |have| != CAPACITY && HeaderParse(rest).Complete?
    ensures var rest, h := input[offset..], HeaderParse(input[offset..]);
      && HeadersParse(rest, have).After(offset)
         == HeadersParse(input[offset + h.consumed..], have + [h.value]).After(offset + h.consumed)
      && HeadersSeen(rest, have) == HeadersSeen(input[offset + h.consumed..], have + [h.value])
  {
    hide HeaderParse;
    var rest, h := input[offset..], HeaderParse(input[offset..]);
    HeadersUnfold(rest, have);
    hide HeadersParse, HeadersSeen, EndsWithCr, StartsWithCrlf;
    assert rest[h.consumed..] == input[offset + h.consumed..];
  }

  /** The header block ends here, well or badly. */
  lemma HeadersStop(rest: seq<byte>, have: seq<Header>)
    requires EndsWithCr(rest) || StartsWithCrlf(rest) || |have| == CAPACITY || !HeaderParse(rest).Complete?
    ensures HeadersSeen(rest, have) == have
    ensures HeadersParse(rest, have)
         == (if EndsWithCr(rest) then Partial else if StartsWithCrlf(rest) then Complete(2, have)
             else if |have| == CAPACITY then Failure(HeaderMapOverflow) else HeaderParse(rest).PropagateFailure())
  {
    hide HeaderParse;
  }

  // ------------------------------------------------------------------- tokens

  method ParseToken(input: seq<byte>, matcher: byte -> bool, kind: Kind) returns (r: Parse<()>)
    ensures r == MatchToken(matcher, kind, input)
  {
    if |input| == 0 { return Partial; }
    if !matcher(input[0]) { return Failure(TypeMismatch(kind, input)); }
    r := MatchUntil(input, matcher);
  }

  method ParseMethod(input: seq<byte>) returns (r: Parse<seq<byte>>)
    ensures r == MethodParse(input)
  {
    hide MatchWhile, MatchToken;
    var a := MatchUntil(input, IsSpace);
    if !a.Complete? { return a.PropagateFailure(); }
    var b := ParseToken(input[a.consumed..], IsIdent, Ident);
    if !b.Complete? { return b.PropagateFailure(); }
    return Complete(a.consumed + b.consumed, input[a.consumed..a.consumed + b.consumed]);
  }

  method ParseUri(input: seq<byte>) returns (r: Parse<seq<byte>>)
    ensures r == UriParse(input)
  {
    hide MatchWhile;
    var a := MatchUntil(input, IsSpace);
    if !a.Complete? { return a.PropagateFailure(); }
    var b := MatchUntil(input[a.consumed..], IsNonSpace);
    if !b.Complete? { return b.PropagateFailure(); }
    return Complete(a.consumed + b.consumed, input[a.consumed..a.consumed + b.consumed]);
  }

  method ParseVersionPrefix(input: seq<byte>) returns (r: Parse<()>)
    ensures r == VersionPrefix(input)
  {
    hide MatchWhile, MatchStr;
    var a := MatchUntil(input, IsSpace);
    if !a.Complete? { return a.PropagateFailure(); }
    var b := MatchStr(input[a.consumed..], RTSP_SLASH);
    if !b.Complete? { return b.PropagateFailure(); }
    return Complete(a.consumed + b.consumed, ());
  }

  method ParseVersionDigits(input: seq<byte>) returns (r: Parse<(seq<byte>, seq<byte>)>)
    ensures r == VersionDigits(input)
  {
    hide MatchWhile, MatchToken;
    var a := ParseToken(input, IsDigit, Int);
    if !a.Complete? { return a.PropagateFailure(); }
    var b := MatchUntil(input[a.consumed..], IsDot);
    if !b.Complete? { return b.PropagateFailure(); }
    var n := a.consumed + b.consumed;
    var c := ParseToken(input[n..], IsDigit, Int);
    if !c.Complete? { return c.PropagateFailure(); }
    return Complete(n + c.consumed, (input[..a.consumed], input[n..n + c.consumed]));
  }

  method ParseVersion(f: Scanf, input: seq<byte>) returns (r: Parse<Version>)
    ensures r == VersionParse(f, input)
  {
    hide VersionPrefix, VersionDigits;
    var a := ParseVersionPrefix(input);
    if !a.Complete? { return a.PropagateFailure(); }
    var b := ParseVersionDigits(input[a.consumed..]);
    if !b.Complete? { return b.PropagateFailure(); }
    var (major, minor) := b.value;
    if f.u8(major).None? { return Failure(TypeMismatch(Int, major)); }
    if f.u8(minor).None? { return Failure(TypeMismatch(Int, minor)); }
    return Complete(a.consumed + b.consumed, Version(f.u8(major).value, f.u8(minor).value));
  }

  method ParseLine(f: Scanf, input: seq<byte>) returns (r: Parse<RequestLine>)
    ensures r == LineParse(f, input)
  {
    hide MethodParse, UriParse, VersionParse, MatchStr;
    var a := ParseMethod(input);
    if !a.Complete? { return a.PropagateFailure(); }
    var rest := input[a.consumed..];
    var b := ParseUri(rest);
    if !b.Complete? { return b.PropagateFailure(); }
    var n := a.consumed + b.consumed;
    assert rest[b.consumed..] == input[n..];
    var c := ParseVersion(f, input[n..]);
    if !c.Complete? { return c.PropagateFailure(); }
    n := n + c.consumed;
    var d := MatchStr(input[n..], CRLF);
    if !d.Complete? { return d.PropagateFailure(); }
    return Complete(n + d.consumed, RequestLine(a.value, b.value, c.value));
  }

  method ParseName(input: seq<byte>) returns (r: Parse<seq<byte>>)
    ensures r == NameParse(input)
  {
    hide MatchWhile, MatchToken;
    var a := MatchUntil(input, IsSpace);
    if !a.Complete? { return a.PropagateFailure(); }
    var b := ParseToken(input[a.consumed..], IsNameChar, HeaderName);
    if !b.Complete? { return b.PropagateFailure(); }
    return Complete(a.consumed + b.consumed, input[a.consumed..a.consumed + b.consumed]);
  }

  method ParseSeparator(input: seq<byte>) returns (r: Parse<()>)
    ensures r == SeparatorParse(input)
  {
    hide MatchWhile;
    var a := MatchUntil(input, IsSpace);
    if !a.Complete? { return a.PropagateFailure(); }
    var b := MatchUntil(input[a.consumed..], IsColon);
    if !b.Complete? { return b.PropagateFailure(); }
    var c := MatchUntil(input[a.consumed + b.consumed..], IsSpace);
    if !c.Complete? { return c.PropagateFailure(); }
    return Complete(a.consumed + b.consumed + c.consumed, ());
  }

  method ParseHeader(input: seq<byte>) returns (r: Parse<Header>)
    ensures r == HeaderParse(input)
  {
    hide NameParse, SeparatorParse, MatchUntilStr;
    var a := ParseName(input);
    if !a.Complete? { return a.PropagateFailure(); }
    var b := ParseSeparator(input[a.consumed..]);
    if !b.Complete? { return b.PropagateFailure(); }
    var n := a.consumed + b.consumed;
    var c := ScanForStr(input[n..], CRLF);
    if !c.Complete? { return c.PropagateFailure(); }
    return Complete(n + c.consumed, Header(a.value, input[n..n + c.consumed - 2]));
  }

  // --------------------------------------------------------------- header map

  class HeaderMap {
    const headers: array<Header>
    var len: nat

    ghost predicate Valid()
      reads this
    {
      headers.Length == CAPACITY && len <= CAPACITY
    }

    function Contents(): seq<Header>
      requires Valid()
      reads this, headers
    {
      headers[..len]
    }

    constructor ()
      ensures Valid() && fresh(headers) && Contents() == []
    {
      headers := new Header[CAPACITY](i => Header([], []));
      len := 0;
    }

    method Lookup(key: seq<byte>) returns (value: Option<seq<byte>>)
      requires Valid()
      ensures value == Find(Contents(), key)
    {
      for i := 0 to len
        invariant Find(Contents(), key) == Find(Contents()[i..], key)
      {
        if headers[i].key == key { return Some(headers[i].value); }
        assert Contents()[i..][1..] == Contents()[i + 1..];
      }
      value := None;
    }

    method Append(h: Header)
      requires Valid() && len < CAPACITY
      modifies this`len, headers
      ensures Valid() && Contents() == old(Contents()) + [h]
    {
      headers[len] := h;
      len := len + 1;
    }

    /** Replaces the contents by the header lines at the front of `input`. */
    method Parse(input: seq<byte>) returns (r: Parse<()>)
      requires Valid()
      modifies this`len, headers
      ensures Valid()
      ensures r == Status(HeadersParse(input, []))
      ensures Contents() == HeadersSeen(input, [])
    {
      hide HeaderParse, HeadersParse, HeadersSeen, EndsWithCr, StartsWithCrlf;
      var offset := 0;
      len := 0;
      while true
        invariant Valid() && offset <= |input|
        invariant HeadersParse(input, []) == HeadersParse(input[offset..], Contents()).After(offset)
        invariant HeadersSeen(input, []) == HeadersSeen(input[offset..], Contents())
        decreases |input| - offset
      {
        var rest := input[offset..];
        if EndsWithCr(rest) { HeadersStop(rest, Contents()); return Partial; }
        if StartsWithCrlf(rest) { HeadersStop(rest, Contents()); return Complete(offset + 2, ()); }
        if len == CAPACITY { HeadersStop(rest, Contents()); return Failure(HeaderMapOverflow); }
        var h := ParseHeader(rest);
        if !h.Complete? { HeadersStop(rest, Contents()); return h.PropagateFailure(); }
        HeadersNext(input, offset, Contents());
        Append(h.value);
        offset := offset + h.consumed;
      }
    }
  }

  lemma SkipUnfold(s: seq<byte>)
    ensures SkipFrames(s)
         == if |s| < 4 then Partial else if s[0] != DOLLAR then Complete(0, ())
            else if |s| < FrameLength(s) then Partial else SkipFrames(s[FrameLength(s)..]).After(FrameLength(s))
  {
    hide FrameLength;
  }

  /** Steps over the interleaved frames in front of a request. */
  method SkipInterleaved(input: seq<byte>) returns (r: Parse<()>)
    ensures r == SkipFrames(input)
  {
    hide SkipFrames;
    var offset := 0;
    while true
      invariant offset <= |input|
      invariant SkipFrames(input) == SkipFrames(input[offset..]).After(offset)
      decreases |input| - offset
    {
      var rest := input[offset..];
      SkipUnfold(rest);
      if |rest| < 4 { return Partial; }
      if rest[0] != DOLLAR { return Complete(offset, ()); }
      var payloadLen := Be16(rest, 2);
      if |rest| - 4 < payloadLen { return Partial; }
      assert rest[FrameLength(rest)..] == input[offset + 4 + payloadLen..];
      offset := offset + 4 + payloadLen;
    }
  }

  // ------------------------------------------------------------------ request

  class RequestBox {
    var line: RequestLine
    const headerMap: HeaderMap
    var body: seq<byte>
    var cseq: u32

    ghost predicate Valid()
      reads this, headerMap
    {
      headerMap.Valid()
    }

    function Value(): Request
      requires Valid()
      reads this, headerMap, headerMap.headers
    {
      Request(line, headerMap.Contents(), body, cseq)
    }

    constructor ()
      ensures Valid() && fresh(headerMap) && fresh(headerMap.headers)
      ensures Value() == Request(RequestLine([], [], Version(0, 0)), [], [], 0)
    {
      line, body, cseq := RequestLine([], [], Version(0, 0)), [], 0;
      headerMap := new HeaderMap();
    }

    /** Parses the request at the front of `input` into this object. */
    method Parse(f: Scanf, input: seq<byte>) returns (r: Parse<()>)
      requires Valid()
      modifies this, headerMap`len, headerMap.headers
      ensures Valid()
      ensures r == Status(RequestParse(f, input))
      ensures r.Complete? ==> Value() == RequestParse(f, input).value
    {
      hide MessageParse, SkipFrames;
      var a := SkipInterleaved(input);
      if !a.Complete? { return a.PropagateFailure(); }
      var status := ParseMessage(f, input[a.consumed..]);
      r := status.After(a.consumed);
    }

    method ParseMessage(f: Scanf, input: seq<byte>) returns (r: Parse<()>)
      requires Valid()
      modifies this, headerMap`len, headerMap.headers
      ensures Valid()
      ensures r == Status(MessageParse(f, input))
      ensures r.Complete? ==> Value() == MessageParse(f, input).value
    {
      hide LineParse, HeadersParse, HeadersSeen;
      var a := ParseLine(f, input);
      if !a.Complete? { return a.PropagateFailure(); }
      line := a.value;
      var b := headerMap.Parse(input[a.consumed..]);
      if !b.Complete? { return b.PropagateFailure(); }
      SeenIsParsed(input[a.consumed..], []);
      var n := a.consumed + b.consumed;
      var status := ParseRest(f, input[n..]);
      r := status.After(n);
    }

    /** Body and CSeq, from the headers already stored. */
    method ParseRest(f: Scanf, input: seq<byte>) returns (r: Parse<()>)
      requires Valid()
      modifies this`body, this`cseq
      ensures Valid()
      ensures r == Status(FinishParse(f, line, headerMap.Contents(), input))
      ensures r.Complete? ==> Value() == FinishParse(f, line, headerMap.Contents(), input).value
    {
      hide Find;
      var contentLength := headerMap.Lookup(CONTENT_LENGTH);
      var length := 0;
      if contentLength.Some? {
        if f.size(contentLength.value).None? { return Failure(ContentLength(contentLength.value)); }
        length := f.size(contentLength.value).value;
      }
      if |input| < length { return Partial; }
      body := if length == 0 then [] else input[..length];
      var value := headerMap.Lookup(CSEQ);
      if value.None? { return Failure(MissingCSeq); }
      if f.u32(value.value).None? { return Failure(InvalidCSeq(value.value)); }
      cseq := f.u32(value.value).value;
      return Complete(length, ());
    }

    /** Writes the request to `w`, one printer after the other. */
    method Serialize(w: Writer) returns (result: nat)
      requires Valid()
      modifies w
      ensures var (text, next) := WriteGroups(w.fails, old(w.writes), Groups(Value()));
        w.contents == old(w.contents) + text && w.writes == next && result == |text|
      ensures result <= |Print(Value())|
      ensures result == |Print(Value())| <==> AllWell(w.fails, old(w.writes), w.writes)
      ensures AllWell(w.fails, old(w.writes), w.writes) ==> w.contents == old(w.contents) + Print(Value())
    {
      hide WriteGroup, WriteGroups, LinePieces, HeaderGroups, Inserted, Print, BodyGroups;
      ghost var k, inserted := w.writes, HeaderGroups(Inserted(Value()));
      var a := w.WriteSlices(LinePieces(line));
      OneWritten(w.fails, k, LinePieces(line));
      var b := SerializeInserted(w);
      WriteGroupsAppend(w.fails, k, [LinePieces(line)], inserted);
      var c := SerializeHeaders(w);
      WriteGroupsAppend(w.fails, k, [LinePieces(line)] + inserted, HeaderGroups(headerMap.Contents()) + [[CRLF]]);
      var d := SerializeBody(w);
      ghost var front := [LinePieces(line)] + inserted + (HeaderGroups(headerMap.Contents()) + [[CRLF]]);
      WriteGroupsAppend(w.fails, k, front, BodyGroups(body));
      assert Groups(Value()) == front + BodyGroups(body);
      result := a + b + c + d;
      PrintedExactly(w.fails, k, Value());
    }

    method SerializeBody(w: Writer) returns (result: nat)
      modifies w
      ensures var (text, next) := WriteGroups(w.fails, old(w.writes), BodyGroups(body));
        w.contents == old(w.contents) + text && w.writes == next && result == |text|
    {
      result := 0;
      if |body| > 0 {
        OneWritten(w.fails, w.writes, [body]);
        result := w.WriteSlices([body]);
      }
    }

    /** CSeq unless present; Content-Length unless present or there is no body. */
    method SerializeInserted(w: Writer) returns (result: nat)
      requires Valid()
      modifies w
      ensures var (text, next) := WriteGroups(w.fails, old(w.writes), HeaderGroups(Inserted(Value())));
        w.contents == old(w.contents) + text && w.writes == next && result == |text|
    {
      hide Find, WriteGroups, HeaderGroups, Decimal;
      result := 0;
      ghost var k, before, done := w.writes, w.contents, [];
      NothingWritten(w.fails, k);
      var hasCSeq := headerMap.Lookup(CSEQ);
      if hasCSeq.None? {
        var h := Header(CSEQ, Decimal(cseq));
        result := AddHeader(w, h, result, k, before, done);
        done := done + [h];
      }
      var hasLength := headerMap.Lookup(CONTENT_LENGTH);
      if hasLength.None? && |body| > 0 {
        var h := Header(CONTENT_LENGTH, Decimal(|body|));
        result := AddHeader(w, h, result, k, before, done);
        done := done + [h];
      }
      assert done == Inserted(Value());
    }

    method SerializeHeaders(w: Writer) returns (result: nat)
      requires Valid()
      modifies w
      ensures var (text, next) := WriteGroups(w.fails, old(w.writes), HeaderGroups(headerMap.Contents()) + [[CRLF]]);
        w.contents == old(w.contents) + text && w.writes == next && result == |text|
    {
      hide WriteGroup, WriteGroups, HeaderGroups;
      result := 0;
      ghost var k, before, hs := w.writes, w.contents, headerMap.Contents();
      NothingWritten(w.fails, k);
      for i := 0 to headerMap.len
        invariant Wrote(w, k, before, hs[..i], result)
      {
        result := AddHeader(w, headerMap.headers[i], result, k, before, hs[..i]);
        assert hs[..i] + [hs[i]] == hs[..i + 1];
      }
      assert hs[..headerMap.len] == hs;
      WriteGroupsAppend(w.fails, k, HeaderGroups(hs), [[CRLF]]);
      OneWritten(w.fails, w.writes, [CRLF]);
      var n := w.WriteSlices([CRLF]);
      result := result + n;
    }
  }

  /** Since write `k`, when the writer held `before`, the headers `hs` were
      written, as far as they got through. */
  ghost predicate Wrote(w: Writer, k: nat, before: seq<byte>, hs: seq<Header>, result: nat)
    reads w
  {
    var (text, next) := WriteGroups(w.fails, k, HeaderGroups(hs));
    w.contents == before + text && w.writes == next && result == |text|
  }

  method AddHeader(w: Writer, h: Header, soFar: nat, ghost k: nat, ghost before: seq<byte>, ghost hs: seq<Header>)
    returns (result: nat)
    requires Wrote(w, k, before, hs, soFar)
    modifies w
    ensures Wrote(w, k, before, hs + [h], result)
  {
    hide WriteGroup, WriteGroups, HeaderGroups, HeaderPieces;
    NextHeader(w.fails, k, hs, h);
    var n := w.WriteSlices(HeaderPieces(h));
    result := soFar + n;
  }

  lemma NothingWritten(fails: nat -> bool, k: nat)
    ensures WriteGroups(fails, k, HeaderGroups([])) == ([], k)
  {
  }

  lemma NextHeader(fails: nat -> bool, k: nat, hs: seq<Header>, h: Header)
    ensures var (text, next) := WriteGroups(fails, k, HeaderGroups(hs));
      var (more, next') := WriteGroup(fails, next, HeaderPieces(h));
      WriteGroups(fails, k, HeaderGroups(hs + [h])) == (text + more, next')
  {
    hide WriteGroup, WriteGroups, HeaderPieces;
    assert HeaderGroups(hs + [h]) == HeaderGroups(hs) + [HeaderPieces(h)];
    WriteGroupsAppend(fails, k, HeaderGroups(hs), [HeaderPieces(h)]);
    OneWritten(fails, WriteGroups(fails, k, HeaderGroups(hs)).1, HeaderPieces(h));
  }
}
