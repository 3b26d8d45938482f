/** Parsing a request that arrives in pieces: what a shorter view of a stream
    says next to a longer one. */
module RtspIncremental {
  import opened Bytes
  import opened Parsing
  import opened Rtsp

  lemma Drop(s: seq<byte>, t: seq<byte>, n: nat)
    requires n <= |s|
    ensures (s + t)[n..] == s[n..] + t
  {
  }

  lemma Keep(s: seq<byte>, t: seq<byte>, i: nat, j: nat)
    requires i <= j <= |s|
    ensures (s + t)[i..j] == s[i..j]
  {
  }

  lemma MethodAgrees(s: seq<byte>, t: seq<byte>)
    ensures Agree(MethodParse(s), MethodParse(s + t), |s|, 1)
  {
    hide MatchWhile, MatchToken;
    MatchWhileAgrees(IsSpace, s, t);
    var r := MatchWhile(IsSpace, s);
    if r.Complete? {
      Drop(s, t, r.consumed);
      MatchTokenAgrees(IsIdent, Ident, s[r.consumed..], t);
      var b := MatchToken(IsIdent, Ident, s[r.consumed..]);
      if b.Complete? { Keep(s, t, r.consumed, r.consumed + b.consumed); }
    }
  }

  lemma UriAgrees(s: seq<byte>, t: seq<byte>)
    ensures Agree(UriParse(s), UriParse(s + t), |s|, 1)
  {
    hide MatchWhile;
    MatchWhileAgrees(IsSpace, s, t);
    var r := MatchWhile(IsSpace, s);
    if r.Complete? {
      Drop(s, t, r.consumed);
      MatchWhileAgrees(IsNonSpace, s[r.consumed..], t);
      var b := MatchWhile(IsNonSpace, s[r.consumed..]);
      if b.Complete? { Keep(s, t, r.consumed, r.consumed + b.consumed); }
    }
  }

  lemma VersionPrefixAgrees(s: seq<byte>, t: seq<byte>)
    ensures Agree(VersionPrefix(s), VersionPrefix(s + t), |s|, 0)
  {
    hide MatchWhile, MatchStr;
    MatchWhileAgrees(IsSpace, s, t);
    var r := MatchWhile(IsSpace, s);
    if r.Complete? {
      Drop(s, t, r.consumed);
      MatchStrAgrees(s[r.consumed..], t, RTSP_SLASH);
    }
  }

  lemma VersionDigitsAgrees(s: seq<byte>, t: seq<byte>)
    ensures Agree(VersionDigits(s), VersionDigits(s + t), |s|, 1)
  {
    hide MatchWhile, MatchToken;
    MatchTokenAgrees(IsDigit, Int, s, t);
    var a := MatchToken(IsDigit, Int, s);
    if a.Complete? {
      Drop(s, t, a.consumed);
      MatchWhileAgrees(IsDot, s[a.consumed..], t);
      var b := MatchWhile(IsDot, s[a.consumed..]);
      if b.Complete? {
        Drop(s, t, a.consumed + b.consumed);
        MatchTokenAgrees(IsDigit, Int, s[a.consumed + b.consumed..], t);
        var c := MatchToken(IsDigit, Int, s[a.consumed + b.consumed..]);
        Keep(s, t, 0, a.consumed);
        if c.Complete? { Keep(s, t, a.consumed + b.consumed, a.consumed + b.consumed + c.consumed); }
      }
    }
  }

  lemma VersionAgrees(f: Scanf, s: seq<byte>, t: seq<byte>)
    ensures Agree(VersionParse(f, s), VersionParse(f, s + t), |s|, 1)
  {
    hide VersionPrefix, VersionDigits;
    VersionPrefixAgrees(s, t);
    var r := VersionPrefix(s);
    if r.Complete? {
      Drop(s, t, r.consumed);
      VersionDigitsAgrees(s[r.consumed..], t);
    }
  }

  lemma LineAgrees(f: Scanf, s: seq<byte>, t: seq<byte>)
    ensures Agree(LineParse(f, s), LineParse(f, s + t), |s|, 0)
  {
    hide MethodParse, UriParse, VersionParse, MatchStr;
    MethodAgrees(s, t);
    var a := MethodParse(s);
    if a.Complete? {
      Drop(s, t, a.consumed);
      UriAgrees(s[a.consumed..], t);
      var b := UriParse(s[a.consumed..]);
      if b.Complete? {
        var ab := a.consumed + b.consumed;
        Drop(s, t, ab);
        VersionAgrees(f, s[ab..], t);
        var c := VersionParse(f, s[ab..]);
        if c.Complete? {
          Drop(s, t, ab + c.consumed);
          MatchStrAgrees(s[ab + c.consumed..], t, CRLF);
        }
      }
    }
  }

  lemma NameAgrees(s: seq<byte>, t: seq<byte>)
    ensures Agree(NameParse(s), NameParse(s + t), |s|, 1)
  {
    hide MatchWhile, MatchToken;
    MatchWhileAgrees(IsSpace, s, t);
    var a := MatchWhile(IsSpace, s);
    if a.Complete? {
      Drop(s, t, a.consumed);
      MatchTokenAgrees(IsNameChar, HeaderName, s[a.consumed..], t);
      var b := MatchToken(IsNameChar, HeaderName, s[a.consumed..]);
      if b.Complete? { Keep(s, t, a.consumed, a.consumed + b.consumed); }
    }
  }

  lemma SeparatorAgrees(s: seq<byte>, t: seq<byte>)
    ensures Agree(SeparatorParse(s), SeparatorParse(s + t), |s|, 1)
  {
    hide MatchWhile;
    MatchWhileAgrees(IsSpace, s, t);
    var a := MatchWhile(IsSpace, s);
    if a.Complete? {
      Drop(s, t, a.consumed);
      MatchWhileAgrees(IsColon, s[a.consumed..], t);
      var b := MatchWhile(IsColon, s[a.consumed..]);
      if b.Complete? {
        Drop(s, t, a.consumed + b.consumed);
        MatchWhileAgrees(IsSpace, s[a.consumed + b.consumed..], t);
      }
    }
  }

  lemma KeyAgrees(s: seq<byte>, t: seq<byte>)
    ensures Agree(KeyParse(s), KeyParse(s + t), |s|, 1)
  {
    hide NameParse, SeparatorParse;
    NameAgrees(s, t);
    var a := NameParse(s);
    if a.Complete? {
      Drop(s, t, a.consumed);
      SeparatorAgrees(s[a.consumed..], t);
    }
  }

  lemma HeaderAgrees(s: seq<byte>, t: seq<byte>)
    ensures Agree(HeaderParse(s), HeaderParse(s + t), |s|, 0)
  {
    hide KeyParse, MatchUntilStr;
    KeyAgrees(s, t);
    var a := KeyParse(s);
    if a.Complete? {
      Drop(s, t, a.consumed);
      MatchUntilStrAgrees(s[a.consumed..], t, CRLF);
      var b := MatchUntilStr(s[a.consumed..], CRLF);
      if b.Complete? { Keep(s, t, a.consumed, a.consumed + b.consumed - 2); }
    }
  }

  lemma HeaderOfNothing()
    ensures HeaderParse([]) == Partial
  {
  }

  /** A complete header block stays the same whatever follows, unless the last
      byte that follows is CR: then the source waits for more. */
  lemma {:induction false} HeadersExtend(s: seq<byte>, t: seq<byte>, have: seq<Header>)
    requires HeadersParse(s, have).Complete? && |t| > 0
    ensures HeadersParse(s + t, have) == if EndsWithCr(t) then Partial else HeadersParse(s, have)
    decreases |s|
  {
    hide HeaderParse;
    assert EndsWithCr(s + t) == EndsWithCr(t);
    if !EndsWithCr(t) && !StartsWithCrlf(s) {
      HeaderOfNothing();
      HeaderAgrees(s, t);
      var n := HeaderParse(s).consumed;
      Drop(s, t, n);
      HeadersExtend(s[n..], t, have + [HeaderParse(s).value]);
    }
  }

  /** What a cut of a complete header block says.  Only one cut of one kind of
      block fails: right after the 32nd header line. */
  function CutHeaders(full: Parse<seq<Header>>, s: seq<byte>): Parse<seq<Header>>
    requires full.Complete?
  {
    if |s| < full.consumed then
      if |full.value| == 32 && |s| + 2 == full.consumed then Failure(HeaderMapOverflow) else Partial
    else if EndsWithCr(s) then Partial
    else full
  }

  lemma CutAtEnd(s: seq<byte>, t: seq<byte>, have: seq<Header>)
    requires StartsWithCrlf(s + t) && HeadersParse(s + t, have).Complete?
    ensures HeadersParse(s + t, have) == Complete(2, have)
    ensures HeadersParse(s, have) == CutHeaders(Complete(2, have), s)
  {
    if |s| == 0 { HeaderOfNothing(); }
  }

  /** The result for one more header line in front. */
  lemma CutAfterLine(s: seq<byte>, n: nat, rest: Parse<seq<Header>>)
    requires rest.Complete? && 0 < n <= |s| && s[n - 1] == LF
    ensures CutHeaders(rest.After(n), s) == CutHeaders(rest, s[n..]).After(n)
  {
    assert EndsWithCr(s) == EndsWithCr(s[n..]);
  }

  lemma {:induction false} HeadersCut(s: seq<byte>, t: seq<byte>, have: seq<Header>)
    requires HeadersParse(s + t, have).Complete?
    ensures HeadersParse(s, have) == CutHeaders(HeadersParse(s + t, have), s)
    decreases |s + t|
  {
    hide HeaderParse, CutHeaders, HeadersParse, EndsWithCr;
    if StartsWithCrlf(s + t) {
      CutAtEnd(s, t, have);
    } else {
      HeadersShape(s + t, have);
      var n, h := HeaderParse(s + t).consumed, HeaderParse(s + t).value;
      HeaderAgrees(s, t);
      if n <= |s| {
        Drop(s, t, n);
        HeadersCut(s[n..], t, have + [h]);
        LineEndsInLf(s);
        CutAfterLine(s, n, HeadersParse((s + t)[n..], have + [h]));
        HeadersPeel(s, have);
      } else {
        HeadersWait(s, have);
        CutEarly(s, HeadersParse(s + t, have));
      }
    }
  }

  /** A complete header block that does not end here starts with a header line. */
  lemma HeadersShape(s: seq<byte>, have: seq<Header>)
    requires HeadersParse(s, have).Complete? && !StartsWithCrlf(s)
    ensures |have| != CAPACITY && HeaderParse(s).Complete?
    ensures var n, h := HeaderParse(s).consumed, HeaderParse(s).value;
      HeadersParse(s, have) == HeadersParse(s[n..], have + [h]).After(n)
  {
    hide HeaderParse;
  }

  lemma HeadersPeel(s: seq<byte>, have: seq<Header>)
    requires HeaderParse(s).Complete? && !StartsWithCrlf(s) && |have| != CAPACITY
    ensures var n, h := HeaderParse(s).consumed, HeaderParse(s).value;
      HeadersParse(s, have) == HeadersParse(s[n..], have + [h]).After(n)
  {
    LineEndsInLf(s);
    hide HeaderParse;
    assert EndsWithCr(s) == EndsWithCr(s[HeaderParse(s).consumed..]);
  }

  lemma HeadersWait(s: seq<byte>, have: seq<Header>)
    requires HeaderParse(s) == Partial && !StartsWithCrlf(s) && |have| != CAPACITY
    ensures HeadersParse(s, have) == Partial
  {
    hide HeaderParse;
  }

  lemma CutEarly(s: seq<byte>, full: Parse<seq<Header>>)
    requires full.Complete? && |s| + 2 < full.consumed
    ensures CutHeaders(full, s) == Partial
  {
  }

  /** A header line that was consumed ends in LF. */
  lemma LineEndsInLf(s: seq<byte>)
    requires HeaderParse(s).Complete?
    ensures s[HeaderParse(s).consumed - 1] == LF
  {
    hide KeyParse, MatchUntilStr;
    var a := KeyParse(s).consumed;
    var b := MatchUntilStr(s[a..], CRLF).consumed;
    MatchUntilStrFinds(s[a..], CRLF);
    assert s[a..][b - 2..b][1] == LF;
  }

  // ----------------------------------------------------------- whole requests

  lemma FinishAgrees(f: Scanf, line: RequestLine, headers: seq<Header>, s: seq<byte>, t: seq<byte>)
    ensures Agree(FinishParse(f, line, headers, s), FinishParse(f, line, headers, s + t), |s|, 0)
  {
    var n := BodyLength(f, headers);
    if n.Some? && n.value <= |s| { Keep(s, t, 0, n.value); }
  }

  lemma {:induction false} SkipAgrees(s: seq<byte>, t: seq<byte>)
    ensures Agree(SkipFrames(s), SkipFrames(s + t), |s|, 4)
    decreases |s|
  {
    if |s| >= 4 && s[0] == DOLLAR && FrameLength(s) <= |s| {
      Drop(s, t, FrameLength(s));
      SkipAgrees(s[FrameLength(s)..], t);
    }
  }

  lemma MessageExtend(f: Scanf, s: seq<byte>, t: seq<byte>)
    requires MessageParse(f, s).Complete? && |t| > 0
    ensures MessageParse(f, s + t) == if EndsWithCr(t) then Partial else MessageParse(f, s)
  {
    hide LineParse, HeadersParse, FinishParse;
    LineAgrees(f, s, t);
    var a, line := LineParse(f, s).consumed, LineParse(f, s).value;
    Drop(s, t, a);
    HeadersExtend(s[a..], t, []);
    var b, headers := HeadersParse(s[a..], []).consumed, HeadersParse(s[a..], []).value;
    Drop(s, t, a + b);
    FinishAgrees(f, line, headers, s[a + b..], t);
  }

  /** A complete parse is final: whatever bytes follow, the request and the number
      of bytes consumed stay the same, except that a stream whose last byte is CR
      is answered with Partial. */
  lemma CompleteIsStable(f: Scanf, s: seq<byte>, t: seq<byte>)
    requires RequestParse(f, s).Complete?
    ensures RequestParse(f, s).consumed <= |s|
    ensures RequestParse(f, s + t) == if EndsWithCr(t) then Partial else RequestParse(f, s)
  {
    hide SkipFrames, MessageParse;
    if |t| == 0 {
      assert s + t == s;
    } else {
      SkipAgrees(s, t);
      var a := SkipFrames(s).consumed;
      Drop(s, t, a);
      MessageExtend(f, s[a..], t);
    }
  }

  /** The view ends right after the header line that fills the map. */
  predicate FullAtEnd(s: seq<byte>, have: seq<Header>)
    decreases |s|
  {
    if |s| == 0 then |have| == 32
    else if EndsWithCr(s) || StartsWithCrlf(s) || |have| == CAPACITY then false
    else
      match HeaderParse(s)
      case Complete(n, h) => FullAtEnd(s[n..], have + [h])
      case _ => false
  }

  /** A failed header block stays failed, unless the stream then ends in CR or
      was cut right after the 32nd header line and the block ends there. */
  lemma {:induction false} HeadersFail(s: seq<byte>, t: seq<byte>, have: seq<Header>)
    requires HeadersParse(s, have).Failure? && |t| > 0
    ensures var r := HeadersParse(s + t, have);
      if EndsWithCr(t) then r == Partial
      else if FullAtEnd(s, have) && StartsWithCrlf(t) then r.Complete?
      else r.Failure?
    decreases |s|
  {
    hide HeaderParse;
    assert EndsWithCr(s + t) == EndsWithCr(t);
    HeaderOfNothing();
    if |s| == 0 {
      assert s + t == t;
    } else if !EndsWithCr(t) && |have| != CAPACITY {
      HeaderAgrees(s, t);
      if HeaderParse(s).Complete? {
        var n := HeaderParse(s).consumed;
        Drop(s, t, n);
        HeadersFail(s[n..], t, have + [HeaderParse(s).value]);
      }
    }
  }

  /** Behind any frames, the request line is complete. */
  predicate LineDone(f: Scanf, s: seq<byte>) {
    SkipFrames(s).Complete? && LineParse(f, s[SkipFrames(s).consumed..]).Complete?
  }

  predicate CutAfterLast(f: Scanf, s: seq<byte>)
    requires LineDone(f, s)
  {
    var a := SkipFrames(s).consumed;
    var b := LineParse(f, s[a..]).consumed;
    FullAtEnd(s[a + b..], [])
  }

  lemma MessageFail(f: Scanf, s: seq<byte>, t: seq<byte>)
    requires MessageParse(f, s).Failure? && |t| > 0
    ensures var r, line := MessageParse(f, s + t), LineParse(f, s);
      if line.Complete? && EndsWithCr(t) then r == Partial
      else (line.Complete? && FullAtEnd(s[line.consumed..], []) && StartsWithCrlf(t)) || r.Failure?
  {
    hide LineParse, HeadersParse, FinishParse, FullAtEnd;
    LineAgrees(f, s, t);
    var line := LineParse(f, s);
    if line.Complete? {
      var a := line.consumed;
      Drop(s, t, a);
      var headers := HeadersParse(s[a..], []);
      if headers.Failure? {
        HeadersFail(s[a..], t, []);
      } else if headers.Complete? {
        HeadersExtend(s[a..], t, []);
        Drop(s, t, a + headers.consumed);
        FinishAgrees(f, line.value, headers.value, s[a + headers.consumed..], t);
      }
    }
  }

  /** A failure is final: no more bytes can help, except that a stream ending in
      CR after a complete request line is answered with Partial, and that a view
      cut right after the 32nd header line may still turn out well. */
  lemma FailureIsFinal(f: Scanf, s: seq<byte>, t: seq<byte>)
    requires RequestParse(f, s).Failure? && |t| > 0
    ensures var r := RequestParse(f, s + t);
      if LineDone(f, s) && EndsWithCr(t) then r == Partial
      else (LineDone(f, s) && CutAfterLast(f, s) && StartsWithCrlf(t)) || r.Failure?
  {
    hide SkipFrames, MessageParse, LineParse, FullAtEnd;
    SkipAgrees(s, t);
    var a := SkipFrames(s).consumed;
    Drop(s, t, a);
    MessageFail(f, s[a..], t);
    var line := LineParse(f, s[a..]);
    if line.Complete? { assert s[a..][line.consumed..] == s[a + line.consumed..]; }
  }

  /** What is left of a complete answer when only the first `m` bytes are there. */
  function CutRequest(full: Parse<Request>, m: nat): Parse<Request>
    requires full.Complete?
  {
    if |full.value.headers| == 32 && m + |full.value.body| + 2 == full.consumed
    then Failure(HeaderMapOverflow) else Partial
  }

  lemma MessageCut(f: Scanf, s: seq<byte>, t: seq<byte>)
    requires MessageParse(f, s + t).Complete? && |s| < MessageParse(f, s + t).consumed
    ensures MessageParse(f, s) == CutRequest(MessageParse(f, s + t), |s|)
  {
    hide LineParse, HeadersParse, FinishParse;
    LineAgrees(f, s, t);
    var a, line := LineParse(f, s + t).consumed, LineParse(f, s + t).value;
    if a <= |s| {
      Drop(s, t, a);
      HeadersCut(s[a..], t, []);
      var full := HeadersParse(s[a..] + t, []);
      var b := full.consumed;
      if a + b <= |s| && !EndsWithCr(s[a..]) {
        Drop(s, t, a + b);
        FinishAgrees(f, line, full.value, s[a + b..], t);
      }
    }
  }

  /** Every proper prefix of a complete request asks for more bytes; the one
      exception is a request of exactly 32 headers cut right after the last
      header line, which is refused. */
  lemma PrefixIsPartial(f: Scanf, s: seq<byte>, m: nat)
    requires RequestParse(f, s).Complete? && m < RequestParse(f, s).consumed
    ensures RequestParse(f, s[..m]) == CutRequest(RequestParse(f, s), m)
  {
    hide SkipFrames, MessageParse;
    var p, t := s[..m], s[m..];
    assert s == p + t;
    SkipAgrees(p, t);
    var a := SkipFrames(s).consumed;
    if SkipFrames(p).Complete? {
      Drop(p, t, a);
      MessageCut(f, p[a..], t);
    } else {
      MessageLongEnough(f, s[a..]);
    }
  }

  /** Nothing complete is that short: the line alone takes more than six bytes. */
  lemma MessageLongEnough(f: Scanf, s: seq<byte>)
    requires MessageParse(f, s).Complete?
    ensures MessageParse(f, s).consumed >= |MessageParse(f, s).value.body| + 8
  {
    LineLongEnough(f, s);
  }

  lemma LineLongEnough(f: Scanf, s: seq<byte>)
    requires LineParse(f, s).Complete?
    ensures LineParse(f, s).consumed >= 6
  {
    hide MethodParse, UriParse;
    var a := MethodParse(s).consumed;
    var b := UriParse(s[a..]).consumed;
    VersionLongEnough(f, s[a + b..]);
  }

  lemma VersionLongEnough(f: Scanf, s: seq<byte>)
    requires VersionParse(f, s).Complete?
    ensures VersionParse(f, s).consumed >= 6
  {
    hide MatchWhile, MatchStr, MatchToken;
  }
}
