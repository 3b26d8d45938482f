/** The incremental token matchers of src/types/parsing.c.  Each looks at a
    prefix view of a stream and answers how much it consumed, that it needs more
    bytes, or that no more bytes can help. */
module Parsing {
  import opened Bytes

  datatype Kind = Int | Ident | HeaderName

  datatype ParseError =
    | ContentLength(value: seq<byte>)
    | StrMismatch(expected: seq<byte>, actual: seq<byte>)
    | TypeMismatch(kind: Kind, text: seq<byte>)
    | HeaderMapOverflow
    | MissingCSeq
    | InvalidCSeq(value: seq<byte>)

  /** The source's result together with what it stored through its out pointer. */
  datatype Parse<+T> =
    | Complete(consumed: nat, value: T)
    | Partial
    | Failure(error: ParseError)
  {
    // Sequencing with `:-` is the source's MATCH: a complete step hands over how
    // far it got, anything else ends the whole parse.
    predicate IsFailure() { !Complete? }
    function PropagateFailure<U>(): Parse<U>
      requires IsFailure()
    {
      if Partial? then Parse.Partial else Parse.Failure(error)
    }
    function Extract(): (nat, T)
      requires !IsFailure()
    {
      (consumed, value)
    }

    /** The same result seen from `n` bytes earlier. */
    function After(n: nat): Parse<T> {
      match this
      case Complete(m, v) => Complete(n + m, v)
      case other => other
    }
  }

  const CR: byte := 13
  const LF: byte := 10
  const SPACE: byte := 32
  const COLON: byte := 58
  const DOT: byte := 46
  const CRLF: seq<byte> := [CR, LF]

  predicate IsSpace(c: byte) { c == SPACE }
  predicate IsNonSpace(c: byte) { c != SPACE }
  predicate IsColon(c: byte) { c == COLON }
  predicate IsDot(c: byte) { c == DOT }
  predicate IsDigit(c: byte) { 48 <= c <= 57 }
  predicate IsAlpha(c: byte) { 65 <= c <= 90 || 97 <= c <= 122 }
  predicate IsIdent(c: byte) { IsAlpha(c) || IsDigit(c) || c == 95 }
  predicate IsNameChar(c: byte) { IsAlpha(c) || c == 45 }

  /** Zero or more bytes satisfying `p`, known to have ended. */
  function MatchWhile(p: byte -> bool, s: seq<byte>): (r: Parse<()>)
    ensures r.Complete? ==> r.consumed < |s| && !p(s[r.consumed]) && forall i :: 0 <= i < r.consumed ==> p(s[i])
    ensures r.Partial? ==> forall i :: 0 <= i < |s| ==> p(s[i])
    ensures !r.Failure?
  {
    if |s| == 0 then Partial
    else if !p(s[0]) then Complete(0, ())
    else MatchWhile(p, s[1..]).After(1)
  }

  /** `str` occurs at offset `i`. */
  predicate OccursAt(s: seq<byte>, str: seq<byte>, i: nat) {
    i + |str| <= |s| && s[i..i + |str|] == str
  }

  /** Everything up to and including the first occurrence of `str`. */
  function MatchUntilStr(s: seq<byte>, str: seq<byte>): (r: Parse<()>)
    requires |str| > 0
    ensures r.Complete? ==> |str| <= r.consumed <= |s|
    ensures !r.Failure?
  {
    if |s| < |str| then Partial
    else if s[..|str|] == str then Complete(|str|, ())
    else MatchUntilStr(s[1..], str).After(1)
  }

  lemma OccursInTail(s: seq<byte>, str: seq<byte>, i: nat)
    requires |s| > 0
    ensures OccursAt(s, str, i + 1) == OccursAt(s[1..], str, i)
  {
    if i + 1 + |str| <= |s| {
      assert s[i + 1..i + 1 + |str|] == s[1..][i..i + |str|];
    }
  }

  lemma {:induction false} MatchUntilStrFinds(s: seq<byte>, str: seq<byte>)
    requires |str| > 0 && MatchUntilStr(s, str).Complete?
    ensures OccursAt(s, str, MatchUntilStr(s, str).consumed - |str|)
    decreases |s|
  {
    if s[..|str|] != str {
      MatchUntilStrFinds(s[1..], str);
      OccursInTail(s, str, MatchUntilStr(s[1..], str).consumed - |str|);
    }
  }

  /** No occurrence is passed over, and `Partial` means there is none. */
  lemma {:induction false} MatchUntilStrFirst(s: seq<byte>, str: seq<byte>, i: nat)
    requires |str| > 0 && OccursAt(s, str, i)
    ensures MatchUntilStr(s, str).Complete? && MatchUntilStr(s, str).consumed <= i + |str|
    decreases |s|
  {
    if s[..|str|] != str {
      assert i > 0;
      OccursInTail(s, str, i - 1);
      MatchUntilStrFirst(s[1..], str, i - 1);
    }
  }

  /** Exactly `str`. */
  function MatchStr(s: seq<byte>, str: seq<byte>): (r: Parse<()>)
    ensures r.Complete? ==> r.consumed == |str| <= |s|
  {
    var m := if |s| < |str| then |s| else |str|;
    if s[..m] != str[..m] then Failure(StrMismatch(str, s[..m]))
    else if |s| < |str| then Partial
    else Complete(|str|, ())
  }

  /** It fails exactly on a byte that differs, and says what was there. */
  lemma MatchStrFails(s: seq<byte>, str: seq<byte>)
    ensures MatchStr(s, str).Failure? <==> exists i :: 0 <= i < |s| && i < |str| && s[i] != str[i]
    ensures var m := Min(|s|, |str|);
      MatchStr(s, str).Failure? ==> MatchStr(s, str) == Failure(StrMismatch(str, s[..m]))
    ensures MatchStr(s, str).Partial? <==> |s| < |str| && s == str[..|s|]
  {
    var m := Min(|s|, |str|);
    if i :| 0 <= i < |s| && i < |str| && s[i] != str[i] { assert s[..m][i] != str[..m][i]; }
    assert s[..m] == str[..m] <==> forall i :: 0 <= i < m ==> s[i] == str[i];
    if |s| < |str| { assert s[..m] == s; }
  }

  /** One or more bytes satisfying `p`.  The source reads the first byte without
      looking at the length; an empty view is taken to mean that it is not there yet. */
  function MatchToken(p: byte -> bool, kind: Kind, s: seq<byte>): (r: Parse<()>)
    ensures r.Complete? ==> 1 <= r.consumed < |s|
  {
    if |s| == 0 then Partial
    else if !p(s[0]) then Failure(TypeMismatch(kind, s))
    else MatchWhile(p, s)
  }

  /** It fails exactly on a first byte outside `p`, and hands over what was there. */
  lemma MatchTokenFails(p: byte -> bool, kind: Kind, s: seq<byte>)
    ensures MatchToken(p, kind, s).Failure? <==> |s| > 0 && !p(s[0])
    ensures MatchToken(p, kind, s).Failure? ==> MatchToken(p, kind, s) == Failure(TypeMismatch(kind, s))
  {
  }

  // ------------------------------------------------ how views of a stream agree

  /** What a shorter view of `m` bytes says next to a longer view of the same
      stream: a complete answer is final, a failure remains one, and where the
      longer view completes the shorter one needs more bytes exactly if it does
      not hold what is consumed and `look` bytes beyond. */
  predicate Agree<T(==)>(short: Parse<T>, full: Parse<T>, m: nat, look: nat) {
    && (short.Complete? ==> full == short && short.consumed <= m)
    && (short.Failure? ==> full.Failure?)
    && (full.Complete? ==> short == if m < full.consumed + look then Partial else full)
  }

  lemma {:induction false} MatchWhileAgrees(p: byte -> bool, s: seq<byte>, t: seq<byte>)
    ensures Agree(MatchWhile(p, s), MatchWhile(p, s + t), |s|, 1)
    decreases |s|
  {
    if |s| > 0 && p(s[0]) {
      assert (s + t)[1..] == s[1..] + t;
      MatchWhileAgrees(p, s[1..], t);
    }
  }

  lemma {:induction false} MatchUntilStrAgrees(s: seq<byte>, t: seq<byte>, str: seq<byte>)
    requires |str| > 0
    ensures Agree(MatchUntilStr(s, str), MatchUntilStr(s + t, str), |s|, 0)
    decreases |s|
  {
    if |s| >= |str| {
      assert (s + t)[..|str|] == s[..|str|];
      if s[..|str|] != str {
        assert (s + t)[1..] == s[1..] + t;
        MatchUntilStrAgrees(s[1..], t, str);
      }
    }
  }

  lemma MatchStrAgrees(s: seq<byte>, t: seq<byte>, str: seq<byte>)
    ensures Agree(MatchStr(s, str), MatchStr(s + t, str), |s|, 0)
  {
    if |s| >= |str| {
      assert (s + t)[..|str|] == s[..|str|];
    } else if MatchStr(s + t, str).Complete? {
      assert s == (s + t)[..|str|][..|s|] == str[..|s|];
    }
  }

  lemma MatchTokenAgrees(p: byte -> bool, kind: Kind, s: seq<byte>, t: seq<byte>)
    ensures Agree(MatchToken(p, kind, s), MatchToken(p, kind, s + t), |s|, 1)
  {
    if |s| > 0 { MatchWhileAgrees(p, s, t); }
  }

  /** A run of bytes satisfying `p` followed by one that does not. */
  lemma {:induction false} MatchWhileExact(p: byte -> bool, a: seq<byte>, b: seq<byte>)
    requires forall i :: 0 <= i < |a| ==> p(a[i])
    requires |b| > 0 && !p(b[0])
    ensures MatchWhile(p, a + b) == Complete(|a|, ())
    decreases |a|
  {
    if |a| == 0 {
      assert a + b == b;
    } else {
      assert (a + b)[1..] == a[1..] + b;
      MatchWhileExact(p, a[1..], b);
    }
  }

  // ------------------------------------------------------- the loops themselves

  method MatchUntil(input: seq<byte>, matcher: byte -> bool) returns (r: Parse<()>)
    ensures r == MatchWhile(matcher, input)
  {
    var rest, offset := input, 0;
    while |rest| > 0
      invariant offset <= |input| && rest == input[offset..]
      invariant MatchWhile(matcher, input) == MatchWhile(matcher, rest).After(offset)
      decreases |rest|
    {
      if !matcher(rest[0]) { return Complete(offset, ()); }
      rest := rest[1..];
      offset := offset + 1;
    }
    return Partial;
  }

  method ScanForStr(input: seq<byte>, str: seq<byte>) returns (r: Parse<()>)
    requires |str| > 0
    ensures r == MatchUntilStr(input, str)
  {
    var offset := 0;
    for i := 0 to |input|
      invariant offset == i
      invariant MatchUntilStr(input, str) == MatchUntilStr(input[i..], str).After(i)
    {
      if |input| - i < |str| { return Partial; }
      ghost var rest := input[i..];
      assert rest[..|str|] == input[i..i + |str|] && rest[1..] == input[i + 1..];
      if input[i..i + |str|] == str { return Complete(offset + |str|, ()); }
      offset := offset + 1;
    }
    return Partial;
  }
}
