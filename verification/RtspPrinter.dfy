/** How the printers of src/types write, piece by piece, to a writer that may
    fail.  A failed write ends the innermost printer, which returns the number of
    bytes it wrote so far; its caller cannot tell and goes on. */
module RtspPrinter {
  import opened Bytes
  import opened Parsing
  import opened Rtsp

  /** The pieces of one printer, from write number `k` on: the text that got
      through and the number of the next write. */
  function WriteGroup(fails: nat -> bool, k: nat, pieces: seq<seq<byte>>): (seq<byte>, nat)
    decreases |pieces|
  {
    if |pieces| == 0 then ([], k)
    else if fails(k) then ([], k + 1)
    else
      var (text, next) := WriteGroup(fails, k + 1, pieces[1..]);
      (pieces[0] + text, next)
  }

  /** One printer after the other, whatever happened before. */
  function WriteGroups(fails: nat -> bool, k: nat, groups: seq<seq<seq<byte>>>): (seq<byte>, nat) {
    if |groups| == 0 then ([], k)
    else
      var n := |groups| - 1;
      var (text, next) := WriteGroups(fails, k, groups[..n]);
      var (more, next') := WriteGroup(fails, next, groups[n]);
      (text + more, next')
  }

  function LinePieces(l: RequestLine): seq<seq<byte>> {
    [l.method_, [SPACE], l.uri, [SPACE], PrintVersion(l.version), CRLF]
  }

  function HeaderPieces(h: Header): seq<seq<byte>> { [h.key, COLON_SPACE, h.value, CRLF] }

  function HeaderGroups(hs: seq<Header>): (g: seq<seq<seq<byte>>>)
    ensures |g| == |hs|
  {
    seq(|hs|, i requires 0 <= i < |hs| => HeaderPieces(hs[i]))
  }

  function BodyGroups(body: seq<byte>): seq<seq<seq<byte>>> { if |body| == 0 then [] else [[body]] }

  function Groups(r: Request): seq<seq<seq<byte>>> {
    [LinePieces(r.line)] + HeaderGroups(Inserted(r)) + HeaderGroups(r.headers) + [[CRLF]] + BodyGroups(r.body)
  }

  /** No write from `k` up to `next` failed. */
  predicate AllWell(fails: nat -> bool, k: nat, next: nat) { forall i :: k <= i < next ==> !fails(i) }

  // ------------------------------------------------------- what gets through

  function Flatten(groups: seq<seq<seq<byte>>>): seq<byte> {
    if |groups| == 0 then [] else Flatten(groups[..|groups| - 1]) + Concat(groups[|groups| - 1])
  }

  lemma {:induction false} ConcatFirst(pieces: seq<seq<byte>>)
    requires |pieces| > 0
    ensures Concat(pieces) == pieces[0] + Concat(pieces[1..])
  {
    assert pieces == [pieces[0]] + pieces[1..];
    ConcatAppend([pieces[0]], pieces[1..]);
    assert Concat([pieces[0]]) == Concat([]) + pieces[0];
  }

  /** Every printer ends in a piece that is not empty, so a failure costs at least
      one byte. */
  predicate EndsInText(pieces: seq<seq<byte>>) { |pieces| > 0 && |pieces[|pieces| - 1]| > 0 }

  lemma {:induction false} GroupExactly(fails: nat -> bool, k: nat, pieces: seq<seq<byte>>)
    requires |pieces| > 0 ==> EndsInText(pieces)
    ensures var (text, next) := WriteGroup(fails, k, pieces);
      && k <= next && (|pieces| > 0 ==> k < next)
      && |text| <= |Concat(pieces)|
      && (AllWell(fails, k, next) ==> text == Concat(pieces))
      && (!AllWell(fails, k, next) ==> |text| < |Concat(pieces)|)
    decreases |pieces|
  {
    if |pieces| > 0 {
      ConcatFirst(pieces);
      SomeText(pieces);
      if fails(k) {
        assert !AllWell(fails, k, k + 1);
      } else {
        hide Concat;
        GroupExactly(fails, k + 1, pieces[1..]);
        var next := WriteGroup(fails, k + 1, pieces[1..]).1;
        assert AllWell(fails, k, next) <==> AllWell(fails, k + 1, next);
      }
    }
  }

  lemma SomeText(pieces: seq<seq<byte>>)
    requires EndsInText(pieces)
    ensures |Concat(pieces)| > 0
  {
  }

  predicate AllEndInText(groups: seq<seq<seq<byte>>>) {
    forall i :: 0 <= i < |groups| ==> EndsInText(groups[i])
  }

  lemma {:induction false} GroupsExactly(fails: nat -> bool, k: nat, groups: seq<seq<seq<byte>>>)
    requires AllEndInText(groups)
    ensures var (text, next) := WriteGroups(fails, k, groups);
      && k <= next && |text| <= |Flatten(groups)|
      && (AllWell(fails, k, next) ==> text == Flatten(groups))
      && (!AllWell(fails, k, next) ==> |text| < |Flatten(groups)|)
    decreases |groups|
  {
    hide WriteGroup, Concat;
    if |groups| > 0 {
      var n := |groups| - 1;
      GroupsExactly(fails, k, groups[..n]);
      var middle := WriteGroups(fails, k, groups[..n]).1;
      GroupExactly(fails, middle, groups[n]);
      var next := WriteGroup(fails, middle, groups[n]).1;
      assert AllWell(fails, k, next) <==> AllWell(fails, k, middle) && AllWell(fails, middle, next);
    }
  }

  // ----------------------------------------------------------- the whole text

  lemma {:induction false} FlattenAppend(a: seq<seq<seq<byte>>>, b: seq<seq<seq<byte>>>)
    ensures Flatten(a + b) == Flatten(a) + Flatten(b)
    decreases |b|
  {
    hide Concat;
    if |b| == 0 {
      assert a + b == a;
    } else {
      var n := |b| - 1;
      assert (a + b)[..|a + b| - 1] == a + b[..n];
      FlattenAppend(a, b[..n]);
    }
  }

  lemma HeaderPiecesText(h: Header)
    ensures Concat(HeaderPieces(h)) == PrintHeader(h)
  {
    var p := HeaderPieces(h);
    ConcatThree(h.key, COLON_SPACE, h.value);
    assert p[..3] == [h.key, COLON_SPACE, h.value];
  }

  lemma LinePiecesText(l: RequestLine)
    ensures Concat(LinePieces(l)) == PrintLine(l)
  {
    hide PrintVersion;
    var p := LinePieces(l);
    var a, b := [l.method_, [SPACE], l.uri], [[SPACE], PrintVersion(l.version), CRLF];
    assert p == a + b;
    ConcatAppend(a, b);
    ConcatThree(l.method_, [SPACE], l.uri);
    ConcatThree([SPACE], PrintVersion(l.version), CRLF);
    hide Concat;
  }

  lemma {:induction false} HeaderGroupsText(hs: seq<Header>)
    ensures Flatten(HeaderGroups(hs)) == PrintHeaders(hs)
    decreases |hs|
  {
    hide Concat, HeaderPieces, PrintHeader;
    if |hs| > 0 {
      var one := [HeaderPieces(hs[0])];
      assert HeaderGroups(hs) == one + HeaderGroups(hs[1..]);
      FlattenAppend(one, HeaderGroups(hs[1..]));
      OneGroup(HeaderPieces(hs[0]));
      HeaderPiecesText(hs[0]);
      HeaderGroupsText(hs[1..]);
    }
  }

  lemma OneGroup(pieces: seq<seq<byte>>)
    ensures Flatten([pieces]) == Concat(pieces)
  {
    hide Concat;
    assert [pieces][..0] == [];
    assert Flatten([pieces]) == [] + Concat(pieces);
  }

  lemma OnePiece(piece: seq<byte>)
    ensures Concat([piece]) == piece
  {
    assert [piece][..0] == [];
    assert Concat([piece]) == [] + piece;
  }

  lemma GroupsText(r: Request)
    ensures Flatten(Groups(r)) == Print(r)
  {
    hide Concat, Flatten, LinePieces, PrintLine, PrintHeaders, HeaderGroups, Inserted;
    var a, b, c, d := [LinePieces(r.line)], HeaderGroups(Inserted(r)), HeaderGroups(r.headers), [[CRLF]];
    FlattenAppend(a + b + c + d, BodyGroups(r.body));
    FlattenAppend(a + b + c, d);
    FlattenAppend(a + b, c);
    FlattenAppend(a, b);
    OneGroup(LinePieces(r.line));
    LinePiecesText(r.line);
    HeaderGroupsText(Inserted(r));
    HeaderGroupsText(r.headers);
    OneGroup([CRLF]);
    OnePiece(CRLF);
    BodyText(r.body);
  }

  lemma BodyText(body: seq<byte>)
    ensures Flatten(BodyGroups(body)) == body
  {
    if |body| > 0 {
      OneGroup([body]);
      OnePiece(body);
    }
  }

  lemma GroupsEndInText(r: Request)
    ensures AllEndInText(Groups(r))
  {
    hide PrintVersion, Inserted;
  }

  /** The length that the printer reports is that of the whole text exactly when
      no write failed, and then the text is whole.  It is never negative. */
  lemma PrintedExactly(fails: nat -> bool, k: nat, r: Request)
    ensures var (text, next) := WriteGroups(fails, k, Groups(r));
      && |text| <= |Print(r)|
      && (|text| == |Print(r)| <==> AllWell(fails, k, next))
      && (AllWell(fails, k, next) ==> text == Print(r))
  {
    hide WriteGroups, Groups, Print, Flatten, AllEndInText;
    GroupsEndInText(r);
    GroupsExactly(fails, k, Groups(r));
    GroupsText(r);
  }

  /** When all goes well there are six writes for the line, four for each header,
      one for the empty line and one for a body. */
  lemma WritesCount(fails: nat -> bool, k: nat, r: Request)
    ensures var next := WriteGroups(fails, k, Groups(r)).1;
      AllWell(fails, k, next) ==>
        next == k + 6 + 4 * (|Inserted(r)| + |r.headers|) + 1 + (if |r.body| > 0 then 1 else 0)
  {
    hide WriteGroups, Inserted;
    var next := WriteGroups(fails, k, Groups(r)).1;
    if AllWell(fails, k, next) {
      var a, b, c := [LinePieces(r.line)], HeaderGroups(Inserted(r)), HeaderGroups(r.headers);
      GroupsWrites(fails, k, Groups(r));
      PiecesAppend(a + b + c + [[CRLF]], BodyGroups(r.body));
      PiecesAppend(a + b + c, [[CRLF]]);
      PiecesAppend(a + b, c);
      PiecesAppend(a, b);
      PiecesOne(LinePieces(r.line));
      PiecesOne([CRLF]);
      HeaderPiecesCount(Inserted(r));
      HeaderPiecesCount(r.headers);
      if |r.body| > 0 { PiecesOne([r.body]); }
    }
  }

  function Pieces(groups: seq<seq<seq<byte>>>): nat {
    if |groups| == 0 then 0 else Pieces(groups[..|groups| - 1]) + |groups[|groups| - 1]|
  }

  lemma {:induction false} PiecesAppend(a: seq<seq<seq<byte>>>, b: seq<seq<seq<byte>>>)
    ensures Pieces(a + b) == Pieces(a) + Pieces(b)
    decreases |b|
  {
    if |b| == 0 {
      assert a + b == a;
    } else {
      assert (a + b)[..|a + b| - 1] == a + b[..|b| - 1];
      PiecesAppend(a, b[..|b| - 1]);
    }
  }

  lemma PiecesOne(group: seq<seq<byte>>)
    ensures Pieces([group]) == |group|
  {
    assert [group][..0] == [];
  }

  lemma {:induction false} HeaderPiecesCount(hs: seq<Header>)
    ensures Pieces(HeaderGroups(hs)) == 4 * |hs|
    decreases |hs|
  {
    if |hs| > 0 {
      assert HeaderGroups(hs) == HeaderGroups(hs[..|hs| - 1]) + [HeaderPieces(hs[|hs| - 1])];
      HeaderPiecesCount(hs[..|hs| - 1]);
    }
  }

  lemma {:induction false} GroupWrites(fails: nat -> bool, k: nat, pieces: seq<seq<byte>>)
    ensures var next := WriteGroup(fails, k, pieces).1;
      k <= next && (AllWell(fails, k, next) ==> next == k + |pieces|)
    decreases |pieces|
  {
    if |pieces| > 0 && !fails(k) {
      GroupWrites(fails, k + 1, pieces[1..]);
      var next := WriteGroup(fails, k + 1, pieces[1..]).1;
      assert AllWell(fails, k, next) <==> AllWell(fails, k + 1, next);
    } else if |pieces| > 0 {
      assert !AllWell(fails, k, k + 1);
    }
  }

  lemma {:induction false} GroupsWrites(fails: nat -> bool, k: nat, groups: seq<seq<seq<byte>>>)
    ensures var next := WriteGroups(fails, k, groups).1;
      k <= next && (AllWell(fails, k, next) ==> next == k + Pieces(groups))
    decreases |groups|
  {
    hide WriteGroup;
    if |groups| > 0 {
      var n := |groups| - 1;
      GroupsWrites(fails, k, groups[..n]);
      var middle := WriteGroups(fails, k, groups[..n]).1;
      GroupWrites(fails, middle, groups[n]);
      var next := WriteGroup(fails, middle, groups[n]).1;
      assert AllWell(fails, k, next) ==> AllWell(fails, k, middle) && AllWell(fails, middle, next);
    }
  }

  // ------------------------------------------------------- errors go unnoticed

  lemma {:induction false} WriteGroupsAppend(fails: nat -> bool, k: nat, a: seq<seq<seq<byte>>>, b: seq<seq<seq<byte>>>)
    ensures var (text, next) := WriteGroups(fails, k, a);
      var (more, next') := WriteGroups(fails, next, b);
      WriteGroups(fails, k, a + b) == (text + more, next')
    decreases |b|
  {
    hide WriteGroup;
    if |b| == 0 {
      assert a + b == a;
      var t := WriteGroups(fails, k, a).0;
      assert t + [] == t;
    } else {
      var n := |b| - 1;
      assert (a + b)[..|a + b| - 1] == a + b[..n];
      WriteGroupsAppend(fails, k, a, b[..n]);
      var (t, m) := WriteGroups(fails, k, a);
      var (u, m') := WriteGroups(fails, m, b[..n]);
      var v := WriteGroup(fails, m', b[n]).0;
      assert (t + u) + v == t + (u + v);
    }
  }

  lemma OneWritten(fails: nat -> bool, k: nat, pieces: seq<seq<byte>>)
    ensures WriteGroups(fails, k, [pieces]) == WriteGroup(fails, k, pieces)
  {
    hide WriteGroup;
    assert [pieces][..0] == [];
    var (text, next) := WriteGroup(fails, k, pieces);
    assert [] + text == text;
  }

  lemma TailEndsInText(a: seq<seq<seq<byte>>>, b: seq<seq<seq<byte>>>)
    requires AllEndInText(a + b)
    ensures AllEndInText(b)
  {
    forall i | 0 <= i < |b| ensures EndsInText(b[i]) { assert (a + b)[|a| + i] == b[i]; }
  }

  predicate OnlyFirst(i: nat) { i == 0 }

  /** If only the very first write fails, everything but the request line is
      written, and its length is returned. */
  lemma ErrorGoesUnnoticed(r: Request)
    ensures WriteGroups(OnlyFirst, 0, Groups(r)).0 == Print(r)[|PrintLine(r.line)|..]
  {
    var fails := OnlyFirst;
    var line, rest := [LinePieces(r.line)],
      HeaderGroups(Inserted(r)) + HeaderGroups(r.headers) + [[CRLF]] + BodyGroups(r.body);
    assert WriteGroup(fails, 0, LinePieces(r.line)) == ([], 1);
    assert Groups(r) == line + rest;
    hide WriteGroup, WriteGroups, HeaderGroups, BodyGroups, Print, PrintLine, Flatten, LinePieces, Concat, Inserted;
    hide AllEndInText, Groups;
    WriteGroupsAppend(fails, 0, line, rest);
    OneWritten(fails, 0, LinePieces(r.line));
    GroupsEndInText(r);
    TailEndsInText(line, rest);
    GroupsExactly(fails, 1, rest);
    GroupsText(r);
    FlattenAppend(line, rest);
    OneGroup(LinePieces(r.line));
    LinePiecesText(r.line);
    assert (PrintLine(r.line) + Flatten(rest))[|PrintLine(r.line)|..] == Flatten(rest);
  }

  // ---------------------------------------------------------------- the writer

  /** A writer is an append-only byte sequence; `fails` says which writes fail. */
  class Writer {
    const fails: nat -> bool
    var writes: nat
    var contents: seq<byte>

    constructor (fails: nat -> bool)
      ensures this.fails == fails && writes == 0 && contents == []
    {
      this.fails, writes, contents := fails, 0, [];
    }

    method Write(s: seq<byte>) returns (n: int)
      modifies this
      ensures writes == old(writes) + 1
      ensures n == (if fails(old(writes)) then -1 else |s|)
      ensures contents == old(contents) + (if n < 0 then [] else s)
    {
      n := -1;
      if !fails(writes) { n, contents := |s|, contents + s; }
      writes := writes + 1;
    }

    /** Writes the pieces up to the first failure. */
    method WriteSlices(pieces: seq<seq<byte>>) returns (result: nat)
      modifies this
      ensures var (text, next) := WriteGroup(fails, old(writes), pieces);
        contents == old(contents) + text && writes == next && result == |text|
    {
      result := 0;
      ghost var done := [];
      for i := 0 to |pieces|
        invariant contents == old(contents) + done && result == |done|
        invariant WriteGroup(fails, old(writes), pieces).0 == done + WriteGroup(fails, writes, pieces[i..]).0
        invariant WriteGroup(fails, old(writes), pieces).1 == WriteGroup(fails, writes, pieces[i..]).1
      {
        assert pieces[i..][1..] == pieces[i + 1..];
        ghost var rest := WriteGroup(fails, writes + 1, pieces[i + 1..]).0;
        assert (done + pieces[i]) + rest == done + (pieces[i] + rest);
        var n := Write(pieces[i]);
        if n < 0 { return; }
        result, done := result + n, done + pieces[i];
      }
      assert done + [] == done;
    }
  }
}
