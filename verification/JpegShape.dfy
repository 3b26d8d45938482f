/** The shape of the frames the JPEG parser accepts: every one of them is made of
    marker segments and bare markers, and can be taken apart again. */
module JpegShape {
  import opened Bytes
  import opened JpegFrame

  /** The table at the front of a DQT segment. */
  lemma TakeTable(data: seq<byte>, info: Info) returns (t: Table, next: Info)
    requires |data| > 0 && ParseDqt(data, info).Some?
    ensures t.Valid() && |data| >= |t.Bytes()| && t.Bytes() == data[..|t.Bytes()|]
    ensures ParseDqt(data[|t.Bytes()|..], next).Some?
  {
    hide MarkWide;
    var pq, tq := data[0] / 16, data[0] % 16;
    var n := TableSize(pq);
    t := Table(pq, tq, data[1..1 + n]);
    next := info.(tables := info.tables + t.entries, precision := MarkWide(info.precision, pq, tq));
    assert |t.Bytes()| == 1 + n && t.Bytes()[0] == data[0];
  }

  lemma {:induction false} TakeTables(data: seq<byte>, info: Info) returns (ts: seq<Table>)
    requires ParseDqt(data, info).Some?
    ensures (forall i :: 0 <= i < |ts| ==> ts[i].Valid()) && TableBytes(ts) == data
    decreases |data|
  {
    hide ParseDqt, Table.Valid;
    ts := [];
    if |data| > 0 {
      var t, next := TakeTable(data, info);
      var n := |t.Bytes()|;
      assert n > 0;
      hide Table.Bytes;
      var rest := TakeTables(data[n..], next);
      ts := [t] + rest;
      assert ts[1..] == rest;
      assert t.Bytes() + data[n..] == data;
    }
  }

  lemma {:induction false} TakeComponents(data: seq<byte>, n: nat) returns (cs: seq<(byte, byte, byte)>)
    requires |data| == 3 * n
    ensures |cs| == n && ComponentBytes(cs) == data
  {
    cs := [];
    if n > 0 {
      var rest := TakeComponents(data[3..], n - 1);
      cs := [(data[0], data[1], data[2])] + rest;
      assert cs[1..] == rest;
      assert data == [data[0], data[1], data[2]] + data[3..];
    }
  }

  lemma TakeSize(data: seq<byte>, info: Info) returns (g: Segment)
    requires ParseSof0(data, info).Some?
    ensures g.Size? && g.Valid() && g.Data() == data
  {
    var n: nat := data[5];
    var cs := TakeComponents(data[6..6 + 3 * n], n);
    g := Size(data[0], Be16(data, 1), Be16(data, 3), cs, data[6 + 3 * n..]);
    var head := data[..6];
    assert head == [data[0], data[1], data[2], data[3], data[4], data[5]];
    hide ComponentBytes;
    assert g.Data()[..6] == head;
    assert data == head + data[6..6 + 3 * n] + data[6 + 3 * n..];
  }

  lemma TakeSegment(marker: byte, data: seq<byte>, info: Info) returns (g: Segment)
    requires !Standalone(marker) && marker != 0xFF && marker != SOS && ParseSegment(marker, data, info).Some?
    ensures g.Valid() && g.Marker() == marker && g.Data() == data
  {
    hide ParseDqt, ParseSof0, TableBytes;
    if marker == DQT {
      var ts := TakeTables(data, info);
      g := Tables(ts);
    } else if marker == SOF0 {
      g := TakeSize(data, info);
    } else if marker == DRI {
      g := Restart(Be16(data, 0), data[2..]);
    } else {
      g := Other(marker, data);
    }
  }

  /** The bytes the scanner passed to reach a marker. */
  lemma TakeMarker(frame: seq<byte>, p: nat)
    requires NextMarker(frame, p).Some?
    ensures var Found(marker, q, next) := NextMarker(frame, p).value;
      && marker != 0xFF && q >= p + 2 && frame[p..q] == Fill(q - p - 2) + [marker]
      && (Standalone(marker) ==> next == q)
  {
    hide Standalone;
  }

  lemma TakeMarkerSegment(frame: seq<byte>, p: nat)
    requires NextMarker(frame, p).Some? && !Standalone(NextMarker(frame, p).value.marker)
    ensures var Found(marker, q, next) := NextMarker(frame, p).value;
      && q >= p + 2 && q + 2 <= next && |frame[q + 2..next]| + 2 < 0x1_0000
      && frame[p..next] == SegmentBytes(q - p - 2, marker, frame[q + 2..next])
  {
    TakeMarker(frame, p);
    var Found(marker, q, next) := NextMarker(frame, p).value;
    assert Be16(frame, q) == next - q by { hide SkipFill, Fill; }
    hide NextMarker, Standalone, Fill;
    var n := next - q;
    assert frame[q..q + 2] == [n / 256, n % 256];
    assert frame[p..next] == frame[p..q] + frame[q..q + 2] + frame[q + 2..next];
  }

  lemma {:induction false} TakeElements(frame: seq<byte>, p: nat, info: Info, sof: bool)
    returns (es: seq<Element>, fill: nat, sos: seq<byte>, scan: seq<byte>)
    requires p <= |frame| && ScanMarkers(frame, p, info, sof).Some?
    ensures Writable(es) && |sos| + 2 < 0x1_0000
    ensures frame[p..] == ElementsBytes(es) + SegmentBytes(fill, SOS, sos) + scan + [0xFF, EOI]
    decreases |frame| - p
  {
    hide NextMarker, ParseSegment, Standalone, SegmentBytes, Fill, Segment.Valid, Segment.Data;
    var Found(marker, q, next) := NextMarker(frame, p).value;
    TakeMarker(frame, p);
    if !Standalone(marker) { TakeMarkerSegment(frame, p); }
    if Standalone(marker) {
      es, fill, sos, scan := TakeElements(frame, next, info, sof);
      es := Prepend(frame, p, next, Bare(q - p - 2, marker), es, fill, sos, scan);
    } else if marker == SOS {
      es, fill, sos, scan := [], q - p - 2, frame[q + 2..next], frame[next..|frame| - 2];
      assert frame[p..] == frame[p..next] + scan + frame[|frame| - 2..];
      assert frame[|frame| - 2..] == [0xFF, EOI];
      assert ElementsBytes(es) + frame[p..next] == frame[p..next];
    } else {
      var g := TakeSegment(marker, frame[q + 2..next], info);
      var info' := ParseSegment(marker, frame[q + 2..next], info).value;
      es, fill, sos, scan := TakeElements(frame, next, info', sof || marker == SOF0);
      es := Prepend(frame, p, next, Seg(q - p - 2, g), es, fill, sos, scan);
    }
  }

  lemma Prepend(frame: seq<byte>, p: nat, next: nat, e: Element, rest: seq<Element>, fill: nat, sos: seq<byte>,
                scan: seq<byte>)
    returns (es: seq<Element>)
    requires p <= next <= |frame| && e.Valid() && frame[p..next] == e.Bytes()
    requires Writable(rest) && |sos| + 2 < 0x1_0000
    requires frame[next..] == ElementsBytes(rest) + SegmentBytes(fill, SOS, sos) + scan + [0xFF, EOI]
    ensures Writable(es)
    ensures frame[p..] == ElementsBytes(es) + SegmentBytes(fill, SOS, sos) + scan + [0xFF, EOI]
  {
    hide Element.Bytes, SegmentBytes, Element.Valid;
    es := [e] + rest;
    assert es[1..] == rest;
    assert frame[p..] == frame[p..next] + frame[next..];
  }

  ghost predicate IsFrame(frame: seq<byte>, es: seq<Element>, fill: nat, sos: seq<byte>, scan: seq<byte>) {
    Writable(es) && |sos| + 2 < 0x1_0000 && frame == Build(es, fill, sos, scan)
  }

  /** Every accepted byte string is such a frame. */
  lemma AcceptedIsBuilt(frame: seq<byte>) returns (es: seq<Element>, fill: nat, sos: seq<byte>, scan: seq<byte>)
    requires ParseFrame(frame).Some?
    ensures IsFrame(frame, es, fill, sos, scan)
  {
    hide ScanMarkers, ElementsBytes, SegmentBytes;
    es, fill, sos, scan := TakeElements(frame, 2, BLANK, false);
    assert frame == [0xFF, SOI] + frame[2..];
  }

  /** The parser accepts a byte string exactly when it is SOI, marker segments and
      bare markers, SOS, a scan and EOI, with a size and at most 512 bytes of
      tables, but some. */
  lemma AcceptedExactly(frame: seq<byte>)
    ensures ParseFrame(frame).Some? <==>
      exists es, fill, sos, scan ::
        IsFrame(frame, es, fill, sos, scan) && HasSize(es) && 0 < |Meaning(es, BLANK).tables| <= 512
  {
    hide ParseFrame, Build, Meaning, HasSize, Writable;
    if ParseFrame(frame).Some? {
      var es, fill, sos, scan := AcceptedIsBuilt(frame);
      ParseBuilt(es, fill, sos, scan);
    }
    if es, fill, sos, scan :|
      IsFrame(frame, es, fill, sos, scan) && HasSize(es) && 0 < |Meaning(es, BLANK).tables| <= 512
    {
      ParseBuilt(es, fill, sos, scan);
    }
  }
}
