/** The JPEG marker scanner of src/jpeg_transport.c: what a frame says about its
    size, its quantization tables and where its scan data is. */
module JpegFrame {
  import opened Bits
  import opened Bytes

  const MAX_TABLES := 512
  const SOI: byte := 0xD8
  const EOI: byte := 0xD9
  const SOF0: byte := 0xC0
  const DQT: byte := 0xDB
  const DRI: byte := 0xDD
  const SOS: byte := 0xDA

  datatype Info = Info(ty: byte, width8: byte, height8: byte, restart: u16,
                       tables: seq<byte>, precision: byte, scanOffset: nat, scanLen: nat)

  const BLANK := Info(0, 0, 0, 0, [], 0, 0, 0)

  function TableSize(pq: nat): nat { if pq == 0 then 64 else 128 }

  /** `precision | (1 << tq)` for a 16-bit table. */
  function MarkWide(precision: byte, pq: nat, tq: nat): byte {
    if pq != 0 && tq < 8 then
      Pow2Bound(tq);
      OrBound(precision, Pow2(tq), 8);
      Or(precision, Pow2(tq))
    else precision
  }

  lemma Pow2Bound(k: nat)
    requires k < 8
    ensures Pow2(k) < Pow2(8) == 256
  {
    assert Pow2(1) == 2 && Pow2(2) == 4 && Pow2(3) == 8 && Pow2(4) == 16;
    assert Pow2(5) == 32 && Pow2(6) == 64 && Pow2(7) == 128 && Pow2(8) == 256;
  }

  /** The tables of one DQT segment are appended to those already there. */
  function ParseDqt(data: seq<byte>, info: Info): (r: Option<Info>)
    ensures r.Some? && |info.tables| <= MAX_TABLES ==> |r.value.tables| <= MAX_TABLES
    decreases |data|
  {
    if |data| == 0 then Some(info)
    else
      var pq, tq := data[0] / 16, data[0] % 16;
      var size := TableSize(pq);
      if |data| - 1 < size || |info.tables| + size > MAX_TABLES then None
      else
        ParseDqt(data[1 + size..],
                 info.(tables := info.tables + data[1..1 + size], precision := MarkWide(info.precision, pq, tq)))
  }

  /** Dimensions in units of 8 pixels, 0 when too large, and the sampling type. */
  function ParseSof0(data: seq<byte>, info: Info): Option<Info> {
    if |data| < 6 then None
    else
      var height, width, nf := Be16(data, 1), Be16(data, 3), data[5];
      if nf < 1 || nf > 4 || |data| < 6 + nf * 3 then None
      else Some(info.(width8 := if width > 2040 then 0 else width / 8,
                      height8 := if height > 2040 then 0 else height / 8,
                      ty := if nf >= 3 && data[7] / 16 == 2 && data[7] % 16 == 2 then 1 else 0))
  }

  /** The effect of a marker segment other than SOS, and whether it was a SOF0. */
  function ParseSegment(marker: byte, data: seq<byte>, info: Info): (r: Option<Info>)
    ensures r.Some? && |info.tables| <= MAX_TABLES ==> |r.value.tables| <= MAX_TABLES
  {
    if marker == DQT then ParseDqt(data, info)
    else if marker == SOF0 then ParseSof0(data, info)
    else if marker == DRI then
      if |data| < 2 then None else Some(info.(restart := Be16(data, 0)))
    else Some(info)
  }

  /** The first position from `p` on that is not 0xFF. */
  function SkipFill(frame: seq<byte>, p: nat): (q: nat)
    requires p <= |frame|
    ensures p <= q <= |frame| && (q < |frame| ==> frame[q] != 0xFF)
    ensures forall i :: p <= i < q ==> frame[i] == 0xFF
    decreases |frame| - p
  {
    if p < |frame| && frame[p] == 0xFF then SkipFill(frame, p + 1) else p
  }

  predicate Standalone(marker: byte) {
    marker == EOI || marker == 0 || marker == 1 || 0xD0 <= marker <= 0xD7
  }

  /** Where the scan data is, once the SOS segment ends at `start`: everything up
      to the EOI that must end the frame. */
  function FinishScan(frame: seq<byte>, start: nat, info: Info): Option<Info> {
    if start + 1 >= |frame| || frame[|frame| - 2] != 0xFF || frame[|frame| - 1] != EOI then None
    else Some(info.(scanOffset := start, scanLen := |frame| - 2 - start))
  }

  /** A marker, the position after it, and the end of its segment. */
  datatype Found = Found(marker: byte, q: nat, next: nat)

  /** The marker at `p`; a marker that does not stand alone has a segment whose
      length includes the two length bytes. */
  function NextMarker(frame: seq<byte>, p: nat): (r: Option<Found>)
    ensures r.Some? ==> p < r.value.q <= r.value.next <= |frame|
    ensures r.Some? && !Standalone(r.value.marker) ==> r.value.q + 2 <= r.value.next
  {
    if p + 1 >= |frame| || frame[p] != 0xFF then None
    else
      var m := SkipFill(frame, p + 1);
      if m >= |frame| then None
      else
        var marker, q := frame[m], m + 1;
        if Standalone(marker) then Some(Found(marker, q, q))
        else if |frame| < q + 2 || Be16(frame, q) < 2 || q + Be16(frame, q) > |frame| then None
        else Some(Found(marker, q, q + Be16(frame, q)))
  }

  /** Walks the markers from `p` to SOS; also says whether a SOF0 was seen. */
  function ScanMarkers(frame: seq<byte>, p: nat, info: Info, sof: bool): (r: Option<(Info, bool)>)
    ensures r.Some? && |info.tables| <= MAX_TABLES ==> |r.value.0.tables| <= MAX_TABLES
    ensures r.Some? ==> r.value.0.scanOffset + r.value.0.scanLen + 2 == |frame|
    decreases |frame| - p
  {
    match NextMarker(frame, p)
    case None => None
    case Some(Found(marker, q, next)) =>
      if Standalone(marker) then ScanMarkers(frame, next, info, sof)
      else if marker == SOS then
        match FinishScan(frame, next, info)
        case None => None
        case Some(i) => Some((i, sof))
      else
        match ParseSegment(marker, frame[q + 2..next], info)
        case None => None
        case Some(i) => ScanMarkers(frame, next, i, sof || marker == SOF0)
  }

  /** The whole parse; a restart interval raises the type by 64. */
  function ParseFrame(frame: seq<byte>): (r: Option<Info>)
    ensures r.Some? ==> 0 < |r.value.tables| <= 512
    ensures r.Some? ==> r.value.scanOffset + r.value.scanLen + 2 == |frame|
  {
    if |frame| < 4 || frame[0] != 0xFF || frame[1] != SOI then None
    else
      match ScanMarkers(frame, 2, BLANK, false)
      case None => None
      case Some((info, sof)) =>
        if !sof || |info.tables| == 0 then None
        else Some(info.(ty := (info.ty + if info.restart > 0 then 64 else 0) % 256))
  }

  // ------------------------------------------------------ frames and what they say

  /** A quantization table: 64 one-byte or 128 bytes of two-byte entries. */
  datatype Table = Table(wide: nat, id: nat, entries: seq<byte>) {
    predicate Valid() { wide < 16 && id < 16 && |entries| == TableSize(wide) }
    function Bytes(): seq<byte>
      requires Valid()
    {
      [wide * 16 + id] + entries
    }
  }

  datatype Segment =
    | Tables(tables: seq<Table>)
    | Size(head: byte, height: u16, width: u16, components: seq<(byte, byte, byte)>, extra: seq<byte>)
    | Restart(interval: u16, extra: seq<byte>)
    | Other(marker: byte, data: seq<byte>)
  {
    predicate Valid() {
      match this
      case Tables(ts) => forall i :: 0 <= i < |ts| ==> ts[i].Valid()
      case Size(_, _, _, cs, _) => 1 <= |cs| <= 4
      case Restart(_, _) => true
      case Other(m, _) =>
        !Standalone(m) && m != 0xFF && m != SOS && m != DQT && m != SOF0 && m != DRI
    }

    function Marker(): byte {
      match this
      case Tables(_) => DQT
      case Size(_, _, _, _, _) => SOF0
      case Restart(_, _) => DRI
      case Other(m, _) => m
    }

    function Data(): seq<byte>
      requires Valid()
    {
      match this
      case Tables(ts) => TableBytes(ts)
      case Size(b, h, w, cs, extra) => [b, h / 256, h % 256, w / 256, w % 256, |cs|] + ComponentBytes(cs) + extra
      case Restart(i, extra) => [i / 256, i % 256] + extra
      case Other(_, d) => d
    }

    /** What the segment adds to the description of the frame. */
    function Apply(info: Info): Info
      requires Valid()
    {
      match this
      case Tables(ts) => info.(tables := info.tables + Entries(ts), precision := MarkAll(info.precision, ts))
      case Size(_, h, w, cs, _) =>
        info.(width8 := if w > 2040 then 0 else w / 8, height8 := if h > 2040 then 0 else h / 8,
              ty := if |cs| >= 3 && cs[0].1 == 0x22 then 1 else 0)
      case Restart(i, _) => info.(restart := i)
      case Other(_, _) => info
    }
  }

  function TableBytes(ts: seq<Table>): seq<byte>
    requires forall i :: 0 <= i < |ts| ==> ts[i].Valid()
  {
    if |ts| == 0 then [] else ts[0].Bytes() + TableBytes(ts[1..])
  }

  /** The entries of all tables, one after the other. */
  function Entries(ts: seq<Table>): seq<byte> {
    if |ts| == 0 then [] else ts[0].entries + Entries(ts[1..])
  }

  function MarkAll(precision: byte, ts: seq<Table>): byte
    decreases |ts|
  {
    if |ts| == 0 then precision else MarkAll(MarkWide(precision, ts[0].wide, ts[0].id), ts[1..])
  }

  function ComponentBytes(cs: seq<(byte, byte, byte)>): (s: seq<byte>)
    ensures |s| == 3 * |cs|
  {
    if |cs| == 0 then [] else [cs[0].0, cs[0].1, cs[0].2] + ComponentBytes(cs[1..])
  }

  /** What may stand between SOI and SOS, each after any number of fill bytes. */
  datatype Element =
    | Seg(fill: nat, segment: Segment)
    | Bare(fill: nat, marker: byte)
  {
    predicate Valid() {
      match this
      case Seg(_, g) => g.Valid() && |g.Data()| + 2 < 0x1_0000
      case Bare(_, m) => Standalone(m)
    }

    function Bytes(): (s: seq<byte>)
      requires Valid()
      ensures |s| >= 2
    {
      match this
      case Seg(n, g) => SegmentBytes(n, g.Marker(), g.Data())
      case Bare(n, m) => Fill(n) + [m]
    }

    function Apply(info: Info): Info
      requires Valid()
    {
      match this
      case Seg(_, g) => g.Apply(info)
      case Bare(_, _) => info
    }
  }

  function Fill(n: nat): (s: seq<byte>)
    ensures |s| == n + 1 && forall i :: 0 <= i < |s| ==> s[i] == 0xFF
  {
    seq(n + 1, i => 0xFF)
  }

  /** A marker segment: fill bytes, marker, length, data. */
  function SegmentBytes(fill: nat, marker: byte, data: seq<byte>): seq<byte>
    requires |data| + 2 < 0x1_0000
  {
    Fill(fill) + [marker, (|data| + 2) / 256, (|data| + 2) % 256] + data
  }

  predicate Writable(es: seq<Element>) {
    forall i :: 0 <= i < |es| ==> es[i].Valid()
  }

  function ElementsBytes(es: seq<Element>): seq<byte>
    requires Writable(es)
  {
    if |es| == 0 then [] else es[0].Bytes() + ElementsBytes(es[1..])
  }

  /** A frame: SOI, elements, fill bytes, SOS, the scan, EOI. */
  function Build(es: seq<Element>, fill: nat, sos: seq<byte>, scan: seq<byte>): seq<byte>
    requires Writable(es) && |sos| + 2 < 0x1_0000
  {
    [0xFF, SOI] + ElementsBytes(es) + SegmentBytes(fill, SOS, sos) + scan + [0xFF, EOI]
  }

  /** What the elements say, in order. */
  function Meaning(es: seq<Element>, info: Info): Info
    requires Writable(es)
    decreases |es|
  {
    if |es| == 0 then info else Meaning(es[1..], es[0].Apply(info))
  }

  predicate HasSize(es: seq<Element>) {
    exists i :: 0 <= i < |es| && es[i].Seg? && es[i].segment.Size?
  }

  // ------------------------------------------------------------------- proofs

  lemma DqtStep(t: Table, rest: seq<byte>, info: Info)
    requires t.Valid()
    ensures ParseDqt(t.Bytes() + rest, info)
         == if |info.tables| + |t.entries| > MAX_TABLES then None
            else ParseDqt(rest, info.(tables := info.tables + t.entries,
                                      precision := MarkWide(info.precision, t.wide, t.id)))
  {
    hide MarkWide;
    var d := t.Bytes() + rest;
    var n := TableSize(t.wide);
    assert d[0] == t.wide * 16 + t.id;
    assert d[1..1 + n] == t.entries && d[1 + n..] == rest;
  }

  lemma {:induction false} DqtOfTables(ts: seq<Table>, info: Info)
    requires forall i :: 0 <= i < |ts| ==> ts[i].Valid()
    ensures ParseDqt(TableBytes(ts), info)
         == if |info.tables| + |Entries(ts)| > MAX_TABLES && |ts| > 0 then None
            else Some(info.(tables := info.tables + Entries(ts), precision := MarkAll(info.precision, ts)))
    decreases |ts|
  {
    hide MarkWide, Table.Bytes;
    if |ts| == 0 {
      assert info.tables + [] == info.tables;
    } else {
      hide ParseDqt;
      var t := ts[0];
      var info' := info.(tables := info.tables + t.entries, precision := MarkWide(info.precision, t.wide, t.id));
      DqtStep(t, TableBytes(ts[1..]), info);
      DqtOfTables(ts[1..], info');
      assert info'.tables + Entries(ts[1..]) == info.tables + Entries(ts);
      if |ts| == 1 { assert Entries(ts[1..]) == []; }
    }
  }

  lemma SizeOf(g: Segment, info: Info)
    requires g.Valid() && g.Size?
    ensures ParseSof0(g.Data(), info) == Some(g.Apply(info))
  {
    var d, cs := g.Data(), g.components;
    assert d[0] == g.head && d[5] == |cs|;
    assert Be16(d, 1) == g.height && Be16(d, 3) == g.width;
    if |cs| >= 3 { assert d[7] == ComponentBytes(cs)[1] == cs[0].1; }
  }

  /** What a SOF0 segment must hold, and what is taken from it: dimensions in whole
      units of eight pixels, 0 above 2040, and type 1 for 4:2:0. */
  lemma SizeExactly(data: seq<byte>, info: Info)
    ensures ParseSof0(data, info).Some? <==> |data| >= 6 && 1 <= data[5] <= 4 && |data| >= 6 + 3 * data[5]
    ensures ParseSof0(data, info).Some? ==>
      var r, w, h := ParseSof0(data, info).value, Be16(data, 3), Be16(data, 1);
      && r == info.(width8 := r.width8, height8 := r.height8, ty := r.ty)
      && (if w <= 2040 then 0 <= w - 8 * r.width8 as int < 8 else r.width8 == 0)
      && (if h <= 2040 then 0 <= h - 8 * r.height8 as int < 8 else r.height8 == 0)
      && r.ty == if data[5] >= 3 && data[7] == 0x22 then 1 else 0
  {
  }

  /** A segment that keeps within 512 table bytes is parsed for what it says. */
  lemma SegmentOf(g: Segment, info: Info)
    requires g.Valid() && |info.tables| <= MAX_TABLES
    ensures ParseSegment(g.Marker(), g.Data(), info)
         == if |g.Apply(info).tables| > MAX_TABLES then None else Some(g.Apply(info))
  {
    hide ParseDqt, ParseSof0, MarkAll;
    match g
    case Tables(ts) => DqtOfTables(ts, info);
    case Size(_, _, _, _, _) => SizeOf(g, info);
    case Restart(i, _) => assert Be16(g.Data(), 0) == i;
    case Other(_, _) =>
  }

  lemma {:induction false} SkipFillIs(frame: seq<byte>, p: nat, q: nat)
    requires p <= q < |frame| && frame[q] != 0xFF && forall i :: p <= i < q ==> frame[i] == 0xFF
    ensures SkipFill(frame, p) == q
  {
  }

  /** `bytes` stand at offset `p`. */
  predicate At(frame: seq<byte>, p: nat, bytes: seq<byte>) {
    p + |bytes| <= |frame| && frame[p..p + |bytes|] == bytes
  }

  lemma AtIndex(frame: seq<byte>, p: nat, bytes: seq<byte>, i: nat)
    requires At(frame, p, bytes) && i < |bytes|
    ensures frame[p + i] == bytes[i]
  {
    assert frame[p..p + |bytes|][i] == frame[p + i];
  }

  /** Fill bytes and a marker: the scanner reaches the marker. */
  lemma MarkerAt(frame: seq<byte>, p: nat, fill: nat, marker: byte)
    requires At(frame, p, Fill(fill) + [marker]) && marker != 0xFF
    ensures frame[p] == 0xFF && SkipFill(frame, p + 1) == p + fill + 1 && frame[p + fill + 1] == marker
  {
    var bytes := Fill(fill) + [marker];
    forall i | 0 <= i < |bytes| ensures frame[p + i] == bytes[i] { AtIndex(frame, p, bytes, i); }
    forall j | p + 1 <= j < p + fill + 1 ensures frame[j] == 0xFF { assert frame[p + (j - p)] == bytes[j - p]; }
    SkipFillIs(frame, p + 1, p + fill + 1);
  }

  lemma SegmentAt(frame: seq<byte>, p: nat, fill: nat, marker: byte, data: seq<byte>)
    requires |data| + 2 < 0x1_0000 && At(frame, p, SegmentBytes(fill, marker, data))
    ensures var q, next := p + fill + 2, p + |SegmentBytes(fill, marker, data)|;
      && At(frame, p, Fill(fill) + [marker]) && q + 2 <= next <= |frame|
      && Be16(frame, q) == |data| + 2 && q + Be16(frame, q) == next && frame[q + 2..next] == data
  {
    var bytes := SegmentBytes(fill, marker, data);
    var whole := frame[p..p + |bytes|];
    assert whole[..fill + 2] == Fill(fill) + [marker];
    assert frame[p..p + fill + 2] == whole[..fill + 2];
    AtIndex(frame, p, bytes, fill + 2);
    AtIndex(frame, p, bytes, fill + 3);
    assert whole[fill + 4..] == data;
  }

  lemma NextBare(frame: seq<byte>, p: nat, fill: nat, marker: byte)
    requires Standalone(marker) && At(frame, p, Fill(fill) + [marker])
    ensures NextMarker(frame, p) == Some(Found(marker, p + fill + 2, p + fill + 2))
  {
    MarkerAt(frame, p, fill, marker);
    hide SkipFill, Fill;
  }

  lemma NextSegment(frame: seq<byte>, p: nat, fill: nat, marker: byte, data: seq<byte>)
    requires |data| + 2 < 0x1_0000 && At(frame, p, SegmentBytes(fill, marker, data))
    requires !Standalone(marker) && marker != 0xFF
    ensures var q, next := p + fill + 2, p + |SegmentBytes(fill, marker, data)|;
      NextMarker(frame, p) == Some(Found(marker, q, next)) && q + 2 <= next <= |frame| && frame[q + 2..next] == data
  {
    SegmentAt(frame, p, fill, marker, data);
    MarkerAt(frame, p, fill, marker);
    hide SkipFill, Fill, SegmentBytes, At, Standalone;
  }

  /** One element of a frame that does not overflow the tables. */
  lemma ElementStep(frame: seq<byte>, p: nat, e: Element, info: Info, sof: bool)
    requires e.Valid() && At(frame, p, e.Bytes()) && |info.tables| <= MAX_TABLES
    ensures ScanMarkers(frame, p, info, sof)
         == if |e.Apply(info).tables| > MAX_TABLES then None
            else ScanMarkers(frame, p + |e.Bytes()|, e.Apply(info), sof || (e.Seg? && e.segment.Size?))
  {
    hide SegmentBytes, ParseSegment, Fill, At, Segment.Apply, Segment.Data, NextMarker;
    match e
    case Bare(fill, marker) =>
      NextBare(frame, p, fill, marker);
    case Seg(fill, g) =>
      NextSegment(frame, p, fill, g.Marker(), g.Data());
      SegmentOf(g, info);
  }

  lemma {:induction false} ElementsScan(frame: seq<byte>, p: nat, es: seq<Element>, info: Info, sof: bool)
    requires Writable(es) && At(frame, p, ElementsBytes(es)) && |info.tables| <= MAX_TABLES
    ensures |Meaning(es, info).tables| >= |info.tables|
    ensures ScanMarkers(frame, p, info, sof)
         == if |Meaning(es, info).tables| > MAX_TABLES then None
            else ScanMarkers(frame, p + |ElementsBytes(es)|, Meaning(es, info), sof || HasSize(es))
    decreases |es|
  {
    hide Element.Bytes, Element.Apply, ScanMarkers;
    if |es| > 0 {
      var e, n := es[0], |es[0].Bytes()|;
      var bytes := ElementsBytes(es);
      assert bytes[..n] == e.Bytes() && bytes[n..] == ElementsBytes(es[1..]);
      assert frame[p..p + n] == frame[p..p + |bytes|][..n];
      assert frame[p + n..p + |bytes|] == frame[p..p + |bytes|][n..];
      ElementStep(frame, p, e, info, sof);
      TablesGrow(e, info);
      HasSizeStep(es);
      if |e.Apply(info).tables| <= MAX_TABLES {
        ElementsScan(frame, p + n, es[1..], e.Apply(info), sof || (e.Seg? && e.segment.Size?));
      } else {
        MeaningGrows(es[1..], e.Apply(info));
      }
    }
  }

  lemma TablesGrow(e: Element, info: Info)
    requires e.Valid()
    ensures |e.Apply(info).tables| >= |info.tables|
  {
  }

  lemma {:induction false} MeaningGrows(es: seq<Element>, info: Info)
    requires Writable(es)
    ensures |Meaning(es, info).tables| >= |info.tables|
    decreases |es|
  {
    hide Element.Apply;
    if |es| > 0 {
      TablesGrow(es[0], info);
      MeaningGrows(es[1..], es[0].Apply(info));
    }
  }

  lemma HasSizeStep(es: seq<Element>)
    requires |es| > 0
    ensures HasSize(es) <==> (es[0].Seg? && es[0].segment.Size?) || HasSize(es[1..])
  {
    if HasSize(es) {
      var i :| 0 <= i < |es| && es[i].Seg? && es[i].segment.Size?;
      if i > 0 { assert es[1..][i - 1] == es[i]; }
    }
    if HasSize(es[1..]) {
      var i :| 0 <= i < |es[1..]| && es[1..][i].Seg? && es[1..][i].segment.Size?;
      assert es[i + 1] == es[1..][i];
    }
  }

  /** The scan begins right after the SOS segment and ends before the final EOI. */
  lemma SosStep(frame: seq<byte>, p: nat, fill: nat, sos: seq<byte>, scan: seq<byte>, info: Info, sof: bool)
    requires |sos| + 2 < 0x1_0000 && At(frame, p, SegmentBytes(fill, SOS, sos))
    requires frame[p..] == SegmentBytes(fill, SOS, sos) + scan + [0xFF, EOI]
    ensures var start := p + |SegmentBytes(fill, SOS, sos)|;
      && ScanMarkers(frame, p, info, sof) == Some((info.(scanOffset := start, scanLen := |scan|), sof))
      && frame[start..start + |scan|] == scan
  {
    NextSegment(frame, p, fill, SOS, sos);
    hide SegmentBytes, NextMarker;
    var bytes := SegmentBytes(fill, SOS, sos);
    var rest := frame[p..];
    assert frame[|frame| - 2] == rest[|rest| - 2] == 0xFF && frame[|frame| - 1] == rest[|rest| - 1] == EOI;
    assert rest[|bytes|..|bytes| + |scan|] == scan;
  }

  /** Behind 0xFF, a marker 0, 1, 0xD0 to 0xD7 or 0xD9 stands alone; any other has
      a length in network order that counts itself. */
  lemma MarkerKinds(frame: seq<byte>, p: nat)
    requires p + 1 < |frame| && frame[p] == 0xFF && frame[p + 1] != 0xFF
    ensures var m, q := frame[p + 1], p + 2;
      NextMarker(frame, p)
      == if m <= 1 || 0xD0 <= m <= 0xD7 || m == 0xD9 then Some(Found(m, q, q))
         else if q + 2 <= |frame| && 2 <= Be16(frame, q) <= |frame| - q then Some(Found(m, q, q + Be16(frame, q)))
         else None
  {
    assert SkipFill(frame, p + 1) == p + 1;
  }

  /** What the parser returns for any frame of this shape: the meaning of its
      elements and the place of its scan, unless there is no size, no table or
      more than 512 bytes of tables. */
  lemma ParseBuilt(es: seq<Element>, fill: nat, sos: seq<byte>, scan: seq<byte>)
    requires Writable(es) && |sos| + 2 < 0x1_0000
    ensures var frame, m := Build(es, fill, sos, scan), Meaning(es, BLANK);
      var start := |frame| - 2 - |scan|;
      && frame[start..start + |scan|] == scan
      && ParseFrame(frame)
         == if HasSize(es) && 0 < |m.tables| <= 512
            then Some(m.(ty := (m.ty + if m.restart > 0 then 64 else 0) % 256, scanOffset := start, scanLen := |scan|))
            else None
  {
    hide ElementsBytes, SegmentBytes, ScanMarkers, Meaning, HasSize;
    var frame := Build(es, fill, sos, scan);
    var bytes, tail := ElementsBytes(es), SegmentBytes(fill, SOS, sos);
    var p := 2 + |bytes|;
    assert frame[2..p] == bytes;
    assert frame[p..] == tail + scan + [0xFF, EOI];
    assert frame[p..p + |tail|] == tail;
    SosLength(fill, sos);
    ElementsScan(frame, 2, es, BLANK, false);
    SosStep(frame, p, fill, sos, scan, Meaning(es, BLANK), HasSize(es));
  }

  lemma SosLength(fill: nat, sos: seq<byte>)
    requires |sos| + 2 < 0x1_0000
    ensures |SegmentBytes(fill, SOS, sos)| == 4 + fill + |sos|
  {
  }

  // ------------------------------------------------------------- an example

  /** A frame of 24 by 16 pixels with one table and a restart interval of 261. */
  function ExampleFrame(entries: seq<byte>): seq<byte> {
    [0xFF, 0xD8] + [0xFF, 0xDB, 0, 67, 0] + entries
    + [0xFF, 0xC0, 0, 17, 8, 0, 16, 0, 24, 3, 1, 0x22, 0, 2, 0x11, 1, 3, 0x11, 1]
    + [0xFF, 0xDD, 0, 4, 1, 5] + [0xFF, 0xDA, 0, 2] + [7, 8, 9] + [0xFF, 0xD9]
  }

  function ExampleElements(entries: seq<byte>): seq<Element> {
    [Seg(0, Tables([Table(0, 0, entries)])),
     Seg(0, Size(8, 16, 24, [(1, 0x22, 0), (2, 0x11, 1), (3, 0x11, 1)], [])),
     Seg(0, Restart(261, []))]
  }

  lemma OneFill(marker: byte, data: seq<byte>)
    requires |data| < 254
    ensures SegmentBytes(0, marker, data) == [0xFF, marker, 0, |data| + 2] + data
  {
    assert Fill(0) == [0xFF];
  }

  lemma ExampleTables(entries: seq<byte>)
    requires |entries| == 64
    ensures var e := ExampleElements(entries)[0];
      && e.Valid() && e.Bytes() == [0xFF, 0xDB, 0, 67, 0] + entries
      && forall info: Info :: e.Apply(info) == info.(tables := info.tables + entries)
  {
    var t := Table(0, 0, entries);
    assert [t][1..] == [];
    assert TableBytes([t]) == [0] + entries;
    assert Entries([t]) == entries;
    OneFill(0xDB, [0] + entries);
    forall info: Info ensures MarkAll(info.precision, [t]) == info.precision {
      assert MarkAll(info.precision, [t]) == MarkAll(MarkWide(info.precision, 0, 0), []);
    }
    hide SegmentBytes, TableBytes, Entries, MarkAll;
  }

  lemma ExampleSize(entries: seq<byte>)
    ensures var e := ExampleElements(entries)[1];
      && e.Valid() && e.Bytes() == [0xFF, 0xC0, 0, 17, 8, 0, 16, 0, 24, 3, 1, 0x22, 0, 2, 0x11, 1, 3, 0x11, 1]
      && forall info: Info :: e.Apply(info) == info.(width8 := 3, height8 := 2, ty := 1)
  {
    ExampleComponents();
    var e := ExampleElements(entries)[1];
    var d: seq<byte> := [8, 0, 16, 0, 24, 3, 1, 0x22, 0, 2, 0x11, 1, 3, 0x11, 1];
    assert e.segment.Data() == d;
    OneFill(0xC0, d);
    hide SegmentBytes, ComponentBytes, Segment.Data;
    assert [0xFF, 0xC0, 0, 17] + d == [0xFF, 0xC0, 0, 17, 8, 0, 16, 0, 24, 3, 1, 0x22, 0, 2, 0x11, 1, 3, 0x11, 1];
  }

  lemma ExampleComponents()
    ensures ComponentBytes([(1, 0x22, 0), (2, 0x11, 1), (3, 0x11, 1)]) == [1, 0x22, 0, 2, 0x11, 1, 3, 0x11, 1]
  {
    var cs: seq<(byte, byte, byte)> := [(1, 0x22, 0), (2, 0x11, 1), (3, 0x11, 1)];
    assert cs[1..] == [(2, 0x11, 1), (3, 0x11, 1)] && cs[1..][1..] == [(3, 0x11, 1)] && cs[1..][1..][1..] == [];
    assert ComponentBytes(cs[1..][1..]) == [3, 0x11, 1];
    assert ComponentBytes(cs[1..]) == [2, 0x11, 1] + [3, 0x11, 1];
    assert ComponentBytes(cs) == [1, 0x22, 0] + ([2, 0x11, 1] + [3, 0x11, 1]);
    hide ComponentBytes;
  }

  lemma ExampleRestart(entries: seq<byte>)
    ensures var e := ExampleElements(entries)[2];
      && e.Valid() && e.Bytes() == [0xFF, 0xDD, 0, 4, 1, 5]
      && forall info: Info :: e.Apply(info) == info.(restart := 261)
  {
    OneFill(0xDD, [1, 5] + []);
    assert [1, 5] + [] == [1, 5];
    hide SegmentBytes;
  }

  lemma ExampleElementsBytes(entries: seq<byte>)
    requires |entries| == 64
    ensures var es := ExampleElements(entries);
      && Writable(es) && HasSize(es)
      && ElementsBytes(es)
         == [0xFF, 0xDB, 0, 67, 0] + entries
            + [0xFF, 0xC0, 0, 17, 8, 0, 16, 0, 24, 3, 1, 0x22, 0, 2, 0x11, 1, 3, 0x11, 1] + [0xFF, 0xDD, 0, 4, 1, 5]
  {
    var es := ExampleElements(entries);
    ExampleTables(entries);
    ExampleSize(entries);
    ExampleRestart(entries);
    assert es[1].segment.Size?;
    hide Element.Bytes, Element.Apply, Element.Valid;
    var a, b := es[1..], es[1..][1..];
    assert a == [es[1], es[2]] && b == [es[2]] && b[1..] == [];
    assert ElementsBytes(b) == es[2].Bytes() + ElementsBytes([]);
    assert ElementsBytes(a) == es[1].Bytes() + ElementsBytes(b);
    assert ElementsBytes(es) == es[0].Bytes() + ElementsBytes(a);
  }

  lemma ExampleMeaning(entries: seq<byte>)
    requires |entries| == 64
    ensures var es := ExampleElements(entries);
      Writable(es) && Meaning(es, BLANK) == Info(1, 3, 2, 261, entries, 0, 0, 0)
  {
    var es := ExampleElements(entries);
    ExampleTables(entries);
    ExampleSize(entries);
    ExampleRestart(entries);
    hide Element.Bytes, Element.Apply, Element.Valid;
    var a, b := es[1..], es[1..][1..];
    assert a[0] == es[1] && b[0] == es[2] && b[1..] == [];
    assert [] + entries == entries;
    var i0 := es[0].Apply(BLANK);
    var i1 := es[1].Apply(i0);
    assert Meaning(b, i1) == es[2].Apply(i1);
    assert Meaning(a, i0) == Meaning(b, i1);
    assert Meaning(es, BLANK) == Meaning(a, i0);
  }

  lemma ExampleBuilt(entries: seq<byte>)
    requires |entries| == 64
    ensures var es := ExampleElements(entries);
      Writable(es) && HasSize(es) && Build(es, 0, [], [7, 8, 9]) == ExampleFrame(entries)
  {
    ExampleElementsBytes(entries);
    OneFill(0xDA, []);
    hide ElementsBytes, SegmentBytes, ExampleElements, HasSize, Writable;
  }

  /** The parser reads the frame for what it says: 4:2:0 with restart markers. */
  lemma ExampleRead(entries: seq<byte>)
    requires |entries| == 64
    ensures ParseFrame(ExampleFrame(entries)) == Some(Info(65, 3, 2, 261, entries, 0, 100, 3))
  {
    hide ParseFrame, Build, Meaning, HasSize, Writable, ExampleElements;
    ExampleBuilt(entries);
    ExampleMeaning(entries);
    ParseBuilt(ExampleElements(entries), 0, [], [7, 8, 9]);
  }
}
