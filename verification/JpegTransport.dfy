/** Sending JPEG frames over RTP (section 3.1 of RFC 2435) and reassembling them
    from the packets alone. */
module JpegTransport {
  import opened Bytes
  import opened JpegFrame
  import opened JpegTables
  import opened RtpTransport
  import opened RtpOrder
  import SrtpSession

  // ------------------------------------------------------------ packet headers

  /** The main header: 24-bit fragment offset, type, Q = 255, width, height. */
  function MainHeader(offset: nat, info: Info): (s: seq<byte>)
    ensures |s| == 8
  {
    [0, offset / 0x1_0000 % 256, offset / 256 % 256, offset % 256, info.ty, 255, info.width8, info.height8]
  }

  /** On every packet of a frame with restart markers. */
  function RestartHeader(info: Info): seq<byte> {
    if info.restart > 0 then [info.restart / 256, info.restart % 256, 0xFF, 0xFF] else []
  }

  /** On the first packet only: the tables travel in band. */
  function TablesHeader(info: Info): seq<byte> {
    [0, info.precision, |info.tables| / 256 % 256, |info.tables| % 256] + info.tables
  }

  function HeaderAt(offset: nat, info: Info): seq<byte> {
    MainHeader(offset, info) + RestartHeader(info) + if offset == 0 then TablesHeader(info) else []
  }

  function FirstHeaderSize(info: Info): nat {
    8 + (if info.restart > 0 then 4 else 0) + 4 + |info.tables|
  }

  /** How many scan bytes the packet at `offset` takes. */
  function ChunkAt(offset: nat, info: Info, scan: seq<byte>, max: nat): (n: nat)
    requires offset < |scan| && FirstHeaderSize(info) < max
    ensures 0 < n <= |scan| - offset
    ensures |HeaderAt(offset, info)| + n <= max
  {
    Min(|scan| - offset, max - |HeaderAt(offset, info)|)
  }

  /** The RTP payloads from `offset` on. */
  function Outs(info: Info, scan: seq<byte>, offset: nat, max: nat): (outs: seq<Outgoing>)
    requires offset <= |scan| && FirstHeaderSize(info) < max
    ensures offset < |scan| ==> |outs| > 0
    ensures forall i :: 0 <= i < |outs| ==> |outs[i].body| <= max
    decreases |scan| - offset
  {
    if offset == |scan| then []
    else
      var n := ChunkAt(offset, info, scan, max);
      [Outgoing(offset + n >= |scan|, HeaderAt(offset, info) + scan[offset..offset + n])]
      + Outs(info, scan, offset + n, max)
  }

  /** What the sender does with a frame: nothing, or these payloads. */
  function FrameOuts(frame: seq<byte>, max: nat): Option<seq<Outgoing>> {
    match ParseFrame(frame)
    case None => None
    case Some(info) =>
      if info.scanLen == 0 || info.scanLen > 0xFF_FFFF || FirstHeaderSize(info) >= max then None
      else Some(Outs(info, frame[info.scanOffset..info.scanOffset + info.scanLen], 0, max))
  }

  /** The bytes of the headers: type-specific 0, a 24-bit offset, type, Q = 255 and
      dimensions; interval and 0xFFFF if there are restart markers; on the first
      packet 0, precision, length and the tables. */
  lemma HeaderBytes(offset: nat, info: Info)
    requires offset <= 0xFF_FFFF && |info.tables| <= 512
    ensures var s := HeaderAt(offset, info);
      var at := if info.restart > 0 then 12 else 8;
      && |s| >= at && s[0] == 0 && Be32(s, 0) == offset && s[4] == info.ty && s[5] == 255
      && s[6] == info.width8 && s[7] == info.height8
      && (info.restart > 0 ==> Be16(s, 8) == info.restart && s[10] == 0xFF && s[11] == 0xFF)
      && (offset > 0 ==> |s| == at)
      && (offset == 0 ==>
          && |s| == at + 4 + |info.tables| && s[at] == 0 && s[at + 1] == info.precision
          && Be16(s, at + 2) == |info.tables| && s[at + 4..] == info.tables)
  {
    assert offset / 256 / 256 == offset / 0x1_0000;
    var s := HeaderAt(offset, info);
    if offset == 0 {
      var at := if info.restart > 0 then 12 else 8;
      assert s[at..] == TablesHeader(info);
      assert s[at..][4..] == info.tables && s[at + 4..] == s[at..][4..];
    }
  }

  /** Every packet but the last fills the maximum. */
  lemma {:induction false} FullPackets(info: Info, scan: seq<byte>, offset: nat, max: nat, i: nat)
    requires offset <= |scan| && FirstHeaderSize(info) < max && i + 1 < |Outs(info, scan, offset, max)|
    ensures |Outs(info, scan, offset, max)[i].body| == max
    decreases i
  {
    hide HeaderAt;
    var n := ChunkAt(offset, info, scan, max);
    assert Outs(info, scan, offset, max)[1..] == Outs(info, scan, offset + n, max);
    if i > 0 {
      FullPackets(info, scan, offset + n, max, i - 1);
    } else {
      assert offset + n < |scan|;
    }
  }

  /** What a frame needs to be sent. */
  lemma SentExactly(frame: seq<byte>, max: nat)
    ensures FrameOuts(frame, max).Some? <==>
      && ParseFrame(frame).Some?
      && var info := ParseFrame(frame).value;
         && 0 < info.scanLen <= 16777215
         && 12 + (if info.restart > 0 then 4 else 0) + |info.tables| < max
  {
    hide ParseFrame, Outs;
  }

  // -------------------------------------------------------------- the receiver

  /** What a receiver learns about a frame from packet bytes alone. */
  datatype Received = Received(ty: byte, width8: byte, height8: byte, restart: u16,
                               precision: byte, tableData: seq<byte>, scan: seq<byte>) {
    /** The quantization tables, cut by the precision bits. */
    function Tables(): Option<seq<seq<byte>>> { SplitTables(precision, tableData) }
  }

  function RestartSize(body: seq<byte>): nat
    requires |body| >= 8
  {
    if 64 <= body[4] < 128 then 4 else 0
  }

  function OffsetOf(body: seq<byte>): nat
    requires |body| >= 8
  {
    body[1] as int * 0x1_0000 + body[2] as int * 256 + body[3] as int
  }

  /** The first packet of a frame. */
  function FirstPacket(body: seq<byte>): Option<Received> {
    if |body| < 8 || OffsetOf(body) != 0 || body[5] < 128 || |body| < 12 + RestartSize(body) then None
    else
      var at := 8 + RestartSize(body);
      var n := Be16(body, at + 2);
      if |body| < at + 4 + n then None
      else Some(Received(body[4], body[6], body[7], if RestartSize(body) == 4 then Be16(body, 8) else 0,
                         body[at + 1], body[at + 4..at + 4 + n], body[at + 4 + n..]))
  }

  /** A later packet: it must continue where the previous one stopped and agree
      with the first about everything else. */
  function Continue(r: Received, body: seq<byte>): Option<Received> {
    if |body| < 8 || OffsetOf(body) != |r.scan| || (body[4], body[6], body[7]) != (r.ty, r.width8, r.height8)
       || |body| < 8 + RestartSize(body)
       || (RestartSize(body) == 4 && Be16(body, 8) != r.restart) then None
    else Some(r.(scan := r.scan + body[8 + RestartSize(body)..]))
  }

  /** Later packets up to the marker, which must be on the last one. */
  function Collect(r: Received, outs: seq<Outgoing>): Option<Received>
    decreases |outs|
  {
    if |outs| == 0 then None
    else
      match Continue(r, outs[0].body)
      case None => None
      case Some(r') =>
        if outs[0].marker then (if |outs| == 1 then Some(r') else None) else Collect(r', outs[1..])
  }

  function Reassemble(outs: seq<Outgoing>): Option<Received> {
    if |outs| == 0 then None
    else
      match FirstPacket(outs[0].body)
      case None => None
      case Some(r) =>
        if outs[0].marker then (if |outs| == 1 then Some(r) else None) else Collect(r, outs[1..])
  }

  /** The type says whether there is a restart header, and the fields fit. */
  predicate Sendable(info: Info) {
    && |info.tables| <= MAX_TABLES
    && (64 <= info.ty < 128 <==> info.restart > 0)
  }

  function Learned(info: Info, scan: seq<byte>): Received {
    Received(info.ty, info.width8, info.height8, info.restart, info.precision, info.tables, scan)
  }

  lemma OffsetRoundTrip(offset: nat, info: Info, rest: seq<byte>)
    requires offset <= 0xFF_FFFF
    ensures var body := MainHeader(offset, info) + rest;
      && OffsetOf(body) == offset && body[4] == info.ty && body[5] == 255
      && body[6] == info.width8 && body[7] == info.height8
  {
    assert offset / 256 / 256 == offset / 0x1_0000;
  }

  lemma RestartFields(offset: nat, info: Info, rest: seq<byte>)
    requires offset <= 0xFF_FFFF && Sendable(info)
    ensures var body := MainHeader(offset, info) + RestartHeader(info) + rest;
      && OffsetOf(body) == offset && body[4] == info.ty && body[5] == 255
      && body[6] == info.width8 && body[7] == info.height8
      && RestartSize(body) == |RestartHeader(info)|
      && (info.restart > 0 ==> Be16(body, 8) == info.restart)
      && body[8 + RestartSize(body)..] == rest
  {
    hide MainHeader;
    var body := MainHeader(offset, info) + RestartHeader(info) + rest;
    assert body == MainHeader(offset, info) + (RestartHeader(info) + rest);
    OffsetRoundTrip(offset, info, RestartHeader(info) + rest);
  }

  lemma OpenFirst(info: Info, chunk: seq<byte>)
    requires Sendable(info)
    ensures FirstPacket(HeaderAt(0, info) + chunk) == Some(Learned(info, chunk))
  {
    hide MainHeader;
    var rest := TablesHeader(info) + chunk;
    var body := HeaderAt(0, info) + chunk;
    assert body == MainHeader(0, info) + RestartHeader(info) + rest;
    RestartFields(0, info, rest);
    hide OffsetOf, RestartSize, RestartHeader, HeaderAt, TablesHeader;
    TablesFields(body, 8 + RestartSize(body), info, chunk);
  }

  lemma TablesFields(body: seq<byte>, at: nat, info: Info, chunk: seq<byte>)
    requires |info.tables| <= MAX_TABLES && at <= |body| && body[at..] == TablesHeader(info) + chunk
    ensures var n := |info.tables|;
      && |body| >= at + 4 + n && body[at + 1] == info.precision && Be16(body, at + 2) == n
      && body[at + 4..at + 4 + n] == info.tables && body[at + 4 + n..] == chunk
  {
    var rest, n := TablesHeader(info) + chunk, |info.tables|;
    assert body[at + 1] == rest[1] && body[at + 2] == rest[2] && body[at + 3] == rest[3];
    assert body[at + 4..at + 4 + n] == rest[4..4 + n] == info.tables;
    assert body[at + 4 + n..] == rest[4 + n..] == chunk;
  }

  lemma ContinueNext(info: Info, scan: seq<byte>, offset: nat, chunk: seq<byte>)
    requires Sendable(info) && 0 < offset <= |scan| && offset <= 0xFF_FFFF
    ensures Continue(Learned(info, scan[..offset]), HeaderAt(offset, info) + chunk)
         == Some(Learned(info, scan[..offset] + chunk))
  {
    hide MainHeader;
    var body := HeaderAt(offset, info) + chunk;
    assert body == MainHeader(offset, info) + RestartHeader(info) + chunk;
    RestartFields(offset, info, chunk);
  }

  lemma {:induction false} CollectRest(info: Info, scan: seq<byte>, offset: nat, max: nat)
    requires Sendable(info) && 0 < offset < |scan| <= 0xFF_FFFF && FirstHeaderSize(info) < max
    ensures Collect(Learned(info, scan[..offset]), Outs(info, scan, offset, max)) == Some(Learned(info, scan))
    decreases |scan| - offset
  {
    hide HeaderAt, Continue, Learned;
    var n := ChunkAt(offset, info, scan, max);
    var outs := Outs(info, scan, offset, max);
    ContinueNext(info, scan, offset, scan[offset..offset + n]);
    assert scan[..offset] + scan[offset..offset + n] == scan[..offset + n];
    assert outs[1..] == Outs(info, scan, offset + n, max);
    if offset + n < |scan| {
      CollectRest(info, scan, offset + n, max);
    } else {
      assert scan[..offset + n] == scan;
    }
  }

  /** The payloads of a frame tell a receiver its table data and exactly its scan:
      offsets are contiguous and the marker is on the last packet only. */
  lemma ReassembleOuts(info: Info, scan: seq<byte>, max: nat)
    requires Sendable(info) && 0 < |scan| <= 0xFF_FFFF && FirstHeaderSize(info) < max
    ensures Reassemble(Outs(info, scan, 0, max)) == Some(Learned(info, scan))
  {
    hide HeaderAt, FirstPacket, Learned, Collect;
    var n := ChunkAt(0, info, scan, max);
    var outs := Outs(info, scan, 0, max);
    OpenFirst(info, scan[0..n]);
    assert outs[1..] == Outs(info, scan, n, max);
    assert scan[0..n] == scan[..n];
    if n < |scan| {
      CollectRest(info, scan, n, max);
    } else {
      assert scan[..n] == scan;
    }
  }

  // -------------------------------------------------- frames, end to end

  lemma {:induction false} ScannedType(frame: seq<byte>, p: nat, info: Info, sof: bool)
    requires ScanMarkers(frame, p, info, sof).Some? && info.ty < 2
    ensures ScanMarkers(frame, p, info, sof).value.0.ty < 2
    decreases |frame| - p
  {
    hide NextMarker, ParseSegment, Standalone;
    var Found(marker, q, next) := NextMarker(frame, p).value;
    if Standalone(marker) {
      ScannedType(frame, next, info, sof);
    } else if marker != SOS {
      SegmentType(marker, frame[q + 2..next], info);
      ScannedType(frame, next, ParseSegment(marker, frame[q + 2..next], info).value, sof || marker == SOF0);
    }
  }

  lemma SegmentType(marker: byte, data: seq<byte>, info: Info)
    requires ParseSegment(marker, data, info).Some? && info.ty < 2
    ensures ParseSegment(marker, data, info).value.ty < 2
  {
    if marker == DQT { DqtType(data, info); }
  }

  lemma {:induction false} DqtType(data: seq<byte>, info: Info)
    requires ParseDqt(data, info).Some?
    ensures ParseDqt(data, info).value.ty == info.ty
    decreases |data|
  {
    hide MarkWide;
    if |data| > 0 {
      var pq, tq := data[0] / 16, data[0] % 16;
      var size := TableSize(pq);
      DqtType(data[1 + size..],
              info.(tables := info.tables + data[1..1 + size], precision := MarkWide(info.precision, pq, tq)));
    }
  }

  lemma ParsedIsSendable(frame: seq<byte>)
    requires ParseFrame(frame).Some?
    ensures Sendable(ParseFrame(frame).value)
  {
    hide ScanMarkers;
    ScannedType(frame, 2, BLANK, false);
  }

  /** Whatever byte string is sent as a frame: if it is accepted, the payloads
      give a receiver what the parser read and the bytes of the scan. */
  lemma FrameRoundTrip(frame: seq<byte>, max: nat)
    requires FrameOuts(frame, max).Some?
    ensures var info := ParseFrame(frame).value;
      Reassemble(FrameOuts(frame, max).value)
      == Some(Learned(info, frame[info.scanOffset..info.scanOffset + info.scanLen]))
  {
    hide ParseFrame, Reassemble, Learned, Outs, FirstHeaderSize;
    ParsedIsSendable(frame);
    var info := ParseFrame(frame).value;
    ReassembleOuts(info, frame[info.scanOffset..info.scanOffset + info.scanLen], max);
  }

  /** From the RTP packets of a frame made of known elements, a receiver recovers
      exactly its scan and all its table data; it recovers the tables one by one
      exactly when the wide ones stand where their ids say. */
  lemma BuiltFrameRoundTrip(s: Stream, seqNum: u16, timestamp: u32, es: seq<Element>, fill: nat, sos: seq<byte>,
                            scan: seq<byte>, max: nat)
    requires s.Valid() && Writable(es) && |sos| + 2 < 0x1_0000
    requires FrameOuts(Build(es, fill, sos, scan), max).Some?
    ensures var m, outs := Meaning(es, BLANK), FrameOuts(Build(es, fill, sos, scan), max).value;
      var read := OpenAll(Packets(s, seqNum, timestamp, outs));
      && read.Some?
      && var r := Reassemble(read.value);
         && r.Some? && r.value.tableData == m.tables && r.value.scan == scan
         && (r.value.width8, r.value.height8) == (m.width8, m.height8)
         && (r.value.restart, r.value.precision) == (m.restart, m.precision)
         && (r.value.Tables() == Some(Contents(TablesOf(es))) <==> WideInPlace(TablesOf(es)))
  {
    hide Build, Meaning, ParseFrame, Reassemble, Outs, Packets, HasSize, SplitTables, Contents, TablesOf, WideInPlace;
    ParseBuilt(es, fill, sos, scan);
    FrameRoundTrip(Build(es, fill, sos, scan), max);
    OpenPackets(s, seqNum, timestamp, FrameOuts(Build(es, fill, sos, scan), max).value);
    FrameTables(es);
  }

  /** The same through an SRTP session, once all packets of the frame were
      accepted, in whatever order: the receiver arranges them by sequence number. */
  lemma FrameOverSrtp(w: SrtpSession.World, events: seq<SrtpSession.Event>, s: SrtpSession.System, js: seq<nat>,
                      seqNum: u16, timestamp: u32, frame: seq<byte>, max: nat)
    requires w.Valid() && SrtpSession.Run(w, events) == Some(s) && Accepted(s, js)
    requires FrameOuts(frame, max).Some?
    requires var ps := Packets(w.stream, seqNum, timestamp, FrameOuts(frame, max).value);
      |ps| <= 0x1_0000 && forall p :: p in Originals(s, js) <==> p in ps
    ensures var info, n := ParseFrame(frame).value, |FrameOuts(frame, max).value|;
      var read := OpenAll(Arrange(Results(s, js), seqNum, n));
      && read.Some?
      && Reassemble(read.value) == Some(Learned(info, frame[info.scanOffset..info.scanOffset + info.scanLen]))
  {
    hide SrtpSession.Run, Packets, OpenAll, Reassemble, Learned, FrameOuts, ParseFrame;
    hide Arrange, Results, Originals, Numbered;
    var outs := FrameOuts(frame, max).value;
    PacketsNumbered(w.stream, seqNum, timestamp, outs);
    ListOverSrtp(w, events, s, js, seqNum, Packets(w.stream, seqNum, timestamp, outs));
    OpenPackets(w.stream, seqNum, timestamp, outs);
    FrameRoundTrip(frame, max);
  }

  /** A frame that is sent and whose only table no receiver gets back. */
  lemma WideTableLost()
    ensures var t := Table(1, 1, Zeros(128));
      var es := [Seg(0, Size(8, 16, 16, [(1, 0x11, 0)], [])), Seg(0, Segment.Tables([t]))];
      && Writable(es)
      && var outs := FrameOuts(Build(es, 0, [], [7]), 1400);
         && outs.Some? && var r := Reassemble(outs.value);
         r.Some? && r.value.Tables() == None
  {
    var t := Table(1, 1, Zeros(128));
    var es := [Seg(0, Size(8, 16, 16, [(1, 0x11, 0)], [])), Seg(0, Segment.Tables([t]))];
    WideTableMisread();
    hide Build, Meaning, ParseFrame, Reassemble, Outs, HasSize, SplitTables, Writable;
    ParseBuilt(es, 0, [], [7]);
    FrameRoundTrip(Build(es, 0, [], [7]), 1400);
  }
}
