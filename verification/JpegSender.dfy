/** The JPEG parser and sender as they run: a record filled in while a pointer
    walks the frame, then a loop over fragments. */
module JpegSender {
  import opened Bytes
  import opened Buffers
  import opened JpegFrame
  import opened RtpTransport
  import opened JpegTransport

  class FrameInfo {
    var ty: byte
    var width8: byte
    var height8: byte
    var restart: u16
    const qtData: array<byte>
    var qtLen: nat
    var precision: byte
    var scanOffset: nat
    var scanLen: nat

    ghost predicate Valid()
      reads this
    {
      qtData.Length == MAX_TABLES && qtLen <= MAX_TABLES
    }

    function Value(): Info
      requires Valid()
      reads this, qtData
    {
      Info(ty, width8, height8, restart, qtData[..qtLen], precision, scanOffset, scanLen)
    }

    constructor ()
      ensures Valid() && fresh(qtData) && Value() == BLANK
    {
      ty, width8, height8, restart, qtLen, precision, scanOffset, scanLen := 0, 0, 0, 0, 0, 0, 0, 0;
      qtData := new byte[MAX_TABLES](i => 0);
    }

    method ReadDqt(data: seq<byte>) returns (ret: int)
      requires Valid()
      modifies this`qtLen, this`precision, qtData
      ensures Valid()
      ensures ret == 0 || ret == -1
      ensures ParseDqt(data, old(Value())) == if ret == 0 then Some(Value()) else None
    {
      hide MarkWide;
      var p := 0;
      while p < |data|
        invariant Valid() && p <= |data|
        invariant ParseDqt(data, old(Value())) == ParseDqt(data[p..], Value())
      {
        ghost var rest, before := data[p..], Value();
        var pq, tq := data[p] / 16, data[p] % 16;
        p := p + 1;
        var size := TableSize(pq);
        if |data| - p < size { return -1; }
        if qtLen + size > MAX_TABLES { return -1; }
        assert rest[1..1 + size] == data[p..p + size] && rest[1 + size..] == data[p + size..];
        qtLen := Append(qtData, qtLen, data[p..p + size]);
        precision := MarkWide(precision, pq, tq);
        p := p + size;
        assert Value() == before.(tables := before.tables + rest[1..1 + size],
                                  precision := MarkWide(before.precision, pq, tq));
      }
      ret := 0;
    }

    method ReadSof0(data: seq<byte>) returns (ret: int)
      requires Valid()
      modifies this`ty, this`width8, this`height8
      ensures Valid()
      ensures ret == 0 || ret == -1
      ensures ParseSof0(data, old(Value())) == if ret == 0 then Some(Value()) else None
    {
      if |data| < 6 { return -1; }
      var height, width, nf := Be16(data, 1), Be16(data, 3), data[5];
      if nf < 1 || nf > 4 || |data| < 6 + nf * 3 { return -1; }
      width8 := if width > 2040 then 0 else width / 8;
      height8 := if height > 2040 then 0 else height / 8;
      ty := 0;
      if nf >= 3 && data[7] / 16 == 2 && data[7] % 16 == 2 { ty := 1; }
      ret := 0;
    }

    /** The effect of one marker segment other than SOS. */
    method ReadSegment(marker: byte, data: seq<byte>) returns (ret: int)
      requires Valid()
      modifies this, qtData
      ensures Valid()
      ensures ret == 0 || ret == -1
      ensures ParseSegment(marker, data, old(Value())) == if ret == 0 then Some(Value()) else None
    {
      hide ParseDqt, ParseSof0;
      if marker == DQT {
        ret := ReadDqt(data);
      } else if marker == SOF0 {
        ret := ReadSof0(data);
      } else if marker == DRI {
        if |data| < 2 { return -1; }
        restart := Be16(data, 0);
        ret := 0;
      } else {
        ret := 0;
      }
    }

    /** Walks the markers up to SOS, filling in this record. */
    method ReadFrame(frame: seq<byte>) returns (ret: int)
      requires Valid() && Value() == BLANK
      modifies this, qtData
      ensures Valid()
      ensures ret == 0 || ret == -1
      ensures ParseFrame(frame) == if ret == 0 then Some(Value()) else None
    {
      hide ScanMarkers;
      if |frame| < 4 || frame[0] != 0xFF || frame[1] != SOI { return -1; }
      var sof: bool;
      ret, sof := Walk(frame);
      if ret != 0 || !sof || qtLen == 0 { return -1; }
      if restart > 0 { ty := (ty + 64) % 256; }
    }

    method Walk(frame: seq<byte>) returns (ret: int, sof: bool)
      requires Valid() && Value() == BLANK && |frame| >= 4
      modifies this, qtData
      ensures Valid()
      ensures ret == 0 || ret == -1
      ensures ScanMarkers(frame, 2, BLANK, false) == if ret == 0 then Some((Value(), sof)) else None
    {
      hide ParseSegment, NextMarker, Standalone;
      var p := 2;
      sof := false;
      while p < |frame| - 1
        invariant Valid() && p <= |frame|
        invariant ScanMarkers(frame, 2, BLANK, false) == ScanMarkers(frame, p, Value(), sof)
        decreases |frame| - p
      {
        var found := ReadMarker(frame, p);
        if found.None? { return -1, sof; }
        var Found(marker, q, next) := found.value;
        p := next;
        if Standalone(marker) { continue; }
        if marker == SOS {
          if next >= |frame| - 1 { return -1, sof; }
          if frame[|frame| - 2] != 0xFF || frame[|frame| - 1] != EOI { return -1, sof; }
          scanOffset, scanLen := next, |frame| - 2 - next;
          return 0, sof;
        }
        ret := ReadSegment(marker, frame[q + 2..next]);
        if ret != 0 { return -1, sof; }
        sof := sof || marker == SOF0;
      }
      NoMarkerLeft(frame, p);
      ret := -1;
    }
  }

  lemma NoMarkerLeft(frame: seq<byte>, p: nat)
    requires p >= |frame| - 1
    ensures NextMarker(frame, p) == None
  {
  }

  /** Passes fill bytes, reads a marker and, if it has one, its segment length. */
  method ReadMarker(frame: seq<byte>, start: nat) returns (r: Option<Found>)
    requires start < |frame| - 1
    ensures r == NextMarker(frame, start)
  {
    hide SkipFill;
    var p := start;
    if frame[p] != 0xFF { return None; }
    p := SkipFillLoop(frame, p + 1);
    if p >= |frame| { return None; }
    var marker := frame[p];
    p := p + 1;
    if Standalone(marker) { return Some(Found(marker, p, p)); }
    if |frame| - p < 2 { return None; }
    var segLen := Be16(frame, p);
    if segLen < 2 || p + segLen > |frame| { return None; }
    return Some(Found(marker, p, p + segLen));
  }

  method SkipFillLoop(frame: seq<byte>, start: nat) returns (p: nat)
    requires start <= |frame|
    ensures p == SkipFill(frame, start)
  {
    p := start;
    while p < |frame| && frame[p] == 0xFF
      invariant start <= p <= |frame| && SkipFill(frame, start) == SkipFill(frame, p)
    {
      p := p + 1;
    }
  }

  class Sender {
    const rtp: Transport
    const maxFragmentSize: nat

    constructor (rtp: Transport, maxFragmentSize: nat)
      ensures this.rtp == rtp && this.maxFragmentSize == maxFragmentSize
    {
      this.rtp, this.maxFragmentSize := rtp, maxFragmentSize;
    }

    /** Sends a frame.  A frame that is refused sends nothing; after a failed
        packet nothing more is sent. */
    method SendFrame(timestamp: u32, frame: seq<byte>) returns (ret: int)
      requires rtp.Valid()
      modifies rtp
      ensures rtp.Valid() && rtp.Config() == old(rtp.Config())
      ensures ret == 0 || ret == -1
      ensures match FrameOuts(frame, maxFragmentSize)
        case None => ret == -1 && rtp.sent == old(rtp.sent) && rtp.attempts == old(rtp.attempts)
        case Some(outs) =>
          && old(|rtp.sent|) <= |rtp.sent| <= old(|rtp.sent|) + |outs|
          && var ps := Packets(rtp.Config(), old(rtp.seqNum), timestamp, outs);
          && rtp.sent == old(rtp.sent) + ps[..|rtp.sent| - old(|rtp.sent|)]
          && (ret == 0 <==> |rtp.sent| == old(|rtp.sent|) + |outs|)
    {
      hide ParseFrame, Outs, Packets;
      var info := new FrameInfo();
      ret := info.ReadFrame(frame);
      if ret != 0 { return -1; }
      if info.scanLen == 0 || info.scanLen > 0xFF_FFFF { return -1; }
      var v := info.Value();
      if 8 + (if info.restart > 0 then 4 else 0) + 4 + info.qtLen >= maxFragmentSize { return -1; }
      ret := SendScan(timestamp, info, frame[info.scanOffset..info.scanOffset + info.scanLen]);
    }

    method SendScan(timestamp: u32, info: FrameInfo, scan: seq<byte>) returns (ret: int)
      requires rtp.Valid() && info.Valid() && FirstHeaderSize(info.Value()) < maxFragmentSize
      modifies rtp
      ensures rtp.Valid() && rtp.Config() == old(rtp.Config())
      ensures ret == 0 || ret == -1
      ensures var outs := Outs(info.Value(), scan, 0, maxFragmentSize);
        && old(|rtp.sent|) <= |rtp.sent| <= old(|rtp.sent|) + |outs|
        && var ps := Packets(rtp.Config(), old(rtp.seqNum), timestamp, outs);
        && rtp.sent == old(rtp.sent) + ps[..|rtp.sent| - old(|rtp.sent|)]
        && (ret == 0 <==> |rtp.sent| == old(|rtp.sent|) + |outs|)
    {
      hide Packet, Packets, Outs, FirstHeaderSize;
      var v := info.Value();
      ghost var outs := Outs(v, scan, 0, maxFragmentSize);
      ghost var packets := Packets(rtp.Config(), rtp.seqNum, timestamp, outs);
      var offset, first := 0, true;
      ghost var k := 0;
      while offset < |scan|
        invariant rtp.Valid() && rtp.Config() == old(rtp.Config()) && info.Value() == v
        invariant offset <= |scan| && first == (offset == 0)
        invariant k <= |outs| && outs[k..] == Outs(v, scan, offset, maxFragmentSize)
        invariant rtp.seqNum == SeqAfter(old(rtp.seqNum), k)
        invariant rtp.sent == old(rtp.sent) + packets[..k]
      {
        var chunk: nat;
        ret, chunk := SendChunk(timestamp, info, scan, offset, first);
        if ret != 0 { return -1; }
        NextOut(rtp.Config(), old(rtp.seqNum), timestamp, outs, k, v, scan, offset, maxFragmentSize);
        offset, first, k := offset + chunk, false, k + 1;
      }
      OutsEnd(v, scan, maxFragmentSize);
      ret := 0;
    }

    /** Sends the packet at `offset`. */
    method SendChunk(timestamp: u32, info: FrameInfo, scan: seq<byte>, offset: nat, first: bool)
      returns (ret: int, chunk: nat)
      requires rtp.Valid() && info.Valid() && FirstHeaderSize(info.Value()) < maxFragmentSize
      requires offset < |scan| && first == (offset == 0)
      modifies rtp
      ensures rtp.Valid() && rtp.Config() == old(rtp.Config()) && info.Value() == old(info.Value())
      ensures ret == 0 || ret == -1
      ensures chunk == ChunkAt(offset, info.Value(), scan, maxFragmentSize)
      ensures ret == 0 ==> rtp.seqNum == SeqAfter(old(rtp.seqNum), 1)
      ensures var body := HeaderAt(offset, info.Value()) + scan[offset..offset + chunk];
        var packet := Packet(rtp.Config(), old(rtp.seqNum), offset + chunk >= |scan|, timestamp, body);
        ret == 0 ==> rtp.sent == old(rtp.sent) + [packet]
      ensures ret == -1 ==> rtp.sent == old(rtp.sent)
    {
      hide Packet, HeaderAt, FirstHeaderSize;
      var header := WriteHeader(info, offset, first);
      HeaderFits(offset, info.Value());
      var avail := maxFragmentSize - |header|;
      var remaining := |scan| - offset;
      chunk := if remaining < avail then remaining else avail;
      var last := offset + chunk >= |scan|;
      ret := rtp.SendPacket(timestamp, last, header, scan[offset..offset + chunk]);
    }

    /** The header buffer of one packet, rewritten for each. */
    method WriteHeader(info: FrameInfo, offset: nat, first: bool) returns (header: seq<byte>)
      requires info.Valid() && first == (offset == 0)
      ensures header == HeaderAt(offset, info.Value())
    {
      hide MainHeader, RestartHeader, TablesHeader;
      var v := info.Value();
      var buf := new byte[FirstHeaderSize(v)];
      HeaderSizes(v);
      var p := Append(buf, 0, MainHeader(offset, v));
      p := WriteRestart(info, buf, p);
      if first { p := WriteTables(info, buf, p); }
      header := buf[..p];
    }
  }

  lemma HeaderSizes(v: Info)
    ensures 8 + |RestartHeader(v)| + |TablesHeader(v)| == FirstHeaderSize(v)
  {
  }

  method WriteRestart(info: FrameInfo, buf: array<byte>, at: nat) returns (p: nat)
    requires info.Valid() && at + |RestartHeader(info.Value())| <= buf.Length && buf != info.qtData
    modifies buf
    ensures info.Value() == old(info.Value())
    ensures p == at + |RestartHeader(info.Value())| && buf[..p] == old(buf[..at]) + RestartHeader(info.Value())
  {
    p := at;
    if info.restart > 0 {
      p := Append(buf, p, [info.restart / 256, info.restart % 256, 0xFF, 0xFF]);
    }
  }

  method WriteTables(info: FrameInfo, buf: array<byte>, at: nat) returns (p: nat)
    requires info.Valid() && at + |TablesHeader(info.Value())| <= buf.Length && buf != info.qtData
    modifies buf
    ensures info.Value() == old(info.Value())
    ensures p == at + |TablesHeader(info.Value())| && buf[..p] == old(buf[..at]) + TablesHeader(info.Value())
  {
    p := Append(buf, at, [0, info.precision, info.qtLen / 256 % 256, info.qtLen % 256]);
    p := Append(buf, p, info.qtData[..info.qtLen]);
  }

  lemma OutsStep(info: Info, scan: seq<byte>, offset: nat, max: nat)
    requires offset < |scan| && FirstHeaderSize(info) < max
    ensures var n := ChunkAt(offset, info, scan, max);
      Outs(info, scan, offset, max)
      == [Outgoing(offset + n >= |scan|, HeaderAt(offset, info) + scan[offset..offset + n])]
         + Outs(info, scan, offset + n, max)
  {
    hide HeaderAt;
  }

  /** The packet after the first `k`. */
  lemma NextOut(s: Stream, q: u16, timestamp: u32, outs: seq<Outgoing>, k: nat, info: Info, scan: seq<byte>,
                offset: nat, max: nat)
    requires s.Valid() && offset < |scan| && FirstHeaderSize(info) < max
    requires k <= |outs| && outs[k..] == Outs(info, scan, offset, max)
    ensures SeqAfter(SeqAfter(q, k), 1) == SeqAfter(q, k + 1)
    ensures var n := ChunkAt(offset, info, scan, max);
      && k < |outs| && outs[k + 1..] == Outs(info, scan, offset + n, max)
      && Packets(s, q, timestamp, outs)[..k + 1] == Packets(s, q, timestamp, outs)[..k]
         + [Packet(s, SeqAfter(q, k), offset + n >= |scan|, timestamp,
                   HeaderAt(offset, info) + scan[offset..offset + n])]
  {
    OutsStep(info, scan, offset, max);
    hide Packet, Packets, Outs, HeaderAt, FirstHeaderSize;
    assert outs[k] == outs[k..][0] && outs[k + 1..] == outs[k..][1..];
    PacketsNext(s, q, timestamp, outs, k);
  }

  lemma OutsEnd(info: Info, scan: seq<byte>, max: nat)
    requires FirstHeaderSize(info) < max
    ensures Outs(info, scan, |scan|, max) == []
  {
  }

  lemma HeaderFits(offset: nat, info: Info)
    ensures |HeaderAt(offset, info)| <= FirstHeaderSize(info)
  {
  }
}
