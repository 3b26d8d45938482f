/** The RTP sender of src/rtp_transport.c: sequence numbers, statistics and the
    optional one-byte header extension of RFC 8285. */
module RtpTransport {
  import opened Bytes
  import opened RtpHeader
  import opened Buffers
  import Srtp

  /** What stays the same from packet to packet. */
  datatype Stream = Stream(ssrc: u32, payloadTy: byte, extension: seq<byte>) {
    predicate Valid() {
      payloadTy < 128 && |extension| % 4 == 0 && |extension| <= 12
    }
  }

  lemma WholeWords(n: nat)
    requires n % 4 == 0
    ensures 4 * ((n + 3) / 4) == n
  {
  }

  function PacketHeader(s: Stream, seqNum: u16, marker: bool, timestamp: u32): (h: Header)
    requires s.Valid()
    ensures h.Valid() && h.version == 2
  {
    WholeWords(|s.extension|);
    Header(2, false, |s.extension| > 0, 0, marker, s.payloadTy,
           Swap16(seqNum), Swap32(timestamp), Swap32(s.ssrc), [],
           Swap16(0xBEDE), (|s.extension| + 3) / 4, s.extension)
  }

  function Packet(s: Stream, seqNum: u16, marker: bool, timestamp: u32, body: seq<byte>): seq<byte>
    requires s.Valid()
  {
    PacketHeader(s, seqNum, marker, timestamp).Serialize() + body
  }

  /** The marker bit and the payload of an RTP packet, as a receiver reads them. */
  function Open(packet: seq<byte>): Option<(bool, seq<byte>)> {
    match Deserialize(packet)
    case None => None
    case Some((h, n)) => Some((h.marker, packet[n..]))
  }

  /** A receiver finds the marker and the payload that were sent, and SRTP finds
      the sequence number, the SSRC and the payload. */
  lemma PacketFields(s: Stream, seqNum: u16, marker: bool, timestamp: u32, body: seq<byte>)
    requires s.Valid()
    ensures var packet := Packet(s, seqNum, marker, timestamp, body);
      && Open(packet) == Some((marker, body))
      && |packet| >= 12
      && Srtp.SequenceOf(packet) == seqNum && Srtp.SsrcOf(packet) == s.ssrc
      && SrtpHeaderLength(packet) == Some(|packet| - |body|)
  {
    var h := PacketHeader(s, seqNum, marker, timestamp);
    var packet := Packet(s, seqNum, marker, timestamp, body);
    RoundTrip(h, body);
    SrtpAgrees(packet);
    FixedBytes(s, seqNum, marker, timestamp);
    assert packet[..12] == h.Fixed();
    assert packet[2..4] == packet[..12][2..4] && packet[8..12] == packet[..12][8..12];
    assert Pow256(2) == 0x1_0000 && Pow256(4) == 0x1_0000_0000;
    BeRoundTrip(seqNum, 2);
    BeRoundTrip(s.ssrc, 4);
  }

  /** The bytes of the packet, one field after the other. */
  lemma PacketBytes(s: Stream, seqNum: u16, marker: bool, timestamp: u32, body: seq<byte>)
    requires s.Valid()
    ensures var p := Packet(s, seqNum, marker, timestamp, body);
      && |p| >= 12 && p[0] == (if |s.extension| > 0 then 0x90 else 0x80)
      && p[1] == s.payloadTy + (if marker then 128 else 0)
      && Be16(p, 2) == seqNum && Be32(p, 4) == timestamp && Be32(p, 8) == s.ssrc
      && (|s.extension| == 0 ==> p[12..] == body)
      && (|s.extension| > 0 ==>
          |p| >= 16 && p[12..16] == [0xBE, 0xDE, 0, |s.extension| / 4] && p[16..] == s.extension + body)
  {
    FixedFieldBytes(s, seqNum, marker, timestamp, body);
    TailBytes(s, seqNum, marker, timestamp, body);
    hide *;
  }

  lemma FixedFieldBytes(s: Stream, seqNum: u16, marker: bool, timestamp: u32, body: seq<byte>)
    requires s.Valid()
    ensures var p := Packet(s, seqNum, marker, timestamp, body);
      && |p| >= 12 && p[0] == (if |s.extension| > 0 then 0x90 else 0x80)
      && p[1] == s.payloadTy + (if marker then 128 else 0)
      && Be16(p, 2) == seqNum && Be32(p, 4) == timestamp && Be32(p, 8) == s.ssrc
  {
    var h := PacketHeader(s, seqNum, marker, timestamp);
    var w := h.Serialize();
    FixedAtWire(h);
    SwappedReads16(seqNum);
    SwappedReads32(timestamp);
    SwappedReads32(s.ssrc);
    hide Memory16, Memory32, Swap16, Swap32, Be16, Be32, Header.Serialize;
    SliceReads(w, body, 2);
    SliceReads(w, body, 4);
    SliceReads(w, body, 8);
    assert (w + body)[0] == w[0] && (w + body)[1] == w[1];
  }

  lemma TailBytes(s: Stream, seqNum: u16, marker: bool, timestamp: u32, body: seq<byte>)
    requires s.Valid()
    ensures var p := Packet(s, seqNum, marker, timestamp, body);
      && (|s.extension| == 0 ==> |p| >= 12 && p[12..] == body)
      && (|s.extension| > 0 ==>
          |p| >= 16 && p[12..16] == [0xBE, 0xDE, 0, |s.extension| / 4] && p[16..] == s.extension + body)
  {
    var h := PacketHeader(s, seqNum, marker, timestamp);
    WholeWords(|s.extension|);
    if |s.extension| > 0 {
      ExtensionAtWire(h);
      ProfileBytes(|s.extension| / 4);
      hide Be, Memory16, Swap16, Header.Serialize;
      SplitTail(h.Serialize(), [0xBE, 0xDE], [0, |s.extension| / 4], s.extension, body);
    } else {
      assert |h.Serialize()| == 12;
      hide Header.Serialize;
    }
  }

  lemma SplitTail(w: seq<byte>, a: seq<byte>, b: seq<byte>, c: seq<byte>, body: seq<byte>)
    requires |w| >= 16 && |a| == |b| == 2 && w[12..14] == a && w[14..16] == b && w[16..] == c
    ensures (w + body)[12..16] == a + b && (w + body)[16..] == c + body
  {
    assert (w + body)[12..16] == w[12..14] + w[14..16];
    assert (w + body)[16..] == w[16..] + body;
  }

  lemma ProfileBytes(words: byte)
    ensures Memory16(Swap16(0xBEDE)) == [0xBE, 0xDE] && Be(words, 2) == [0, words]
  {
    assert Be(words, 1) == [words] && Be(words / 256, 1) == [0];
  }

  lemma SliceReads(w: seq<byte>, body: seq<byte>, at: nat)
    ensures at + 2 <= |w| ==> Be16(w + body, at) == Be16(w[at..at + 2], 0)
    ensures at + 4 <= |w| ==> Be32(w + body, at) == Be32(w[at..at + 4], 0)
  {
  }

  lemma FixedBytes(s: Stream, seqNum: u16, marker: bool, timestamp: u32)
    requires s.Valid()
    ensures var f := PacketHeader(s, seqNum, marker, timestamp).Fixed();
      f[2..4] == Be(seqNum, 2) && f[8..12] == Be(s.ssrc, 4)
  {
    SwapIsNetworkOrder(seqNum);
    Swap32IsNetworkOrder(s.ssrc);
  }

  /** A marker bit and a payload waiting for an RTP header. */
  datatype Outgoing = Outgoing(marker: bool, body: seq<byte>)

  function SeqAfter(seqNum: u16, i: nat): u16 { (seqNum + i) % 0x1_0000 }

  /** The packets made for `outs`: consecutive sequence numbers from `seqNum`. */
  function Packets(s: Stream, seqNum: u16, timestamp: u32, outs: seq<Outgoing>): (ps: seq<seq<byte>>)
    requires s.Valid()
    ensures |ps| == |outs|
  {
    seq(|outs|, i requires 0 <= i < |outs| =>
      Packet(s, SeqAfter(seqNum, i), outs[i].marker, timestamp, outs[i].body))
  }

  /** What a receiver reads from a list of packets. */
  function OpenAll(packets: seq<seq<byte>>): Option<seq<Outgoing>> {
    if |packets| == 0 then Some([])
    else
      match (Open(packets[0]), OpenAll(packets[1..]))
      case (Some((marker, body)), Some(rest)) => Some([Outgoing(marker, body)] + rest)
      case _ => None
  }

  lemma SeqAfterNone(seqNum: u16)
    ensures SeqAfter(seqNum, 0) == seqNum
  {
  }

  lemma NextSeq(seqNum: u16, i: nat)
    ensures SeqAfter(SeqAfter(seqNum, 1), i) == SeqAfter(seqNum, i + 1)
  {
  }

  lemma PacketsTail(s: Stream, seqNum: u16, timestamp: u32, outs: seq<Outgoing>)
    requires s.Valid() && |outs| > 0
    ensures Packets(s, seqNum, timestamp, outs)[1..] == Packets(s, SeqAfter(seqNum, 1), timestamp, outs[1..])
  {
    hide Packet;
    var next := SeqAfter(seqNum, 1);
    var ps, qs := Packets(s, seqNum, timestamp, outs), Packets(s, next, timestamp, outs[1..]);
    forall i | 0 <= i < |qs| ensures ps[1..][i] == qs[i] {
      NextSeq(seqNum, i);
    }
  }

  /** One packet more, and the sequence number after it. */
  lemma PacketsNext(s: Stream, seqNum: u16, timestamp: u32, outs: seq<Outgoing>, i: nat)
    requires s.Valid() && i < |outs|
    ensures SeqAfter(SeqAfter(seqNum, i), 1) == SeqAfter(seqNum, i + 1)
    ensures var ps := Packets(s, seqNum, timestamp, outs);
      ps[..i + 1] == ps[..i] + [Packet(s, SeqAfter(seqNum, i), outs[i].marker, timestamp, outs[i].body)]
  {
    hide Packet;
    var ps := Packets(s, seqNum, timestamp, outs);
    assert ps[..i + 1] == ps[..i] + [ps[i]];
  }

  lemma {:induction false} OpenPackets(s: Stream, seqNum: u16, timestamp: u32, outs: seq<Outgoing>)
    requires s.Valid()
    ensures OpenAll(Packets(s, seqNum, timestamp, outs)) == Some(outs)
    decreases |outs|
  {
    hide Packet, Open;
    var ps := Packets(s, seqNum, timestamp, outs);
    if |outs| > 0 {
      assert ps[0] == Packet(s, seqNum, outs[0].marker, timestamp, outs[0].body);
      var next := SeqAfter(seqNum, 1);
      PacketsTail(s, seqNum, timestamp, outs);
      assert Open(ps[0]) == Some((outs[0].marker, outs[0].body)) by {
        PacketFields(s, seqNum, outs[0].marker, timestamp, outs[0].body);
      }
      OpenPackets(s, next, timestamp, outs[1..]);
      assert outs == [outs[0]] + outs[1..];
    }
  }

  /** The extension element: identifier and length in one byte, the value, and
      zeros up to a multiple of four. */
  function Element(id: byte, value: seq<byte>): (e: seq<byte>)
    requires 1 <= id <= 14 && 1 <= |value| <= 8
    ensures |e| % 4 == 0 && |value| < |e| <= 12
  {
    [id * 16 + (|value| - 1)] + value + Zeros(3 - |value| % 4)
  }

  /** Identifier and length minus one in the first byte, then the value, then zeros
      to the next multiple of four. */
  lemma ElementBytes(id: byte, value: seq<byte>)
    requires 1 <= id <= 14 && 1 <= |value| <= 8
    ensures var e := Element(id, value);
      && e[0] == 16 * id + |value| - 1 && e[1..1 + |value|] == value && |e| % 4 == 0 && |e| < |value| + 5
      && forall i :: 1 + |value| <= i < |e| ==> e[i] == 0
  {
  }

  class Transport {
    var seqNum: u16
    var ssrc: u32
    const payloadTy: byte
    var packetCount: u32
    var octetCount: u32
    var lastTimestamp: u32
    const extData: array<byte>
    var extLen: nat
    /** The inner transport: its answer to the n-th attempt, and what it took. */
    const link: (nat, seq<byte>) -> bool
    var attempts: nat
    var sent: seq<seq<byte>>

    ghost predicate Valid()
      reads this, extData
    {
      payloadTy < 128 && extData.Length == 12 && extLen <= 12 && extLen % 4 == 0
    }

    function Config(): (s: Stream)
      requires Valid()
      reads this, extData
      ensures s.Valid()
    {
      Stream(ssrc, payloadTy, extData[..extLen])
    }

    constructor (payloadTy: byte, ssrc: u32, seqNum: u16, link: (nat, seq<byte>) -> bool)
      requires payloadTy < 128
      ensures Valid() && fresh(extData)
      ensures Config() == Stream(ssrc, payloadTy, []) && this.seqNum == seqNum
      ensures packetCount == 0 && octetCount == 0 && attempts == 0 && sent == [] && this.link == link
    {
      this.seqNum, this.ssrc, this.payloadTy := seqNum, ssrc, payloadTy;
      packetCount, octetCount, lastTimestamp := 0, 0, 0;
      extData := new byte[12](i => 0);
      extLen := 0;
      this.link, attempts, sent := link, 0, [];
    }

    /** Sends one packet.  A failed attempt changes nothing, so a retry repeats
        the sequence number. */
    method SendPacket(timestamp: u32, marker: bool, payloadHeader: seq<byte>, payload: seq<byte>) returns (ret: int)
      requires Valid()
      modifies this
      ensures Valid() && Config() == old(Config()) && attempts == old(attempts) + 1
      ensures var packet := Packet(Config(), old(seqNum), marker, timestamp, payloadHeader + payload);
        && ret == (if link(old(attempts), packet) then 0 else -1)
        && (ret == 0 ==> sent == old(sent) + [packet])
      ensures ret == 0 ==>
        && seqNum == SeqAfter(old(seqNum), 1)
        && packetCount == (old(packetCount) + 1) % 0x1_0000_0000
        && octetCount == (old(octetCount) + |payloadHeader| + |payload|) % 0x1_0000_0000
        && lastTimestamp == timestamp
      ensures ret == -1 ==>
        && sent == old(sent) && seqNum == old(seqNum) && packetCount == old(packetCount)
        && octetCount == old(octetCount) && lastTimestamp == old(lastTimestamp)
    {
      hide Packet, Concat;
      var bufs := Prepare(timestamp, marker, payloadHeader, payload);
      ret := if link(attempts, Concat(bufs)) then 0 else -1;
      attempts := attempts + 1;
      if ret != -1 {
        sent := sent + [Concat(bufs)];
        Advance(timestamp, |payloadHeader| + |payload|);
      }
    }

    /** The buffers handed to the inner transport: a freshly serialized header,
        the payload header and the payload. */
    method Prepare(timestamp: u32, marker: bool, payloadHeader: seq<byte>, payload: seq<byte>)
      returns (bufs: seq<seq<byte>>)
      requires Valid()
      ensures Concat(bufs) == Packet(Config(), seqNum, marker, timestamp, payloadHeader + payload)
    {
      hide PacketHeader, Header.Serialize, Header.Size, Concat;
      var header := PacketHeader(Config(), seqNum, marker, timestamp);
      var buffer := new byte[header.Size()];
      SerializeInto(header, buffer);
      assert buffer[..] == header.Serialize();
      bufs := [buffer[..], payloadHeader, payload];
      ConcatThree(buffer[..], payloadHeader, payload);
      assert Concat(bufs) == header.Serialize() + (payloadHeader + payload);
    }

    /** The counters after a packet was taken. */
    method Advance(timestamp: u32, octets: nat)
      modifies this`seqNum, this`packetCount, this`octetCount, this`lastTimestamp
      ensures seqNum == SeqAfter(old(seqNum), 1)
      ensures packetCount == (old(packetCount) + 1) % 0x1_0000_0000
      ensures octetCount == (old(octetCount) + octets) % 0x1_0000_0000
      ensures lastTimestamp == timestamp
    {
      seqNum := (seqNum + 1) % 0x1_0000;
      packetCount := (packetCount + 1) % 0x1_0000_0000;
      octetCount := (octetCount + octets) % 0x1_0000_0000;
      lastTimestamp := timestamp;
    }

    method SetExtension(id: byte, value: seq<byte>)
      requires Valid() && 1 <= id <= 14 && 1 <= |value| <= 8
      modifies this`extLen, extData
      ensures Valid() && Config() == old(Config()).(extension := Element(id, value))
    {
      var pos := Append(extData, 0, [id * 16 + (|value| - 1)]);
      pos := Append(extData, pos, value);
      Padding(|value|);
      hide Zeros;
      pos := PadToWord(extData, pos);
      extLen := pos;
    }
  }

  lemma Padding(n: nat)
    ensures (4 - (n + 1) % 4) % 4 == 3 - n % 4 && (n + 1 + (3 - n % 4)) % 4 == 0
  {
  }

  /** Zeros up to a multiple of four. */
  method PadToWord(buffer: array<byte>, start: nat) returns (pos: nat)
    requires start + 3 < buffer.Length || (start <= buffer.Length && buffer.Length % 4 == 0)
    modifies buffer
    ensures pos == start + (4 - start % 4) % 4 <= buffer.Length
    ensures buffer[..pos] == old(buffer[..start]) + Zeros(pos - start)
  {
    pos := start;
    while pos % 4 != 0
      invariant start <= pos <= start + (4 - start % 4) % 4 <= buffer.Length
      invariant buffer[..pos] == old(buffer[..start]) + Zeros(pos - start)
      decreases start + 4 - pos
    {
      buffer[pos] := 0;
      pos := pos + 1;
    }
  }
}
