/** Interleaved binary frames (section 10.12 of RFC 2326): the TCP transport that
    writes them and the request parser that steps over them. */
module Interleaved {
  import opened Bytes
  import opened Parsing
  import opened Rtsp
  import opened RtpHeader
  import opened Buffers

  /** The 32-bit word whose memory is the frame header; the length argument is
      already in network order. */
  function InterleavedHeader(channel: byte, payloadLen: u16): (n: u32)
    ensures Memory32(n) == [DOLLAR, channel] + Memory16(payloadLen)
  {
    Memory32Digits(DOLLAR, channel, payloadLen % 256, payloadLen / 256);
    DOLLAR + 256 * channel + 0x1_0000 * (payloadLen % 256) + 0x100_0000 * (payloadLen / 256)
  }

  /** Channel and length, in host order, of a frame header in memory. */
  function ParseInterleavedHeader(data: seq<byte>): (byte, u16)
    requires |data| == 4 && data[0] == DOLLAR
  {
    (data[1], Swap16(ReadU16(data, 2)))
  }

  lemma HeaderRoundTrip(channel: byte, len: u16)
    ensures ParseInterleavedHeader(Memory32(InterleavedHeader(channel, Swap16(len)))) == (channel, len)
  {
    var data := Memory32(InterleavedHeader(channel, Swap16(len)));
    assert ReadU16(data, 2) == Swap16(len);
    SwapIsNetworkOrder(len);
  }

  /** What the transport writes for one packet: the 16-bit length is what
      survives of the payload length. */
  function Frame(channel: byte, payload: seq<byte>): (s: seq<byte>)
    ensures |s| == 4 + |payload|
  {
    Memory32(InterleavedHeader(channel, Swap16(|payload| % 0x1_0000))) + payload
  }

  lemma SwappedMemory(n: u16)
    ensures Memory16(Swap16(n)) == [n / 256, n % 256]
  {
  }

  lemma FrameBytes(channel: byte, payload: seq<byte>, rest: seq<byte>)
    ensures var s := Frame(channel, payload) + rest;
      s[0] == DOLLAR && s[1] == channel && FrameLength(s) == 4 + |payload| % 0x1_0000
  {
    var s := Frame(channel, payload) + rest;
    var n := |payload| % 0x1_0000;
    SwappedMemory(n);
    hide Memory16, Memory32, Swap16, InterleavedHeader;
    assert s[..4] == [DOLLAR, channel, n / 256, n % 256];
    assert s[0] == s[..4][0] && s[1] == s[..4][1] && s[2] == s[..4][2] && s[3] == s[..4][3];
  }

  /** The parser sees the frame end where it ends exactly when the payload length
      fits 16 bits. */
  lemma FrameEnds(channel: byte, payload: seq<byte>, rest: seq<byte>)
    ensures FrameLength(Frame(channel, payload) + rest) == |Frame(channel, payload)| <==> |payload| <= 0xFFFF
  {
    FrameBytes(channel, payload, rest);
  }

  datatype Packet = Packet(channel: byte, payload: seq<byte>)

  function Frames(ps: seq<Packet>): seq<byte> {
    if |ps| == 0 then [] else Frame(ps[0].channel, ps[0].payload) + Frames(ps[1..])
  }

  lemma SkipOne(channel: byte, payload: seq<byte>, rest: seq<byte>)
    requires |payload| <= 0xFFFF
    ensures SkipFrames(Frame(channel, payload) + rest) == SkipFrames(rest).After(4 + |payload|)
  {
    hide Frame, FrameLength;
    var s := Frame(channel, payload) + rest;
    FrameBytes(channel, payload, rest);
    assert s[4 + |payload|..] == rest;
  }

  lemma {:induction false} SkipFramesWritten(ps: seq<Packet>, text: seq<byte>)
    requires forall i :: 0 <= i < |ps| ==> |ps[i].payload| <= 0xFFFF
    ensures SkipFrames(Frames(ps) + text) == SkipFrames(text).After(|Frames(ps)|)
    decreases |ps|
  {
    hide Frame, SkipFrames;
    if |ps| == 0 {
      assert Frames(ps) + text == text;
    } else {
      var first, rest := Frame(ps[0].channel, ps[0].payload), Frames(ps[1..]) + text;
      assert Frames(ps) + text == first + rest;
      SkipOne(ps[0].channel, ps[0].payload, rest);
      SkipFramesWritten(ps[1..], text);
    }
  }

  /** Any list of frames in front of any text: the parser answers as it does for
      the text alone, counted from the start of the frames. */
  lemma FramesAreInvisible(f: Scanf, ps: seq<Packet>, text: seq<byte>)
    requires forall i :: 0 <= i < |ps| ==> |ps[i].payload| <= 0xFFFF
    ensures RequestParse(f, Frames(ps) + text) == RequestParse(f, text).After(|Frames(ps)|)
  {
    hide SkipFrames, MessageParse, Frames;
    var s, n := Frames(ps) + text, |Frames(ps)|;
    SkipFramesWritten(ps, text);
    if SkipFrames(text).Complete? {
      var a := SkipFrames(text).consumed;
      assert s[n + a..] == text[a..];
    }
  }

  // -------------------------------------------------------- many packets

  /** What a writer that takes at most `n` bytes takes of a frame. */
  function Taken(n: nat, frame: seq<byte>): (s: seq<byte>)
    ensures |s| == Min(n, |frame|)
  {
    if n >= |frame| then frame else frame[..n]
  }

  /** The stream after one write for each packet, from write number `k` on. */
  function StreamOf(takes: nat -> nat, k: nat, ps: seq<Packet>): seq<byte>
    decreases |ps|
  {
    if |ps| == 0 then []
    else Taken(takes(k), Frame(ps[0].channel, ps[0].payload)) + StreamOf(takes, k + 1, ps[1..])
  }

  /** Every write took its whole frame. */
  predicate AllWhole(takes: nat -> nat, k: nat, ps: seq<Packet>) {
    forall i :: 0 <= i < |ps| ==> takes(k + i) >= 4 + |ps[i].payload|
  }

  lemma AllWholeStep(takes: nat -> nat, k: nat, ps: seq<Packet>)
    requires |ps| > 0
    ensures AllWhole(takes, k, ps) <==> takes(k) >= 4 + |ps[0].payload| && AllWhole(takes, k + 1, ps[1..])
  {
    if AllWhole(takes, k, ps) {
      assert takes(k + 0) >= 4 + |ps[0].payload|;
      forall i | 0 <= i < |ps[1..]| ensures takes(k + 1 + i) >= 4 + |ps[1..][i].payload| {
        assert takes(k + (i + 1)) >= 4 + |ps[i + 1].payload|;
      }
    }
    if takes(k) >= 4 + |ps[0].payload| && AllWhole(takes, k + 1, ps[1..]) {
      forall i | 0 <= i < |ps| ensures takes(k + i) >= 4 + |ps[i].payload| {
        if i > 0 { assert takes(k + 1 + (i - 1)) >= 4 + |ps[1..][i - 1].payload|; }
      }
    }
  }

  /** The stream is the frames of the packets exactly when every write took its
      whole frame; a single short write makes it shorter. */
  lemma {:induction false} StreamExactly(takes: nat -> nat, k: nat, ps: seq<Packet>)
    ensures |StreamOf(takes, k, ps)| <= |Frames(ps)|
    ensures AllWhole(takes, k, ps) ==> StreamOf(takes, k, ps) == Frames(ps)
    ensures !AllWhole(takes, k, ps) ==> |StreamOf(takes, k, ps)| < |Frames(ps)|
    decreases |ps|
  {
    hide Frame, AllWhole;
    if |ps| > 0 {
      AllWholeStep(takes, k, ps);
      StreamExactly(takes, k + 1, ps[1..]);
    } else {
      NothingToTake(takes, k);
    }
  }

  lemma NothingToTake(takes: nat -> nat, k: nat)
    ensures AllWhole(takes, k, [])
  {
  }

  function OnChannel(channel: byte, packets: seq<seq<seq<byte>>>): seq<Packet> {
    seq(|packets|, i requires 0 <= i < |packets| => Packet(channel, Concat(packets[i])))
  }

  /** One transmit after the other, whatever happens to each. */
  method TransmitAll(t: TcpTransport, packets: seq<seq<seq<byte>>>)
    modifies t
    ensures t.stream == old(t.stream) + StreamOf(t.takes, old(t.writes), OnChannel(t.channel, packets))
  {
    hide Concat, Frame, Taken;
    ghost var ps := OnChannel(t.channel, packets);
    assert ps[0..] == ps;
    ghost var done := [];
    for i := 0 to |packets|
      invariant t.writes == old(t.writes) + i && t.stream == old(t.stream) + done
      invariant StreamOf(t.takes, old(t.writes), ps) == done + StreamOf(t.takes, t.writes, ps[i..])
    {
      ghost var first := Taken(t.takes(t.writes), Frame(ps[i].channel, ps[i].payload));
      assert ps[i..][1..] == ps[i + 1..];
      ghost var rest := StreamOf(t.takes, t.writes + 1, ps[i + 1..]);
      assert done + (first + rest) == done + first + rest;
      var ret := t.Transmit(packets[i], true);
      done := done + first;
    }
    assert done + [] == done;
  }

  const STACK_BUFFER := 2048

  class TcpTransport {
    const channel: byte
    /** The writer below: how much its n-th write takes, and all it took. */
    const takes: nat -> nat
    var writes: nat
    var stream: seq<byte>

    constructor (channel: byte, takes: nat -> nat)
      ensures this.channel == channel && this.takes == takes && writes == 0 && stream == []
    {
      this.channel, this.takes := channel, takes;
      writes, stream := 0, [];
    }

    /** One packet is one write of the whole frame; without memory for a frame
        that outgrows the stack buffer there is no write. */
    method Transmit(bufs: seq<seq<byte>>, mallocOk: bool) returns (ret: int)
      modifies this
      ensures var frame, n := Frame(channel, Concat(bufs)), takes(old(writes));
        if |frame| > 2048 && !mallocOk then ret == -1 && writes == old(writes) && stream == old(stream)
        else
          && writes == old(writes) + 1
          && ret == (if n >= |frame| then 0 else -1)
          && stream == old(stream) + Taken(n, frame)
    {
      hide Concat;
      var totalBytes := TotalLength(bufs);
      var header := InterleavedHeader(channel, Swap16(totalBytes % 0x1_0000));
      var total := 4 + totalBytes;
      if total > STACK_BUFFER && !mallocOk { return -1; }
      var buf := new byte[total];
      var pos := Append(buf, 0, Memory32(header));
      pos := Coalesce(bufs, buf, pos);
      assert buf[..] == Frame(channel, Concat(bufs));
      var taken := if takes(writes) >= total then total else takes(writes);
      writes := writes + 1;
      stream := stream + buf[..taken];
      ret := if taken == total then 0 else -1;
    }
  }
}
