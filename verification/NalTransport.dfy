/** Sending NAL units over RTP, whole or in fragments, and putting them together
    again at a receiver. */
module NalTransport {
  import opened Bits
  import opened Bytes
  import opened Nal
  import opened RtpTransport

  /** The number of pieces of at most `chunk` bytes. */
  function Count(len: nat, chunk: nat): nat
    requires chunk > 0
  {
    (len + chunk - 1) / chunk
  }

  /** Piece `i` of the payload. */
  function Piece(payload: seq<byte>, chunk: nat, i: nat): (s: seq<byte>)
    requires chunk > 0 && i < Count(|payload|, chunk)
    ensures 0 < |s| <= chunk
  {
    PieceBounds(|payload|, chunk, i);
    payload[i * chunk..Min((i + 1) * chunk, |payload|)]
  }

  lemma PieceBounds(len: nat, chunk: nat, i: nat)
    requires chunk > 0 && i < Count(len, chunk)
    ensures 0 <= i * chunk < len && (i + 1) * chunk == i * chunk + chunk
    ensures i < Count(len, chunk) - 1 ==> (i + 1) * chunk < len
    ensures i == Count(len, chunk) - 1 ==> len <= (i + 1) * chunk
  {
    var n := Count(len, chunk);
    var r := (len + chunk - 1) % chunk;
    assert len + chunk - 1 == n * chunk + r;
    assert n * chunk == i * chunk + (n - i) * chunk;
    assert (n - i) * chunk >= chunk by { MulAtLeast(n - i, 1, chunk); }
    if i < n - 1 {
      MulAtLeast(n - i, 2, chunk);
    }
  }

  lemma MulAtLeast(a: nat, b: nat, c: nat)
    requires a >= b
    ensures a * c >= b * c
  {
  }

  /** The i-th RTP payload of a fragmented unit. */
  function Fragment(h: Header, payload: seq<byte>, chunk: nat, i: nat): Outgoing
    requires h.Valid() && chunk > 0 && i < Count(|payload|, chunk)
  {
    var last := i == Count(|payload|, chunk) - 1;
    Outgoing(last, h.WriteFu(i == 0, last) + Piece(payload, chunk, i))
  }

  function Fragments(h: Header, payload: seq<byte>, chunk: nat): (outs: seq<Outgoing>)
    requires h.Valid() && chunk > 0
    ensures |outs| == Count(|payload|, chunk)
    ensures forall i :: 0 <= i < |outs| ==> outs[i] == Fragment(h, payload, chunk, i)
  {
    seq(Count(|payload|, chunk), i requires 0 <= i < Count(|payload|, chunk) => Fragment(h, payload, chunk, i))
  }

  /** The unit fits one packet. */
  predicate Whole(h: Header, payload: seq<byte>, max: nat) { h.Size() + |payload| < max }

  /** The data bytes of a full fragment.  A maximum that leaves no room for the
      FU header is used as it is. */
  function ChunkFor(h: Header, max: nat): (n: nat)
    ensures max > 0 ==> n > 0
  {
    if max > h.FuSize() then max - h.FuSize() else max
  }

  /** What is sent for a unit when RTP payloads may have `max` bytes. */
  function Outs(h: Header, payload: seq<byte>, max: nat): seq<Outgoing>
    requires h.Valid() && max > 0
  {
    if Whole(h, payload, max) then [Outgoing(h.IsIdr() || h.IsNonIdr(), h.Serialize() + payload)]
    else Fragments(h, payload, ChunkFor(h, max))
  }

  // ------------------------------------------------------------- the receiver

  /** The data bytes of a list of fragments, in order. */
  function Gather(like: Header, outs: seq<Outgoing>): seq<byte>
    requires forall i :: 0 <= i < |outs| ==> |outs[i].body| >= like.FuSize()
  {
    if |outs| == 0 then [] else Gather(like, outs[..|outs| - 1]) + outs[|outs| - 1].body[like.FuSize()..]
  }

  /** A run of fragments of one unit: start bit on the first only, end bit and
      marker on the last only, the same unit header on all. */
  predicate OneUnit(like: Header, outs: seq<Outgoing>) {
    && |outs| >= 2
    && (forall i :: 0 <= i < |outs| ==> IsFragment(like, outs[i].body))
    && (forall i :: 0 <= i < |outs| ==>
          && StartBit(like, outs[i].body) == (i == 0)
          && EndBit(like, outs[i].body) == outs[i].marker == (i == |outs| - 1)
          && FragmentHeader(like, outs[i].body) == FragmentHeader(like, outs[0].body))
  }

  /** Header and payload of the unit carried by a list of RTP payloads. */
  function Depacketize(like: Header, outs: seq<Outgoing>): Option<(Header, seq<byte>)> {
    if OneUnit(like, outs) then Some((FragmentHeader(like, outs[0].body), Gather(like, outs)))
    else if |outs| == 1 && |outs[0].body| >= like.Size() && !IsFragment(like, outs[0].body)
    then Some((Parse(like, outs[0].body), outs[0].body[like.Size()..]))
    else None
  }

  lemma {:induction false} GatherFragments(h: Header, payload: seq<byte>, chunk: nat, n: nat)
    requires h.Valid() && chunk > 0 && n <= Count(|payload|, chunk)
    ensures Gather(h, Fragments(h, payload, chunk)[..n]) == payload[..Min(n * chunk, |payload|)]
  {
    hide Header.WriteFu, Piece;
    var fs := Fragments(h, payload, chunk);
    if n > 0 {
      GatherFragments(h, payload, chunk, n - 1);
      assert fs[..n][..n - 1] == fs[..n - 1];
      var last := n - 1 == Count(|payload|, chunk) - 1;
      FragmentFields(h, n - 1 == 0, last, Piece(payload, chunk, n - 1));
      PieceJoin(payload, chunk, n - 1);
    }
  }

  lemma PieceJoin(payload: seq<byte>, chunk: nat, i: nat)
    requires chunk > 0 && i < Count(|payload|, chunk)
    ensures payload[..Min(i * chunk, |payload|)] + Piece(payload, chunk, i)
         == payload[..Min((i + 1) * chunk, |payload|)]
  {
    PieceBounds(|payload|, chunk, i);
  }

  /** A unit that does not fit takes at least two fragments. */
  lemma AtLeastTwo(h: Header, payload: seq<byte>, max: nat)
    requires h.Valid() && max > h.FuSize() && !Whole(h, payload, max)
    ensures Count(|payload|, ChunkFor(h, max)) >= 2
  {
    var chunk := ChunkFor(h, max);
    assert |payload| + chunk - 1 >= 2 * chunk;
    TwoFit(|payload| + chunk - 1, chunk);
  }

  lemma TwoFit(n: nat, chunk: nat)
    requires chunk > 0 && n >= 2 * chunk
    ensures n / chunk >= 2
  {
    assert n == chunk * (n / chunk) + n % chunk;
    MulBound(chunk, 2 - n / chunk);
  }

  lemma FragmentsAreOneUnit(h: Header, payload: seq<byte>, chunk: nat)
    requires h.Valid() && chunk > 0 && Count(|payload|, chunk) >= 2
    ensures OneUnit(h, Fragments(h, payload, chunk))
    ensures FragmentHeader(h, Fragments(h, payload, chunk)[0].body) == Delivered(h)
  {
    hide Header.WriteFu, Piece, IsFragment, StartBit, EndBit, FragmentHeader, Count;
    var n := Count(|payload|, chunk);
    forall i | 0 <= i < n
      ensures var o := Fragments(h, payload, chunk)[i];
        && IsFragment(h, o.body) && StartBit(h, o.body) == (i == 0)
        && EndBit(h, o.body) == o.marker == (i == n - 1) && FragmentHeader(h, o.body) == Delivered(h)
    {
      FragmentFields(h, i == 0, i == n - 1, Piece(payload, chunk, i));
    }
  }

  /** A whole unit that reads like a fragment: it has the type reserved for
      fragmentation units and data after its header. */
  predicate LooksFragmented(h: Header, payload: seq<byte>, max: nat) {
    Whole(h, payload, max) && h.unitType == h.FuType() && |payload| > 0
  }

  /** What a receiver makes of a unit of any length.  Fragmenting drops the
      forbidden bit of H.264. */
  lemma RoundTrip(h: Header, payload: seq<byte>, max: nat)
    requires h.Valid() && max > h.FuSize()
    ensures Depacketize(h, Outs(h, payload, max))
         == if LooksFragmented(h, payload, max) then None
            else Some((if Whole(h, payload, max) then h else Delivered(h), payload))
  {
    hide Header.Serialize, Header.WriteFu;
    if Whole(h, payload, max) {
      HeaderRoundTrip(h, payload);
      assert (h.Serialize() + payload)[h.Size()..] == payload;
    } else {
      var chunk := ChunkFor(h, max);
      AtLeastTwo(h, payload, max);
      FragmentsAreOneUnit(h, payload, chunk);
      var n := Count(|payload|, chunk);
      assert Fragments(h, payload, chunk)[..n] == Fragments(h, payload, chunk);
      GatherFragments(h, payload, chunk, n);
      PieceBounds(|payload|, chunk, n - 1);
      assert payload[..|payload|] == payload;
    }
  }

  /** The unit comes back unchanged exactly when it does not look like a fragment
      and was sent whole or has the H.264 forbidden bit clear. */
  lemma RoundTripExact(h: Header, payload: seq<byte>, max: nat)
    requires h.Valid() && max > h.FuSize()
    ensures Depacketize(h, Outs(h, payload, max)) == Some((h, payload))
       <==> !LooksFragmented(h, payload, max) && (h.H264? && h.forbidden ==> Whole(h, payload, max))
  {
    hide Outs, Depacketize;
    RoundTrip(h, payload, max);
  }

  /** No RTP payload is longer than the configured maximum, exactly if that
      leaves room for the FU header wherever one is needed. */
  lemma PayloadsFit(h: Header, payload: seq<byte>, max: nat, i: nat)
    requires h.Valid() && max > 0 && i < |Outs(h, payload, max)|
    ensures |Outs(h, payload, max)[i].body| <= max <==> Whole(h, payload, max) || max > h.FuSize()
  {
  }

  /** One packet, with the header in front and a marker on coded slices, exactly
      when header and payload together are smaller than the maximum. */
  lemma WholeExactly(h: Header, payload: seq<byte>, max: nat)
    requires h.Valid() && max > 0
    ensures var size, outs := (if h.H264? then 1 else 2) + |payload|, Outs(h, payload, max);
      && (size < max ==> outs == [Outgoing(h.IsIdr() || h.IsNonIdr(), h.Serialize() + payload)])
      && (size >= max && max > (if h.H264? then 2 else 3) ==> |outs| >= 2)
  {
    hide Header.Serialize;
    if !Whole(h, payload, max) && max > h.FuSize() { AtLeastTwo(h, payload, max); }
  }

  /** Every fragment but the last fills the maximum. */
  lemma FullFragments(h: Header, payload: seq<byte>, max: nat, i: nat)
    requires h.Valid() && max > h.FuSize() && !Whole(h, payload, max) && i + 1 < |Outs(h, payload, max)|
    ensures |Outs(h, payload, max)[i].body| == max
  {
    hide Header.WriteFu;
    PieceBounds(|payload|, ChunkFor(h, max), i);
  }

  // --------------------------------------------------------------- the sender

  class UnitSender {
    const rtp: Transport
    const maxH264: nat
    const maxH265: nat

    constructor (rtp: Transport, maxH264: nat, maxH265: nat)
      ensures this.rtp == rtp && this.maxH264 == maxH264 && this.maxH265 == maxH265
    {
      this.rtp, this.maxH264, this.maxH265 := rtp, maxH264, maxH265;
    }

    function MaxFor(h: Header): nat { if h.H264? then maxH264 else maxH265 }

    /** Sends a unit; after a failed packet nothing more is sent. */
    method SendPacket(timestamp: u32, h: Header, payload: seq<byte>) returns (ret: int)
      requires rtp.Valid() && h.Valid() && MaxFor(h) > 0
      modifies rtp
      ensures rtp.Valid() && rtp.Config() == old(rtp.Config())
      ensures var outs := Outs(h, payload, if h.H264? then maxH264 else maxH265);
        && (ret == 0 || ret == -1)
        && old(|rtp.sent|) <= |rtp.sent| <= old(|rtp.sent|) + |outs|
        && var ps := Packets(rtp.Config(), old(rtp.seqNum), timestamp, outs);
        && rtp.sent == old(rtp.sent) + ps[..|rtp.sent| - old(|rtp.sent|)]
        && (ret == 0 <==> |rtp.sent| == old(|rtp.sent|) + |outs|)
        && rtp.seqNum == SeqAfter(old(rtp.seqNum), |rtp.sent| - old(|rtp.sent|))
    {
      hide Header.Serialize, Header.WriteFu, Packet, PacketHeader, Count;
      var max := MaxFor(h);
      var size := h.Size() + |payload|;
      if size < max {
        var marker := h.IsIdr() || h.IsNonIdr();
        ret := rtp.SendPacket(timestamp, marker, h.Serialize(), payload);
      } else {
        ret := SendFragments(timestamp, max, h, payload);
      }
    }

    method SendFragments(timestamp: u32, max: nat, h: Header, payload: seq<byte>) returns (ret: int)
      requires rtp.Valid() && h.Valid() && max > 0
      modifies rtp
      ensures rtp.Valid() && rtp.Config() == old(rtp.Config())
      ensures var outs := Fragments(h, payload, ChunkFor(h, max));
        && (ret == 0 || ret == -1)
        && old(|rtp.sent|) <= |rtp.sent| <= old(|rtp.sent|) + |outs|
        && var ps := Packets(rtp.Config(), old(rtp.seqNum), timestamp, outs);
        && rtp.sent == old(rtp.sent) + ps[..|rtp.sent| - old(|rtp.sent|)]
        && (ret == 0 <==> |rtp.sent| == old(|rtp.sent|) + |outs|)
        && rtp.seqNum == SeqAfter(old(rtp.seqNum), |rtp.sent| - old(|rtp.sent|))
    {
      hide Fragment, Piece, Packet, Packets, Fragments;
      var chunk := ChunkFor(h, max);
      hide ChunkFor, SeqAfter;
      SeqAfterNone(rtp.seqNum);
      var rem, packetsCount := FullPieces(|payload|, chunk);
      ghost var outs := Fragments(h, payload, chunk);
      ghost var packets := Packets(rtp.Config(), rtp.seqNum, timestamp, outs);
      ghost var n := Count(|payload|, chunk);
      hide Count;
      for i := 0 to packetsCount
        invariant rtp.Valid() && rtp.Config() == old(rtp.Config())
        invariant rtp.seqNum == SeqAfter(old(rtp.seqNum), i)
        invariant rtp.sent == old(rtp.sent) + packets[..i]
      {
        var first, last := 0 == i, 0 == rem && packetsCount - 1 == i;
        var data := TakePiece(payload, chunk, i, last);
        ret := SendFu(timestamp, h, data, first, last, payload, chunk, i);
        if ret == -1 { return; }
        PacketsNext(rtp.Config(), old(rtp.seqNum), timestamp, outs, i);
        assert outs[i] == Fragment(h, payload, chunk, i);
      }
      if rem != 0 {
        var data := TakePiece(payload, chunk, packetsCount, true);
        ret := SendFu(timestamp, h, data, 0 == packetsCount, true, payload, chunk, packetsCount);
        if ret == -1 { return; }
        PacketsNext(rtp.Config(), old(rtp.seqNum), timestamp, outs, packetsCount);
        assert outs[packetsCount] == Fragment(h, payload, chunk, packetsCount);
      }
      ret := 0;
    }

    /** Sends one fragment: piece `i` of the payload. */
    method SendFu(timestamp: u32, h: Header, data: seq<byte>, first: bool, last: bool,
                  ghost payload: seq<byte>, ghost chunk: nat, ghost i: nat) returns (ret: int)
      requires rtp.Valid() && h.Valid() && chunk > 0 && i < Count(|payload|, chunk)
      requires first == (i == 0) && last == (i == Count(|payload|, chunk) - 1) && data == Piece(payload, chunk, i)
      modifies rtp
      ensures rtp.Valid() && rtp.Config() == old(rtp.Config())
      ensures ret == 0 || ret == -1
      ensures var o := Fragment(h, payload, chunk, i);
        ret == 0 ==> rtp.sent == old(rtp.sent) + [Packet(rtp.Config(), old(rtp.seqNum), o.marker, timestamp, o.body)]
      ensures ret == 0 ==> rtp.seqNum == SeqAfter(old(rtp.seqNum), 1)
      ensures ret == -1 ==> rtp.sent == old(rtp.sent) && rtp.seqNum == old(rtp.seqNum)
    {
      hide Header.WriteFu, Packet, Piece, Count;
      ret := rtp.SendPacket(timestamp, last, h.WriteFu(first, last), data);
    }
  }

  /** The number of full pieces and what is left over. */
  method FullPieces(len: nat, chunk: nat) returns (rem: nat, count: nat)
    requires chunk > 0
    ensures Count(len, chunk) == count + if rem == 0 then 0 else 1
  {
    rem := len % chunk;
    count := (len - rem) / chunk;
    CountIs(len, chunk);
  }

  /** The slice the sender cuts out for fragment `i`. */
  method TakePiece(payload: seq<byte>, chunk: nat, i: nat, last: bool) returns (data: seq<byte>)
    requires chunk > 0 && i < Count(|payload|, chunk) && last == (i == Count(|payload|, chunk) - 1)
    ensures data == Piece(payload, chunk, i)
  {
    PieceBounds(|payload|, chunk, i);
    data := payload[i * chunk..if last then |payload| else (i + 1) * chunk];
  }

  lemma CountIs(len: nat, chunk: nat)
    requires chunk > 0
    ensures var rem := len % chunk;
      Count(len, chunk) == (len - rem) / chunk + if rem == 0 then 0 else 1
  {
    var q, rem := len / chunk, len % chunk;
    assert len == chunk * q + rem;
    ModUnique(len - rem, chunk, q, 0);
    if rem == 0 {
      ModUnique(len + chunk - 1, chunk, q, chunk - 1);
    } else {
      assert chunk * (q + 1) == chunk * q + chunk;
      ModUnique(len + chunk - 1, chunk, q + 1, rem - 1);
    }
  }

  /** From the RTP packets of a successful send alone, a receiver rebuilds the unit. */
  lemma ReceiverRebuilds(s: Stream, seqNum: u16, timestamp: u32, h: Header, payload: seq<byte>, max: nat)
    requires s.Valid() && h.Valid() && max > h.FuSize() && !LooksFragmented(h, payload, max)
    ensures var read := OpenAll(Packets(s, seqNum, timestamp, Outs(h, payload, max)));
      && read.Some?
      && Depacketize(h, read.value) == Some((if Whole(h, payload, max) then h else Delivered(h), payload))
  {
    hide Outs, Packets, Depacketize;
    OpenPackets(s, seqNum, timestamp, Outs(h, payload, max));
    RoundTrip(h, payload, max);
  }
}
