/** The objects of a session put together as the library's users do: an RTP
    transport whose inner transport is an SRTP sender, and an SRTP receiver built
    from the same master key.  Each method is one step of the session. */
module SrtpEndpoints {
  import opened Bytes
  import opened Buffers
  import opened SrtpCipher
  import opened SrtpKeys
  import opened Srtp
  import opened SrtpContext
  import opened DeliveryLog
  import opened SrtpSession
  import RtpTransport
  import Srtcp

  /** What the sender handed on, with the RTP packets it was made from. */
  function Pairs(plain: seq<seq<byte>>, offered: seq<Offer>): (h: seq<Handed>)
    requires |plain| == |offered|
    ensures |h| == |offered|
  {
    seq(|offered|, i requires 0 <= i < |offered| => Handed(plain[i], offered[i].packet, offered[i].taken))
  }

  lemma PairsAppend(plain: seq<seq<byte>>, offered: seq<Offer>, rtp: seq<byte>, o: Offer)
    requires |plain| == |offered|
    ensures Pairs(plain + [rtp], offered + [o]) == Pairs(plain, offered) + [Handed(rtp, o.packet, o.taken)]
  {
  }

  class Session {
    const rtp: RtpTransport.Transport
    const srtp: Sender
    const receiver: Receiver
    const start: u16
    ghost var plain: seq<seq<byte>>
    ghost var log: seq<Delivery>

    ghost predicate Valid()
      reads this, rtp, rtp.extData, srtp, receiver
    {
      && rtp.Valid() && srtp.Valid() && receiver.Valid()
      && receiver.crypto == srtp.crypto && receiver.keys == srtp.keys && receiver.tagLen == srtp.tagLen
      && |plain| == |srtp.offered|
      && forall i :: 0 <= i < |srtp.offered| ==> |srtp.offered[i].packet| <= MAX_PACKET
    }

    ghost function Constants(): (w: World)
      requires Valid()
      reads this, rtp, rtp.extData, srtp, receiver
      ensures w.Valid()
    {
      World(srtp.crypto, srtp.keys, srtp.tagLen, rtp.Config(), start)
    }

    ghost function Abs(): System
      requires Valid()
      reads this, rtp, rtp.extData, srtp, receiver
    {
      System(rtp.seqNum, srtp.State(), Pairs(plain, srtp.offered), receiver.State(), log)
    }

    /** Both ends derive the same keys from the master key.  The RTP transport's
        own link is never asked: the SRTP sender stands in its place. */
    constructor (crypto: Crypto, master: MasterKey, tagLen: nat, payloadTy: byte, ssrc: u32, seqNum: u16,
                 link: (nat, seq<byte>) -> bool)
      requires TagLength(tagLen) && payloadTy < 128
      ensures Valid() && fresh(rtp) && fresh(rtp.extData) && fresh(srtp) && fresh(receiver)
      ensures Constants() == World(crypto, KeysFrom(crypto, master, SRTP_LABELS), tagLen,
                                   RtpTransport.Stream(ssrc, payloadTy, []), seqNum)
      ensures Abs() == Init(Constants())
    {
      var transport := new RtpTransport.Transport(payloadTy, ssrc, seqNum, (n, packet) => false);
      var sender := new Sender(crypto, master, tagLen, link);
      var context := new Receiver(crypto, master, tagLen);
      rtp, srtp, receiver, start := transport, sender, context, seqNum;
      plain, log := [], [];
    }

    /** The RTP transport's send, with the SRTP sender as its inner transport. */
    method SendPacket(timestamp: u32, marker: bool, payloadHeader: seq<byte>, payload: seq<byte>) returns (ret: int)
      requires Valid()
      modifies this`plain, rtp, srtp
      ensures Valid() && Constants() == old(Constants())
      ensures ret == 0 || ret == -1
      ensures Abs() == Step(Constants(), old(Abs()), Send(marker, timestamp, payloadHeader + payload, ret == 0))
    {
      hide RtpTransport.Packet, Protect, Concat, Pairs;
      var bufs := rtp.Prepare(timestamp, marker, payloadHeader, payload);
      ghost var rtpPacket := Concat(bufs);
      ret := srtp.Transmit(bufs);
      ProtectedLength(srtp.crypto, srtp.keys, srtp.tagLen, old(srtp.State()), rtpPacket);
      if ret != -1 {
        rtp.Advance(timestamp, |payloadHeader| + |payload|);
      }
      ghost var packet := Protect(srtp.crypto, srtp.keys, srtp.tagLen, old(srtp.State()), rtpPacket).1;
      if packet.Some? {
        PairsAppend(plain, old(srtp.offered), rtpPacket, Offer(packet.value, ret == 0));
        plain := plain + [rtpPacket];
        assert srtp.offered == old(srtp.offered) + [Offer(packet.value, ret == 0)];
      } else {
        assert srtp.offered == old(srtp.offered);
      }
    }

    /** The network hands over a packet the sender handed on. */
    method Receive(position: nat) returns (result: Option<seq<byte>>)
      requires Valid() && position < |srtp.offered|
      modifies this`log, receiver
      ensures Valid() && Constants() == old(Constants())
      ensures Abs() == Step(Constants(), old(Abs()), Deliver(position))
      ensures |log| > 0 && log[|log| - 1].result == result
    {
      hide Unprotect, Pairs;
      PairAt(plain, srtp.offered, position);
      result := ReceiveBytes(srtp.offered[position].packet);
      log := log + [Delivery(position, Slot(Pairs(plain, srtp.offered), position), result)];
    }

    /** The network hands over something else. */
    method ReceiveForeign(packet: seq<byte>) returns (result: Option<seq<byte>>)
      requires Valid() && CopyFits(srtp.tagLen, receiver.State(), packet)
      modifies receiver
      ensures Valid() && Constants() == old(Constants())
      ensures Abs() == Step(Constants(), old(Abs()), Inject(packet))
    {
      hide Unprotect, Pairs;
      result := ReceiveBytes(packet);
    }

    method ReceiveBytes(packet: seq<byte>) returns (result: Option<seq<byte>>)
      requires Valid() && CopyFits(srtp.tagLen, receiver.State(), packet)
      modifies receiver
      ensures Valid() && Constants() == old(Constants())
      ensures (receiver.State(), result)
           == Unprotect(srtp.crypto, srtp.keys, srtp.tagLen, old(receiver.State()), packet)
    {
      hide Unprotect;
      var data := new byte[|packet|];
      var end := Append(data, 0, packet);
      assert data[..end] == packet;
      var ret, len := receiver.Unprotect(data, end);
      result := if ret == 0 then Some(data[..len]) else None;
    }
  }

  lemma PairAt(plain: seq<seq<byte>>, offered: seq<Offer>, i: nat)
    requires |plain| == |offered| && i < |offered|
    ensures Pairs(plain, offered)[i].packet == offered[i].packet
  {
  }

  lemma ProtectedLength(c: Crypto, k: SessionKeys, tagLen: nat, st: SendState, rtp: seq<byte>)
    requires TagLength(tagLen)
    ensures var packet := Protect(c, k, tagLen, st, rtp).1;
      packet.Some? ==> |packet.value| == |rtp| + tagLen <= MAX_PACKET
  {
    hide Crypt, Tag;
  }

  // ---------------------------------------------------------------- SRTCP

  function RtcpPairs(plain: seq<seq<byte>>, offered: seq<Offer>): (h: seq<Srtcp.RtcpSent>)
    requires |plain| == |offered|
    ensures |h| == |offered|
  {
    seq(|offered|, i requires 0 <= i < |offered| => Srtcp.RtcpSent(plain[i], offered[i].packet))
  }

  lemma RtcpPairsAppend(plain: seq<seq<byte>>, offered: seq<Offer>, rtcp: seq<byte>, o: Offer)
    requires |plain| == |offered|
    ensures RtcpPairs(plain + [rtcp], offered + [o]) == RtcpPairs(plain, offered) + [Srtcp.RtcpSent(rtcp, o.packet)]
  {
  }

  /** An SRTCP sender and a receiver built from the same master key. */
  class ControlSession {
    const sender: RtcpSender
    const receiver: Receiver
    ghost var plain: seq<seq<byte>>
    ghost var log: seq<Delivery>

    ghost predicate Valid()
      reads this, sender, receiver
    {
      && sender.Valid() && receiver.Valid()
      && receiver.crypto == sender.crypto && receiver.rtcpKeys == sender.keys && receiver.tagLen == sender.tagLen
      && |plain| == |sender.offered|
    }

    ghost function Abs(): Srtcp.RtcpSystem
      requires Valid()
      reads this, sender, receiver
    {
      Srtcp.RtcpSystem(sender.index, RtcpPairs(plain, sender.offered), receiver.RtcpState(), log)
    }

    ghost function After(s: Srtcp.RtcpSystem, e: Srtcp.RtcpEvent): Srtcp.RtcpSystem
      requires TagLength(sender.tagLen) && (e.RtcpDeliver? ==> e.position < |s.sent|)
    {
      Srtcp.RtcpStep(sender.crypto, sender.keys, sender.tagLen, s, e)
    }

    constructor (crypto: Crypto, master: MasterKey, tagLen: nat, link: (nat, seq<byte>) -> bool)
      requires TagLength(tagLen)
      ensures Valid() && fresh(sender) && fresh(receiver)
      ensures sender.crypto == crypto && sender.tagLen == tagLen
      ensures sender.keys == KeysFrom(crypto, master, SRTCP_LABELS)
      ensures Abs() == Srtcp.RtcpSystem(0, [], Srtcp.RTCP_FRESH, [])
    {
      var transport := new RtcpSender(crypto, master, tagLen, link);
      var context := new Receiver(crypto, master, tagLen);
      sender, receiver := transport, context;
      plain, log := [], [];
    }

    method Transmit(bufs: seq<seq<byte>>) returns (ret: int)
      requires Valid()
      modifies this`plain, sender
      ensures Valid() && Abs() == After(old(Abs()), Srtcp.RtcpSend(Concat(bufs)))
    {
      hide Srtcp.RtcpProtect, Concat, RtcpPairs;
      ghost var rtcp := Concat(bufs);
      ghost var packet := Srtcp.RtcpProtect(sender.crypto, sender.keys, sender.tagLen, sender.index, rtcp).1;
      ret := sender.Transmit(bufs);
      if packet.Some? {
        RtcpPairsAppend(plain, old(sender.offered), rtcp, Offer(packet.value, ret == 0));
        plain := plain + [rtcp];
        assert sender.offered == old(sender.offered) + [Offer(packet.value, ret == 0)];
      } else {
        assert sender.offered == old(sender.offered);
        assert Abs().sent + [] == Abs().sent;
      }
    }

    /** The network hands over a packet the sender handed on. */
    method Receive(position: nat) returns (result: Option<seq<byte>>)
      requires Valid() && position < |sender.offered|
      modifies this`log, receiver
      ensures Valid() && Abs() == After(old(Abs()), Srtcp.RtcpDeliver(position))
      ensures |log| > 0 && log[|log| - 1].result == result
    {
      hide Srtcp.RtcpUnprotect;
      result := ReceiveBytes(sender.offered[position].packet);
      log := log + [Delivery(position, position, result)];
    }

    /** The network hands over something else. */
    method ReceiveForeign(packet: seq<byte>) returns (result: Option<seq<byte>>)
      requires Valid()
      modifies receiver
      ensures Valid() && Abs() == After(old(Abs()), Srtcp.RtcpInject(packet))
    {
      hide Srtcp.RtcpUnprotect, RtcpPairs;
      result := ReceiveBytes(packet);
    }

    method ReceiveBytes(packet: seq<byte>) returns (result: Option<seq<byte>>)
      requires Valid()
      modifies receiver
      ensures Valid()
      ensures (receiver.RtcpState(), result)
           == Srtcp.RtcpUnprotect(sender.crypto, sender.keys, sender.tagLen, old(receiver.RtcpState()), packet)
    {
      hide Srtcp.RtcpUnprotect;
      var data := new byte[|packet|];
      var end := Append(data, 0, packet);
      assert data[..end] == packet;
      var ret, len := receiver.UnprotectRtcp(data, end);
      result := if ret == 0 then Some(data[..len]) else None;
    }
  }
}
