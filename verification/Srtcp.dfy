/** SRTCP (section 3.4 of RFC 3711): an explicit index travels with each packet. */
module Srtcp {
  import opened Bits
  import opened Bytes
  import opened SrtpCipher
  import opened ReplayWindow
  import opened SrtpReceiver
  import opened DeliveryLog
  import opened Srtp

  const E_FLAG := 0x8000_0000

  /** `index | 0x80000000` in 32 bits. */
  function WithEFlag(index: u32): u32 { if index < E_FLAG then index + E_FLAG else index }

  function RtcpSsrc(packet: seq<byte>): u32
    requires |packet| >= 8
  {
    Word32(packet[4..8])
  }

  function Mac(c: Crypto, k: SessionKeys, tagLen: nat, covered: seq<byte>): (t: seq<byte>)
    requires TagLength(tagLen)
    ensures |t| == tagLen
  {
    c.hmac(k.auth, covered)[..tagLen]
  }

  predicate RtcpSendable(tagLen: nat, rtcp: seq<byte>) {
    8 <= |rtcp| && |rtcp| + 4 + tagLen <= MAX_PACKET
  }

  /** Everything after the SSRC is encrypted; the index is not masked to 31 bits
      before it is used. */
  function RtcpSeal(c: Crypto, k: SessionKeys, tagLen: nat, index: u32, rtcp: seq<byte>): seq<byte>
    requires TagLength(tagLen) && RtcpSendable(tagLen, rtcp)
  {
    var covered := rtcp[..8] + Crypt(c, k, RtcpSsrc(rtcp), index, rtcp[8..]) + Be(WithEFlag(index), 4);
    covered + Mac(c, k, tagLen, covered)
  }

  /** The next index, and the packet handed to the inner transport if any.  The
      index advances whether or not the inner transport then fails. */
  function RtcpProtect(c: Crypto, k: SessionKeys, tagLen: nat, index: u32, rtcp: seq<byte>): (u32, Option<seq<byte>>)
    requires TagLength(tagLen)
  {
    if RtcpSendable(tagLen, rtcp)
    then ((index + 1) % INDEX_MOD, Some(RtcpSeal(c, k, tagLen, index, rtcp)))
    else (index, None)
  }

  datatype RtcpState = RtcpState(highest: u32, window: u64)

  const RTCP_FRESH := RtcpState(0, 0)

  predicate RtcpReplayOk(st: RtcpState, index: u32) {
    index > st.highest || (st.highest - index < SIZE && !Seen(st.window, st.highest - index))
  }

  function RtcpUpdate(st: RtcpState, index: u32): RtcpState {
    if index > st.highest then RtcpState(index, Advance(st.window, index - st.highest))
    else st.(window := Mark(st.window, st.highest - index))
  }

  /** The 32-bit word before the tag: E flag and 31-bit index. */
  function IndexWord(tagLen: nat, packet: seq<byte>): u32
    requires |packet| >= 12 + tagLen
  {
    Word32(packet[|packet| - tagLen - 4..|packet| - tagLen])
  }

  predicate RtcpAuthentic(c: Crypto, k: SessionKeys, tagLen: nat, st: RtcpState, packet: seq<byte>)
    requires TagLength(tagLen)
  {
    && |packet| >= 12 + tagLen
    && Mac(c, k, tagLen, packet[..|packet| - tagLen]) == packet[|packet| - tagLen..]
    && RtcpReplayOk(st, IndexWord(tagLen, packet) % E_FLAG)
  }

  /** A packet that is not accepted leaves the state as it was. */
  function RtcpUnprotect(c: Crypto, k: SessionKeys, tagLen: nat, st: RtcpState, packet: seq<byte>)
    : (RtcpState, Option<seq<byte>>)
    requires TagLength(tagLen)
  {
    if !RtcpAuthentic(c, k, tagLen, st, packet) then (st, None)
    else
      var word, end := IndexWord(tagLen, packet), |packet| - tagLen - 4;
      var index := word % E_FLAG;
      (RtcpUpdate(st, index),
       Some(if word >= E_FLAG then packet[..8] + Crypt(c, k, RtcpSsrc(packet), index, packet[8..end])
            else packet[..end]))
  }

  // ------------------------------------------------------- arbitrary packets

  /** The state after receiving `packets` from the all-zero state, and the
      indices that were accepted. */
  function RtcpRun(c: Crypto, k: SessionKeys, tagLen: nat, packets: seq<seq<byte>>): (RtcpState, set<nat>)
    requires TagLength(tagLen)
  {
    if |packets| == 0 then (RTCP_FRESH, {})
    else
      var n := |packets| - 1;
      var (st, accepted) := RtcpRun(c, k, tagLen, packets[..n]);
      (RtcpUnprotect(c, k, tagLen, st, packets[n]).0,
       accepted + if RtcpAuthentic(c, k, tagLen, st, packets[n]) then {IndexWord(tagLen, packets[n]) % E_FLAG} else {})
  }

  /** Index 0 needs no special case: an empty set and a zero highest index look
      like a window in which nothing has been seen yet. */
  ghost predicate RtcpDescribes(st: RtcpState, accepted: set<nat>) {
    && Tracks(st.highest, st.window, accepted)
    && (st.highest in accepted || (st.highest == 0 && accepted == {}))
  }

  lemma RtcpReplayIsFreshness(st: RtcpState, accepted: set<nat>, index: u32)
    requires RtcpDescribes(st, accepted)
    ensures RtcpReplayOk(st, index) <==> Fresh(accepted, index)
  {
    if index <= st.highest < index + 64 {
      SeenIsMembership(st.highest, st.window, accepted, index);
    }
  }

  lemma RtcpUpdateDescribes(st: RtcpState, accepted: set<nat>, index: u32)
    requires RtcpDescribes(st, accepted) && RtcpReplayOk(st, index)
    ensures RtcpDescribes(RtcpUpdate(st, index), accepted + {index})
    ensures RtcpUpdate(st, index).highest >= st.highest
  {
    if index > st.highest {
      AdvanceTracks(st.highest, st.window, accepted, index);
    } else {
      MarkTracks(st.highest, st.window, accepted, index);
    }
  }

  lemma RtcpNothingAccepted()
    ensures RtcpDescribes(RTCP_FRESH, {})
  {
    forall d: nat | d < 64 ensures !Bit(0, d) { BitZero(d); }
  }

  /** In every run on arbitrary packets the window is the set of accepted
      indices, so no index is accepted twice. */
  lemma {:induction false} RtcpWindowRefinesSet(c: Crypto, k: SessionKeys, tagLen: nat, packets: seq<seq<byte>>)
    requires TagLength(tagLen)
    ensures var (st, accepted) := RtcpRun(c, k, tagLen, packets); RtcpDescribes(st, accepted)
  {
    hide Mac, Crypt, RtcpReplayOk, RtcpUpdate, RtcpDescribes;
    if |packets| == 0 {
      RtcpNothingAccepted();
    } else {
      var n := |packets| - 1;
      RtcpWindowRefinesSet(c, k, tagLen, packets[..n]);
      var (st, accepted) := RtcpRun(c, k, tagLen, packets[..n]);
      if RtcpAuthentic(c, k, tagLen, st, packets[n]) {
        RtcpUpdateDescribes(st, accepted, IndexWord(tagLen, packets[n]) % E_FLAG);
      } else {
        assert accepted + {} == accepted;
      }
    }
  }

  /** The next packet of any run is accepted exactly when it is long enough, its
      tag is right and its index is fresh among those accepted. */
  lemma RtcpNextPacket(c: Crypto, k: SessionKeys, tagLen: nat, packets: seq<seq<byte>>, packet: seq<byte>)
    requires TagLength(tagLen)
    ensures var (st, accepted) := RtcpRun(c, k, tagLen, packets);
      RtcpUnprotect(c, k, tagLen, st, packet).1.Some? <==>
        && |packet| >= 12 + tagLen
        && Mac(c, k, tagLen, packet[..|packet| - tagLen]) == packet[|packet| - tagLen..]
        && Fresh(accepted, IndexWord(tagLen, packet) % E_FLAG)
  {
    hide Mac, Crypt, RtcpReplayOk, RtcpUpdate, RtcpDescribes;
    RtcpWindowRefinesSet(c, k, tagLen, packets);
    var (st, accepted) := RtcpRun(c, k, tagLen, packets);
    if |packet| >= 12 + tagLen {
      RtcpReplayIsFreshness(st, accepted, IndexWord(tagLen, packet) % E_FLAG);
    }
  }

  // -------------------------------------------------- one packet, both ends

  /** Below 2^31 the receiver reads the sender's index back. */
  lemma SealedIndex(c: Crypto, k: SessionKeys, tagLen: nat, index: u32, rtcp: seq<byte>)
    requires TagLength(tagLen) && RtcpSendable(tagLen, rtcp)
    ensures var packet := RtcpSeal(c, k, tagLen, index, rtcp);
      |packet| == |rtcp| + 4 + tagLen && IndexWord(tagLen, packet) == WithEFlag(index)
  {
    hide Crypt, Mac;
    var packet := RtcpSeal(c, k, tagLen, index, rtcp);
    assert packet[|rtcp|..|rtcp| + 4] == Be(WithEFlag(index), 4);
    assert Pow256(4) == 0x1_0000_0000;
    BeRoundTrip(WithEFlag(index), 4);
  }

  lemma RtcpUnseal(c: Crypto, k: SessionKeys, tagLen: nat, index: u32, rtcp: seq<byte>, st: RtcpState)
    requires TagLength(tagLen) && RtcpSendable(tagLen, rtcp) && index < E_FLAG
    ensures RtcpUnprotect(c, k, tagLen, st, RtcpSeal(c, k, tagLen, index, rtcp))
         == if RtcpReplayOk(st, index) then (RtcpUpdate(st, index), Some(rtcp)) else (st, None)
  {
    hide Crypt, Mac, RtcpReplayOk, RtcpUpdate, Be;
    var packet := RtcpSeal(c, k, tagLen, index, rtcp);
    SealedIndex(c, k, tagLen, index, rtcp);
    var body := Crypt(c, k, RtcpSsrc(rtcp), index, rtcp[8..]);
    var covered := rtcp[..8] + body + Be(WithEFlag(index), 4);
    assert packet[..|packet| - tagLen] == covered && packet[|packet| - tagLen..] == Mac(c, k, tagLen, covered);
    assert packet[..8] == rtcp[..8] && packet[8..|rtcp|] == body;
    assert packet[4..8] == rtcp[4..8];
    CryptRoundTrip(c, k, RtcpSsrc(rtcp), index, rtcp[8..]);
    assert rtcp[..8] + rtcp[8..] == rtcp;
  }

  /** What goes over the wire, byte by byte: eight bytes in clear, the rest xored
      with AES of its counter block, the index under the E flag, and the first
      bytes of the HMAC of all that. */
  lemma RtcpSealedBytes(c: Crypto, k: SessionKeys, tagLen: nat, index: u32, rtcp: seq<byte>, i: nat, b: Block)
    requires TagLength(tagLen) && RtcpSendable(tagLen, rtcp) && i < |rtcp|
    requires i >= 8 ==> BeNat(b) == RfcCounter(k.salt, Be32(rtcp, 4), index) + (i - 8) / 16
    ensures var n, packet := |rtcp|, RtcpSeal(c, k, tagLen, index, rtcp);
      && |packet| == n + 4 + tagLen
      && packet[i] == (if i < 8 then rtcp[i] else Xor(rtcp[i], c.aes(k.key, b)[(i - 8) % 16]))
      && (index < 0x8000_0000 ==> Be32(packet, n) == 0x8000_0000 + index)
      && packet[n + 4..] == c.hmac(k.auth, packet[..n + 4])[..tagLen]
  {
    hide Crypt, RfcCounter, BeNat, Xor;
    var n, packet := |rtcp|, RtcpSeal(c, k, tagLen, index, rtcp);
    var body := Crypt(c, k, RtcpSsrc(rtcp), index, rtcp[8..]);
    var word := WithEFlag(index);
    var covered := rtcp[..8] + body + Be(word, 4);
    assert packet[..n + 4] == covered && packet[n + 4..] == Mac(c, k, tagLen, covered);
    assert packet[i] == (rtcp[..8] + body)[i];
    Be4(word);
    hide Be;
    assert packet[n..n + 4] == Be(word, 4);
    assert packet[n] == packet[n..n + 4][0] && packet[n + 1] == packet[n..n + 4][1];
    assert packet[n + 2] == packet[n..n + 4][2] && packet[n + 3] == packet[n..n + 4][3];
    WordDigits(word);
    if i >= 8 {
      Word32Bytes(rtcp[4..8]);
      CryptByte(c, k, RtcpSsrc(rtcp), index, rtcp[8..], i - 8, b);
    }
  }

  /** Exactly the packets of at least 8 bytes and, with index and tag, at most 2048
      are sent. */
  lemma RtcpProtectLimit(c: Crypto, k: SessionKeys, tagLen: nat, index: u32, rtcp: seq<byte>)
    requires TagLength(tagLen)
    ensures RtcpProtect(c, k, tagLen, index, rtcp).1.Some? <==> 8 <= |rtcp| && |rtcp| + 4 + tagLen <= 2048
  {
    hide RtcpSeal;
  }

  /** An accepted packet without the E flag is returned as it came. */
  lemma RtcpClearPasses(c: Crypto, k: SessionKeys, tagLen: nat, st: RtcpState, packet: seq<byte>)
    requires TagLength(tagLen) && RtcpAuthentic(c, k, tagLen, st, packet)
    requires packet[|packet| - tagLen - 4] < 128
    ensures RtcpUnprotect(c, k, tagLen, st, packet).1 == Some(packet[..|packet| - tagLen - 4])
  {
    hide Mac, RtcpReplayOk, Crypt, RtcpUpdate, Word32;
    Word32Bytes(packet[|packet| - tagLen - 4..|packet| - tagLen]);
  }

  /** The sender does not mask its index, the receiver does: they use the same
      counter block exactly while the index is below 2^31. */
  lemma IvAgreement(salt: Salt, ssrc: u32, index: u32)
    ensures Iv(salt, ssrc, WithEFlag(index) % E_FLAG) == Iv(salt, ssrc, index) <==> index < E_FLAG
  {
    hide CounterBlock, Iv;
    if index >= E_FLAG && Iv(salt, ssrc, WithEFlag(index) % E_FLAG) == Iv(salt, ssrc, index) {
      CounterBlocksDistinct(salt, ssrc, WithEFlag(index) % E_FLAG, 0, ssrc, index, 0);
    }
  }

  // ------------------------------------------------------------- whole runs

  datatype RtcpSent = RtcpSent(rtcp: seq<byte>, packet: seq<byte>)

  datatype RtcpSystem = RtcpSystem(index: u32, sent: seq<RtcpSent>, receiver: RtcpState, log: seq<Delivery>)

  datatype RtcpEvent = RtcpSend(rtcp: seq<byte>) | RtcpDeliver(position: nat) | RtcpInject(packet: seq<byte>)

  /** Packets handed to the inner transport may be lost, repeated or reordered. */
  function RtcpStep(c: Crypto, k: SessionKeys, tagLen: nat, s: RtcpSystem, e: RtcpEvent): RtcpSystem
    requires TagLength(tagLen) && (e.RtcpDeliver? ==> e.position < |s.sent|)
  {
    match e
    case RtcpSend(rtcp) =>
      var (index, packet) := RtcpProtect(c, k, tagLen, s.index, rtcp);
      s.(index := index, sent := s.sent + if packet.Some? then [RtcpSent(rtcp, packet.value)] else [])
    case RtcpDeliver(position) =>
      var (receiver, result) := RtcpUnprotect(c, k, tagLen, s.receiver, s.sent[position].packet);
      s.(receiver := receiver, log := s.log + [Delivery(position, position, result)])
    case RtcpInject(packet) =>
      s.(receiver := RtcpUnprotect(c, k, tagLen, s.receiver, packet).0)
  }

  /** Fewer than 2^31 packets are sent; deliveries are not restricted; injected
      packets do not carry a valid tag for a fresh index. */
  predicate RtcpEnabled(c: Crypto, k: SessionKeys, tagLen: nat, s: RtcpSystem, e: RtcpEvent)
    requires TagLength(tagLen)
  {
    match e
    case RtcpSend(_) => |s.sent| < E_FLAG
    case RtcpDeliver(position) => position < |s.sent|
    case RtcpInject(packet) => !RtcpAuthentic(c, k, tagLen, s.receiver, packet)
  }

  function RtcpSystemRun(c: Crypto, k: SessionKeys, tagLen: nat, events: seq<RtcpEvent>): Option<RtcpSystem>
    requires TagLength(tagLen)
  {
    if |events| == 0 then Some(RtcpSystem(0, [], RTCP_FRESH, []))
    else
      var e := events[|events| - 1];
      match RtcpSystemRun(c, k, tagLen, events[..|events| - 1])
      case None => None
      case Some(s) => if RtcpEnabled(c, k, tagLen, s, e) then Some(RtcpStep(c, k, tagLen, s, e)) else None
  }

  ghost predicate RtcpCarries(c: Crypto, k: SessionKeys, tagLen: nat, item: RtcpSent, index: nat)
    requires TagLength(tagLen)
  {
    index < E_FLAG && RtcpSendable(tagLen, item.rtcp) && item.packet == RtcpSeal(c, k, tagLen, index, item.rtcp)
  }

  predicate RtcpLoggedRight(s: RtcpSystem, j: nat)
    requires j < |s.log|
  {
    && s.log[j].slot == s.log[j].packet < |s.sent|
    && s.log[j].result == if FreshSlot(s.log[..j], s.log[j].slot)
                          then Some(s.sent[s.log[j].packet].rtcp) else None
  }

  ghost predicate RtcpInvariant(c: Crypto, k: SessionKeys, tagLen: nat, s: RtcpSystem)
    requires TagLength(tagLen)
  {
    && s.index == |s.sent|
    && (forall p :: 0 <= p < |s.sent| ==> RtcpCarries(c, k, tagLen, s.sent[p], p))
    && RtcpDescribes(s.receiver, Indices(0, s.log))
    && forall j :: 0 <= j < |s.log| ==> RtcpLoggedRight(s, j)
  }

  lemma RtcpDeliverStep(c: Crypto, k: SessionKeys, tagLen: nat, s: RtcpSystem, position: nat)
    requires TagLength(tagLen) && position < |s.sent|
    requires RtcpDescribes(s.receiver, Indices(0, s.log)) && RtcpCarries(c, k, tagLen, s.sent[position], position)
    ensures var s' := RtcpStep(c, k, tagLen, s, RtcpDeliver(position));
      && s'.log == s.log + [Delivery(position, position,
                                     if FreshSlot(s.log, position) then Some(s.sent[position].rtcp) else None)]
      && RtcpDescribes(s'.receiver, Indices(0, s'.log))
  {
    hide RtcpSeal, RtcpUnprotect, RtcpDescribes, RtcpReplayOk, RtcpUpdate, Fresh, FreshSlot, Indices;
    var item := s.sent[position];
    RtcpUnseal(c, k, tagLen, position, item.rtcp, s.receiver);
    RtcpReplayIsFreshness(s.receiver, Indices(0, s.log), position);
    FreshIsFreshSlot(0, s.log, position);
    if RtcpReplayOk(s.receiver, position) {
      RtcpUpdateDescribes(s.receiver, Indices(0, s.log), position);
      IndicesAppend(0, s.log, Delivery(position, position, Some(item.rtcp)));
    } else {
      IndicesAppend(0, s.log, Delivery(position, position, None));
      assert Indices(0, s.log) + {} == Indices(0, s.log);
    }
  }

  lemma RtcpSendKeepsInvariant(c: Crypto, k: SessionKeys, tagLen: nat, s: RtcpSystem, e: RtcpEvent)
    requires TagLength(tagLen) && RtcpInvariant(c, k, tagLen, s) && e.RtcpSend? && |s.sent| < E_FLAG
    ensures RtcpInvariant(c, k, tagLen, RtcpStep(c, k, tagLen, s, e))
  {
    hide RtcpSeal, RtcpDescribes, FreshSlot, Indices;
    var s' := RtcpStep(c, k, tagLen, s, e);
    forall j | 0 <= j < |s'.log| ensures RtcpLoggedRight(s', j) {
      assert RtcpLoggedRight(s, j);
      assert s'.sent[s.log[j].packet] == s.sent[s.log[j].packet];
    }
  }

  lemma RtcpDeliverKeepsInvariant(c: Crypto, k: SessionKeys, tagLen: nat, s: RtcpSystem, position: nat)
    requires TagLength(tagLen) && RtcpInvariant(c, k, tagLen, s) && position < |s.sent|
    ensures RtcpInvariant(c, k, tagLen, RtcpStep(c, k, tagLen, s, RtcpDeliver(position)))
  {
    hide RtcpUnprotect, RtcpDescribes, FreshSlot, Indices, RtcpCarries;
    var s' := RtcpStep(c, k, tagLen, s, RtcpDeliver(position));
    RtcpDeliverStep(c, k, tagLen, s, position);
    forall j | 0 <= j < |s'.log| ensures RtcpLoggedRight(s', j) {
      if j < |s.log| {
        assert RtcpLoggedRight(s, j);
        assert s'.log[..j] == s.log[..j];
      } else {
        assert s'.log[..j] == s.log;
      }
    }
  }

  /** What does not carry a valid tag for a fresh index changes nothing at all. */
  lemma RtcpInjectChangesNothing(c: Crypto, k: SessionKeys, tagLen: nat, s: RtcpSystem, packet: seq<byte>)
    requires TagLength(tagLen) && !RtcpAuthentic(c, k, tagLen, s.receiver, packet)
    ensures RtcpStep(c, k, tagLen, s, RtcpInject(packet)) == s
  {
    hide RtcpAuthentic;
  }

  lemma RtcpStepKeepsInvariant(c: Crypto, k: SessionKeys, tagLen: nat, s: RtcpSystem, e: RtcpEvent)
    requires TagLength(tagLen) && RtcpInvariant(c, k, tagLen, s) && RtcpEnabled(c, k, tagLen, s, e)
    ensures RtcpInvariant(c, k, tagLen, RtcpStep(c, k, tagLen, s, e))
  {
    hide RtcpInvariant, RtcpStep, RtcpAuthentic;
    match e
    case RtcpSend(_) => RtcpSendKeepsInvariant(c, k, tagLen, s, e);
    case RtcpDeliver(position) => RtcpDeliverKeepsInvariant(c, k, tagLen, s, position);
    case RtcpInject(packet) => RtcpInjectChangesNothing(c, k, tagLen, s, packet);
  }

  lemma {:induction false} RtcpRunKeepsInvariant(c: Crypto, k: SessionKeys, tagLen: nat, events: seq<RtcpEvent>)
    requires TagLength(tagLen) && RtcpSystemRun(c, k, tagLen, events).Some?
    ensures RtcpInvariant(c, k, tagLen, RtcpSystemRun(c, k, tagLen, events).value)
    decreases |events|
  {
    hide RtcpStep, RtcpEnabled;
    if |events| == 0 {
      RtcpNothingAccepted();
      assert Indices(0, []) == {};
    } else {
      var n := |events| - 1;
      RtcpRunKeepsInvariant(c, k, tagLen, events[..n]);
      RtcpStepKeepsInvariant(c, k, tagLen, RtcpSystemRun(c, k, tagLen, events[..n]).value, events[n]);
    }
  }

  /** In every run with fewer than 2^31 sends, under any order of delivery: a
      delivery returns the original packet exactly when it is the first accepted
      one of its index and nothing accepted is 64 or more ahead. */
  lemma RtcpEndToEnd(c: Crypto, k: SessionKeys, tagLen: nat, events: seq<RtcpEvent>, s: RtcpSystem, j: nat)
    requires TagLength(tagLen) && RtcpSystemRun(c, k, tagLen, events) == Some(s) && j < |s.log|
    ensures RtcpLoggedRight(s, j)
  {
    hide RtcpCarries, RtcpDescribes, RtcpLoggedRight, RtcpStep, RtcpEnabled;
    RtcpRunKeepsInvariant(c, k, tagLen, events);
  }

  /** The counter block that block `n` of a packet handed on is encrypted with. */
  function RtcpBlockOf(k: SessionKeys, s: RtcpSystem, p: nat, n: nat): Block
    requires p < |s.sent| && p < INDEX_MOD && |s.sent[p].rtcp| >= 8
  {
    CounterBlock(Iv(k.salt, RtcpSsrc(s.sent[p].rtcp), p), n)
  }

  /** These are the blocks the packets of a run are encrypted with. */
  lemma RtcpHandedBytes(c: Crypto, k: SessionKeys, tagLen: nat, events: seq<RtcpEvent>, s: RtcpSystem, p: nat, i: nat)
    requires TagLength(tagLen) && RtcpSystemRun(c, k, tagLen, events) == Some(s)
    requires p < |s.sent| && 8 <= i < |s.sent[p].rtcp|
    ensures p < INDEX_MOD && i < |s.sent[p].packet|
    ensures s.sent[p].packet[i]
         == Xor(s.sent[p].rtcp[i], c.aes(k.key, RtcpBlockOf(k, s, p, (i - 8) / 16))[(i - 8) % 16])
  {
    hide RtcpDescribes, RtcpLoggedRight, RtcpStep, RtcpEnabled, CounterBlock, Iv, RfcCounter, BeNat, RtcpSeal, Xor;
    RtcpRunKeepsInvariant(c, k, tagLen, events);
    var rtcp := s.sent[p].rtcp;
    Word32Bytes(rtcp[4..8]);
    var ssrc, n := RtcpSsrc(rtcp), (i - 8) / 16;
    IvCounts(k.salt, ssrc, p);
    CounterCounts(k.salt, ssrc, p, n);
    RtcpSealedBytes(c, k, tagLen, p, rtcp, i, RtcpBlockOf(k, s, p, n));
  }

  lemma RtcpCarriedLength(c: Crypto, k: SessionKeys, tagLen: nat, item: RtcpSent, index: nat)
    requires TagLength(tagLen) && RtcpCarries(c, k, tagLen, item, index)
    ensures index < E_FLAG && 8 <= |item.rtcp| <= MAX_PACKET
  {
    hide RtcpSeal;
  }

  /** The index is used up whether or not the inner transport takes the packet, so
      packets handed on never share a counter block, not even refused ones. */
  lemma RtcpKeystreamNeverReused(c: Crypto, k: SessionKeys, tagLen: nat, events: seq<RtcpEvent>, s: RtcpSystem,
                                 p: nat, n: nat, q: nat, n': nat)
    requires TagLength(tagLen) && RtcpSystemRun(c, k, tagLen, events) == Some(s)
    requires p < |s.sent| && q < |s.sent| && (p != q || n != n')
    requires n * 16 < |s.sent[p].rtcp| && n' * 16 < |s.sent[q].rtcp|
    ensures p < INDEX_MOD && q < INDEX_MOD && |s.sent[p].rtcp| >= 8 && |s.sent[q].rtcp| >= 8
    ensures RtcpBlockOf(k, s, p, n) != RtcpBlockOf(k, s, q, n')
  {
    hide RtcpCarries, RtcpDescribes, RtcpLoggedRight, RtcpStep, RtcpEnabled, CounterBlock, Iv;
    RtcpRunKeepsInvariant(c, k, tagLen, events);
    RtcpCarriedLength(c, k, tagLen, s.sent[p], p);
    RtcpCarriedLength(c, k, tagLen, s.sent[q], q);
    if RtcpBlockOf(k, s, p, n) == RtcpBlockOf(k, s, q, n') {
      CounterBlocksDistinct(k.salt, RtcpSsrc(s.sent[p].rtcp), p, n, RtcpSsrc(s.sent[q].rtcp), q, n');
    }
  }
}
