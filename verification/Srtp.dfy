/** One SRTP packet at a time: what the sender and the receiver of
    src/transport/srtp.c compute, as functions of their state. */
module Srtp {
  import opened Bytes
  import opened SrtpCipher
  import opened ReplayWindow
  import opened RtpHeader
  import Bits

  const SEQ_MOD := 0x1_0000
  const INDEX_MOD := 0x1_0000_0000

  /** The source keeps packet indices in 32 bits, not 48. */
  function Index(roc: u32, sn: u16): u32 { (roc * SEQ_MOD + sn) % INDEX_MOD }

  function SequenceOf(packet: seq<byte>): u16
    requires |packet| >= 12
  {
    Be16(packet, 2)
  }

  function SsrcOf(packet: seq<byte>): u32
    requires |packet| >= 12
  {
    Word32(packet[8..12])
  }

  lemma Word32Bytes(s: seq<byte>)
    requires |s| == 4
    ensures Word32(s) == Be32(s, 0)
  {
    var x := Be32(s, 0);
    Be4Digits(s[0], s[1], s[2], s[3]);
    assert s == [s[0], s[1], s[2], s[3]];
    assert Pow256(4) == 0x1_0000_0000;
    BeRoundTrip(x, 4);
  }

  function Word32(s: seq<byte>): u32
    requires |s| == 4
  {
    BeNatRoundTrip(s);
    assert Pow256(4) == 0x1_0000_0000;
    BeNat(s)
  }

  /** The tag: HMAC over the encrypted packet followed by the rollover counter. */
  function Tag(c: Crypto, k: SessionKeys, tagLen: nat, encrypted: seq<byte>, roc: u32): (t: seq<byte>)
    requires TagLength(tagLen)
    ensures |t| == tagLen
  {
    c.hmac(k.auth, encrypted + Be(roc, 4))[..tagLen]
  }

  // ---------------------------------------------------------------- sender

  /** A packet offered to the inner transport, and whether it took it. */
  datatype Offer = Offer(packet: seq<byte>, taken: bool)

  datatype SendState = SendState(roc: u32, prevSeq: u16)

  /** The rollover counter is raised when the sequence number falls by more than half. */
  function Roll(st: SendState, sn: u16): SendState {
    SendState(if sn < st.prevSeq && st.prevSeq - sn > 0x7FFF then (st.roc + 1) % INDEX_MOD else st.roc, sn)
  }

  /** The packet fits the buffer together with its tag and has a whole header. */
  predicate Sendable(tagLen: nat, rtp: seq<byte>) {
    12 <= |rtp| <= MAX_PACKET - tagLen && SrtpHeaderLength(rtp).Some?
  }

  /** An RTP packet encrypted and tagged under a rollover counter. */
  function Seal(c: Crypto, k: SessionKeys, tagLen: nat, roc: u32, rtp: seq<byte>): seq<byte>
    requires TagLength(tagLen) && Sendable(tagLen, rtp)
  {
    var h := SrtpHeaderLength(rtp).value;
    var encrypted := rtp[..h] + Crypt(c, k, SsrcOf(rtp), Index(roc, SequenceOf(rtp)), rtp[h..]);
    encrypted + Tag(c, k, tagLen, encrypted, roc)
  }

  /** What goes over the wire, byte by byte: the header in clear, every payload
      byte xored with AES of its counter block, and at the end the first bytes of
      the HMAC of all that and the rollover counter. */
  lemma SealedBytes(c: Crypto, k: SessionKeys, tagLen: nat, roc: u32, rtp: seq<byte>, i: nat, b: Block)
    requires TagLength(tagLen) && Sendable(tagLen, rtp) && i < |rtp|
    requires var h := SrtpHeaderLength(rtp).value;
      var index := (roc * 0x1_0000 + Be16(rtp, 2)) % 0x1_0000_0000;
      i >= h ==> BeNat(b) == RfcCounter(k.salt, Be32(rtp, 8), index) + (i - h) / 16
    ensures var h, packet := SrtpHeaderLength(rtp).value, Seal(c, k, tagLen, roc, rtp);
      && |packet| == |rtp| + tagLen
      && packet[i] == (if i < h then rtp[i] else Bits.Xor(rtp[i], c.aes(k.key, b)[(i - h) % 16]))
      && var end := [roc / 0x100_0000, roc / 0x1_0000 % 256, roc / 256 % 256, roc % 256];
         packet[|rtp|..] == c.hmac(k.auth, packet[..|rtp|] + end)[..tagLen]
  {
    hide Crypt, RfcCounter, SrtpHeaderLength, BeNat;
    var h, sn := SrtpHeaderLength(rtp).value, SequenceOf(rtp);
    var body := Crypt(c, k, SsrcOf(rtp), Index(roc, sn), rtp[h..]);
    var encrypted := rtp[..h] + body;
    var packet := Seal(c, k, tagLen, roc, rtp);
    assert packet[..|rtp|] == encrypted;
    Be4(roc);
    assert packet[|rtp|..] == Tag(c, k, tagLen, encrypted, roc);
    assert packet[i] == encrypted[i];
    if i >= h {
      Word32Bytes(rtp[8..12]);
      CryptByte(c, k, SsrcOf(rtp), Index(roc, sn), rtp[h..], i - h, b);
    }
  }

  /** Exactly the packets with a whole header of at least 12 bytes and, with the
      tag, at most 2048 are sent. */
  lemma ProtectLimit(c: Crypto, k: SessionKeys, tagLen: nat, st: SendState, rtp: seq<byte>)
    requires TagLength(tagLen)
    ensures (tagLen == 10 || tagLen == 4)
      && (Protect(c, k, tagLen, st, rtp).1.Some? <==>
          12 <= |rtp| && |rtp| + tagLen <= 2048 && SrtpHeaderLength(rtp).Some?)
  {
    hide Seal, SrtpHeaderLength;
  }

  /** Both tag lengths are there. */
  lemma BothSuites()
    ensures TagLength(10) && TagLength(4)
  {
  }

  /** The new state, and the protected packet or `None` where the source returns
      -1 without handing anything to the inner transport.  A packet with a
      broken header is refused only after the rollover counter was updated. */
  function Protect(c: Crypto, k: SessionKeys, tagLen: nat, st: SendState, rtp: seq<byte>)
    : (r: (SendState, Option<seq<byte>>))
    requires TagLength(tagLen)
  {
    if |rtp| + tagLen > MAX_PACKET || |rtp| < 12 then (st, None)
    else
      var st' := Roll(st, SequenceOf(rtp));
      (st', if Sendable(tagLen, rtp) then Some(Seal(c, k, tagLen, st'.roc, rtp)) else None)
  }

  // -------------------------------------------------------------- receiver

  datatype RecvState = RecvState(initialized: bool, roc: u32, sl: u16, window: u64) {
    function Highest(): u32 { Index(roc, sl) }
  }

  const FRESH := RecvState(false, 0, 0, 0)

  function EstimateRoc(st: RecvState, sn: u16): u32 {
    if !st.initialized then 0
    else if st.sl < 0x8000 then
      if sn - st.sl > 0x8000 then (if st.roc == 0 then 0 else st.roc - 1) else st.roc
    else
      if st.sl - 0x8000 > sn then (st.roc + 1) % INDEX_MOD else st.roc
  }

  predicate ReplayOk(st: RecvState, index: u32) {
    !st.initialized || index > st.Highest() ||
    (st.Highest() - index < SIZE && !Seen(st.window, st.Highest() - index))
  }

  function ReplayUpdate(st: RecvState, sn: u16, roc: u32): RecvState
    requires ReplayOk(st, Index(roc, sn))
  {
    var index := Index(roc, sn);
    if !st.initialized then RecvState(true, roc, sn, 1)
    else if index > st.Highest() then RecvState(true, roc, sn, Advance(st.window, index - st.Highest()))
    else st.(window := Mark(st.window, st.Highest() - index))
  }

  /** The packet passes the length, replay and tag checks; from here on the
      source has changed its state. */
  predicate Authentic(c: Crypto, k: SessionKeys, tagLen: nat, st: RecvState, packet: seq<byte>)
    requires TagLength(tagLen)
  {
    && |packet| >= 12 + tagLen
    && var encrypted, sn := packet[..|packet| - tagLen], SequenceOf(packet);
    && var roc := EstimateRoc(st, sn);
    && ReplayOk(st, Index(roc, sn))
    && Tag(c, k, tagLen, encrypted, roc) == packet[|encrypted|..]
  }

  /** The index the receiver gives to a packet. */
  function Estimate(st: RecvState, packet: seq<byte>): u32
    requires |packet| >= 12
  {
    Index(EstimateRoc(st, SequenceOf(packet)), SequenceOf(packet))
  }

  /** How many bytes of its local buffer the source fills with the packet and the
      rollover counter: nothing for a packet it refuses before that. */
  function Copied(tagLen: nat, st: RecvState, packet: seq<byte>): nat {
    if |packet| < 12 + tagLen || !ReplayOk(st, Estimate(st, packet)) then 0 else |packet| - tagLen + 4
  }

  /** The call has an outcome.  The source does not look at the length before it
      copies: a longer packet that is no replay runs past the buffer, whatever
      its tag. */
  predicate CopyFits(tagLen: nat, st: RecvState, packet: seq<byte>) {
    |packet| < 12 + tagLen || !ReplayOk(st, Estimate(st, packet)) || |packet| - tagLen <= 2048
  }

  /** The buffer has 2052 bytes; exactly the packets that fit stay inside it. */
  lemma CopyInBounds(tagLen: nat, st: RecvState, packet: seq<byte>)
    ensures Copied(tagLen, st, packet) <= 2052 <==> CopyFits(tagLen, st, packet)
  {
    hide ReplayOk, Estimate;
  }

  /** A fresh receiver has no outcome for 3000 zeros. */
  lemma LongPacketRunsOver(tagLen: nat)
    requires TagLength(tagLen)
    ensures Copied(tagLen, FRESH, Zeros(3000)) == 3004 - tagLen > 2052
    ensures !CopyFits(tagLen, FRESH, Zeros(3000))
  {
    hide EstimateRoc, SequenceOf;
  }

  /** The new state, and the recovered RTP packet or `None` where the source
      returns -1.  This is what the source does where `CopyFits`. */
  function Unprotect(c: Crypto, k: SessionKeys, tagLen: nat, st: RecvState, packet: seq<byte>)
    : (r: (RecvState, Option<seq<byte>>))
    requires TagLength(tagLen)
  {
    if !Authentic(c, k, tagLen, st, packet) then (st, None)
    else
      var encrypted, sn := packet[..|packet| - tagLen], SequenceOf(packet);
      var st' := ReplayUpdate(st, sn, EstimateRoc(st, sn));
      match SrtpHeaderLength(encrypted)
      case None => (st', None)
      case Some(h) =>
        (st', Some(encrypted[..h] + Crypt(c, k, SsrcOf(packet), Estimate(st, packet), encrypted[h..])))
  }

  // -------------------------------------------------- one packet, both ends

  /** The header length is read from bytes encryption leaves alone. */
  lemma HeaderLengthKept(rtp: seq<byte>, body: seq<byte>)
    requires |rtp| >= 12 && SrtpHeaderLength(rtp).Some?
    requires |body| == |rtp| - SrtpHeaderLength(rtp).value
    ensures SrtpHeaderLength(rtp[..SrtpHeaderLength(rtp).value] + body) == SrtpHeaderLength(rtp)
  {
    var h := SrtpHeaderLength(rtp).value;
    var p := rtp[..h] + body;
    var fixed := 12 + (rtp[0] % 16) * 4;
    assert p[0] == rtp[0];
    if (rtp[0] / 16) % 2 == 1 && fixed + 4 <= |rtp| {
      assert p[fixed + 2..fixed + 4] == rtp[fixed + 2..fixed + 4];
    }
  }

  /** If the receiver estimates the rollover counter a packet was sealed under,
      it accepts the packet exactly when its index is not a replay, and what it
      returns is the original RTP packet. */
  lemma UnsealSealed(c: Crypto, k: SessionKeys, tagLen: nat, roc: u32, rtp: seq<byte>, st: RecvState)
    requires TagLength(tagLen) && Sendable(tagLen, rtp)
    requires EstimateRoc(st, SequenceOf(rtp)) == roc
    ensures var packet := Seal(c, k, tagLen, roc, rtp);
      && |packet| >= 12 && SequenceOf(packet) == SequenceOf(rtp)
      && Unprotect(c, k, tagLen, st, packet)
         == (if ReplayOk(st, Index(roc, SequenceOf(rtp)))
             then (ReplayUpdate(st, SequenceOf(rtp), roc), Some(rtp)) else (st, None))
  {
    hide Crypt, Tag, ReplayOk, ReplayUpdate, EstimateRoc, SrtpHeaderLength;
    var sn, ssrc, h := SequenceOf(rtp), SsrcOf(rtp), SrtpHeaderLength(rtp).value;
    var body := Crypt(c, k, ssrc, Index(roc, sn), rtp[h..]);
    var encrypted := rtp[..h] + body;
    var packet := Seal(c, k, tagLen, roc, rtp);
    assert packet[..|packet| - tagLen] == encrypted;
    assert packet[|encrypted|..] == Tag(c, k, tagLen, encrypted, roc);
    assert packet[2..4] == rtp[2..4] && packet[8..12] == rtp[8..12];
    assert Authentic(c, k, tagLen, st, packet) == ReplayOk(st, Index(roc, sn));
    hide Crypt, Tag, Seal, Authentic, ReplayOk, ReplayUpdate, EstimateRoc, SrtpHeaderLength;
    if ReplayOk(st, Index(roc, sn)) {
      HeaderLengthKept(rtp, body);
      CryptRoundTrip(c, k, ssrc, Index(roc, sn), rtp[h..]);
      assert encrypted[..h] == rtp[..h] && encrypted[h..] == body;
      assert rtp[..h] + rtp[h..] == rtp;
    }
  }

  /** A -1 leaves the receiver unchanged exactly when the packet was not
      authentic: an authentic packet whose header claims more bytes than it has
      is refused after the window has moved. */
  lemma FailureKeepsState(c: Crypto, k: SessionKeys, tagLen: nat, st: RecvState, packet: seq<byte>)
    requires TagLength(tagLen)
    requires Unprotect(c, k, tagLen, st, packet).1.None?
    ensures Unprotect(c, k, tagLen, st, packet).0 == st <==> !Authentic(c, k, tagLen, st, packet)
  {
    if Authentic(c, k, tagLen, st, packet) {
      UpdateChanges(st, SequenceOf(packet), EstimateRoc(st, SequenceOf(packet)));
    }
  }

  /** A -1 on this packet leaves the receiver unchanged. */
  predicate FailsCleanly(c: Crypto, k: SessionKeys, tagLen: nat, st: RecvState, packet: seq<byte>)
    requires TagLength(tagLen)
  {
    var (st', result) := Unprotect(c, k, tagLen, st, packet);
    result.None? ==> st' == st
  }

  /** What a caller can see without the key: whatever the tag, a -1 leaves the
      receiver unchanged, exactly when the header fits in front of the tag or the
      index is a replay. */
  lemma CleanForEveryTag(c: Crypto, k: SessionKeys, tagLen: nat, st: RecvState, encrypted: seq<byte>)
    requires TagLength(tagLen) && 12 <= |encrypted| <= MAX_PACKET
    ensures (forall tag: seq<byte> | |tag| == tagLen :: FailsCleanly(c, k, tagLen, st, encrypted + tag)) <==>
      SrtpHeaderLength(encrypted).Some? || !ReplayOk(st, Estimate(st, encrypted))
  {
    hide Crypt, Tag, ReplayOk, ReplayUpdate, EstimateRoc, SrtpHeaderLength, SequenceOf, SsrcOf;
    forall tag: seq<byte> | |tag| == tagLen
      ensures (encrypted + tag)[..|encrypted|] == encrypted && (encrypted + tag)[|encrypted|..] == tag
      ensures SequenceOf(encrypted + tag) == SequenceOf(encrypted)
    {
      SameSequence(encrypted, tag);
    }
    if SrtpHeaderLength(encrypted).None? && ReplayOk(st, Estimate(st, encrypted)) {
      var sn := SequenceOf(encrypted);
      var tag := Tag(c, k, tagLen, encrypted, EstimateRoc(st, sn));
      UpdateChanges(st, sn, EstimateRoc(st, sn));
      assert !FailsCleanly(c, k, tagLen, st, encrypted + tag);
    }
  }

  lemma SameSequence(encrypted: seq<byte>, tag: seq<byte>)
    requires |encrypted| >= 12
    ensures SequenceOf(encrypted + tag) == SequenceOf(encrypted)
  {
  }

  lemma UpdateChanges(st: RecvState, sn: u16, roc: u32)
    requires ReplayOk(st, Index(roc, sn))
    ensures ReplayUpdate(st, sn, roc) != st
  {
    var index := Index(roc, sn);
    if st.initialized && index <= st.Highest() {
      var delta := st.Highest() - index;
      MarkSets(st.window, delta);
      SeenReadsBit(st.window, delta);
    }
  }

  lemma MarkSets(window: u64, delta: nat)
    requires delta < SIZE
    ensures Bits.Bit(Mark(window, delta), delta)
  {
    OneBit(delta);
    Bits.BitOr(window, Bits.Pow2(delta), delta);
    Bits.BitPow2(delta, delta);
  }

  /** Such a packet exists for every key: one CSRC announced in twelve bytes. */
  lemma FailureCanChangeState(c: Crypto, k: SessionKeys, tagLen: nat)
    requires TagLength(tagLen)
    ensures var header := [129] + Zeros(11);
      var packet := header + Tag(c, k, tagLen, header, 0);
      Unprotect(c, k, tagLen, FRESH, packet) == (RecvState(true, 0, 0, 1), None)
  {
    hide Tag, Crypt;
    var header := [129] + Zeros(11);
    var packet := header + Tag(c, k, tagLen, header, 0);
    assert packet[2] == header[2] == 0 && packet[3] == header[3] == 0;
    assert SequenceOf(packet) == 0;
    hide SequenceOf, SsrcOf;
    assert packet[..|packet| - tagLen] == header && packet[|header|..] == Tag(c, k, tagLen, header, 0);
  }
}
