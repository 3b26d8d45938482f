/** The sender and receiver contexts of src/transport/srtp.c, updating their
    fields and packet buffers in place as the source does. */
module SrtpContext {
  import opened Bits
  import opened Bytes
  import opened Buffers
  import opened SrtpCipher
  import opened ReplayWindow
  import opened RtpHeader
  import opened SrtpKeys
  import Srtp
  import Srtcp

  // ------------------------------------------------------ buffers and cipher

  /** The initial counter block, built in a 16-byte buffer. */
  method BuildIv(salt: Salt, ssrc: u32, index: u32) returns (iv: Block)
    ensures iv == Iv(salt, ssrc, index)
  {
    hide XorByte;
    var a := new byte[16](i => 0);
    var p := Append(a, 0, salt);
    assert a[..] == salt + Zeros(2);
    XorInto(a, 4, Be(ssrc, 4));
    ghost var withSsrc := a[..];
    XorInto(a, 8, Be(index / 0x1_0000, 4));
    XorInto(a, 12, Be(index % 0x1_0000, 2));
    iv := a[..];
    IvBytes(salt, ssrc, index, withSsrc, iv);
  }

  ghost predicate Xored(before: seq<byte>, at: nat, mask: seq<byte>, after: seq<byte>) {
    && |before| == |after| && at + |mask| <= |before|
    && forall i :: 0 <= i < |before| ==>
         after[i] == if at <= i < at + |mask| then XorByte(before[i], mask[i - at]) else before[i]
  }

  method XorInto(a: array<byte>, at: nat, mask: seq<byte>)
    requires at + |mask| <= a.Length
    modifies a
    ensures Xored(old(a[..]), at, mask, a[..])
  {
    hide XorByte;
    for i := 0 to |mask|
      invariant forall j :: 0 <= j < a.Length ==>
        a[j] == if at <= j < at + i then XorByte(old(a[j]), mask[j - at]) else old(a[j])
    {
      a[at + i] := XorByte(a[at + i], mask[i]);
    }
  }

  lemma IvBytes(salt: Salt, ssrc: u32, index: u32, withSsrc: seq<byte>, iv: seq<byte>)
    requires Xored(salt + Zeros(2), 4, Be(ssrc, 4), withSsrc)
    requires Xored(withSsrc, 8, Be(index / 0x1_0000, 4) + Be(index % 0x1_0000, 2), iv)
    ensures iv == Iv(salt, ssrc, index)
  {
    hide XorByte;
    var base := salt + Zeros(2);
    forall i | 0 <= i < 16 ensures iv[i] == Iv(salt, ssrc, index)[i] {
      XorByteZero(base[i]);
      XorByteZero(XorByte(base[i], SsrcMask(ssrc)[i]));
    }
  }

  /** Counter mode over part of a buffer, in place. */
  method CryptInPlace(c: Crypto, k: SessionKeys, ssrc: u32, index: u32, data: array<byte>, from: nat, to: nat)
    requires from <= to <= data.Length
    modifies data
    ensures data[..from] == old(data[..from]) && data[to..] == old(data[to..])
    ensures data[from..to] == Crypt(c, k, ssrc, index, old(data[from..to]))
  {
    hide XorByte, CounterBlock, Iv;
    var iv := BuildIv(k.salt, ssrc, index);
    for i := 0 to to - from
      invariant forall j :: 0 <= j < data.Length ==>
        data[j] == if from <= j < from + i
                   then XorByte(old(data[j]), c.aes(k.key, CounterBlock(iv, (j - from) / 16))[(j - from) % 16])
                   else old(data[j])
    {
      data[from + i] := XorByte(data[from + i], c.aes(k.key, CounterBlock(iv, i / 16))[i % 16]);
    }
    ghost var before, after := old(data[from..to]), data[from..to];
    CryptedBy(c, k, ssrc, index, before, after);
  }

  lemma CryptedBy(c: Crypto, k: SessionKeys, ssrc: u32, index: u32, before: seq<byte>, after: seq<byte>)
    requires |before| == |after|
    requires forall i :: 0 <= i < |before| ==>
      after[i] == XorByte(before[i], c.aes(k.key, CounterBlock(Iv(k.salt, ssrc, index), i / 16))[i % 16])
    ensures after == Crypt(c, k, ssrc, index, before)
  {
    hide XorByte, CounterBlock, Iv;
  }

  /** Compares every byte before answering, so that the time taken does not
      depend on where the first difference is. */
  method SameTag(expected: seq<byte>, data: array<byte>, at: nat, n: nat) returns (same: bool)
    requires n <= |expected| && at + n <= data.Length
    ensures same <==> expected[..n] == data[at..at + n]
  {
    var diff: byte := 0;
    for i := 0 to n
      invariant diff == 0 <==> expected[..i] == data[at..at + i]
    {
      var x := XorByte(expected[i], data[at + i]);
      SameIffXorZero(expected[i], data[at + i]);
      OrZero(diff, x);
      OrBound(diff, x, 8);
      diff := Or(diff, x);
      assert expected[..i + 1] == expected[..i] + [expected[i]];
      assert data[at..at + (i + 1)] == data[at..at + i] + [data[at + i]];
    }
    same := diff == 0;
  }

  lemma SameIffXorZero(a: byte, b: byte)
    ensures XorByte(a, b) == 0 <==> a == b
  {
    XorInvolution(a, b);
    XorInvolution(b, b);
    XorZero(b);
    if a == b { XorSelf(a); }
  }

  lemma {:induction false} XorSelf(a: nat)
    ensures Xor(a, a) == 0
  {
    if a > 0 { XorSelf(a / 2); }
  }

  lemma {:induction false} OrZero(a: nat, b: nat)
    ensures Or(a, b) == 0 <==> a == 0 && b == 0
    decreases a + b
  {
    if a + b > 0 { OrZero(a / 2, b / 2); }
  }

  // ------------------------------------------------------------------ sender

  class Sender {
    const crypto: Crypto
    const keys: SessionKeys
    const tagLen: nat
    var roc: u32
    var prevSeq: u16
    /** The inner transport: its answer to the n-th packet, and all it was offered. */
    const link: (nat, seq<byte>) -> bool
    var offered: seq<Srtp.Offer>

    ghost predicate Valid()
      reads this
    {
      TagLength(tagLen)
    }

    function State(): Srtp.SendState
      reads this
    {
      Srtp.SendState(roc, prevSeq)
    }

    constructor (crypto: Crypto, master: MasterKey, tagLen: nat, link: (nat, seq<byte>) -> bool)
      requires TagLength(tagLen)
      ensures Valid() && State() == Srtp.SendState(0, 0) && offered == []
      ensures keys == KeysFrom(crypto, master, SRTP_LABELS)
      ensures this.crypto == crypto && this.tagLen == tagLen && this.link == link
    {
      this.crypto, this.tagLen, this.link := crypto, tagLen, link;
      var derived := DeriveKeys(crypto, master, SRTP_LABELS);
      keys := derived;
      roc, prevSeq, offered := 0, 0, [];
    }

    /** Protects a packet given in pieces and hands it to the inner transport. */
    method Transmit(bufs: seq<seq<byte>>) returns (ret: int)
      requires Valid()
      modifies this
      ensures Valid()
      ensures var (st, packet) := Srtp.Protect(crypto, keys, tagLen, old(State()), Concat(bufs));
        && State() == st
        && ret == (if packet.Some? && link(old(|offered|), packet.value) then 0 else -1)
        && offered == old(offered) + (if packet.Some? then [Srtp.Offer(packet.value, ret == 0)] else [])
    {
      hide Concat, Srtp.Seal, Srtp.SsrcOf, Srtp.SequenceOf, SrtpHeaderLength, Srtp.Index;
      ghost var rtp := Concat(bufs);
      var total := TotalLength(bufs);
      if total + tagLen > MAX_PACKET { return -1; }
      var packet := new byte[MAX_PACKET];
      var offset := Coalesce(bufs, packet, 0);
      if total < 12 { return -1; }

      assert packet[..total] == rtp;
      var ssrc, sn := ReadFields(packet, total);
      if sn < prevSeq && prevSeq - sn > 0x7FFF {
        roc := (roc + 1) % Srtp.INDEX_MOD;
      }
      prevSeq := sn;
      var index := Srtp.Index(roc, sn);

      var headerLen := HeaderLength(packet, total);
      if headerLen < 0 { return -1; }
      var end := SealInPlace(crypto, keys, tagLen, roc, packet, total, headerLen, ssrc, index);
      ret := if link(|offered|, packet[..end]) then 0 else -1;
      offered := offered + [Srtp.Offer(packet[..end], ret == 0)];
    }
  }

  method ReadFields(packet: array<byte>, total: nat) returns (ssrc: u32, sn: u16)
    requires 12 <= total <= packet.Length
    ensures ssrc == Srtp.SsrcOf(packet[..total]) && sn == Srtp.SequenceOf(packet[..total])
  {
    ghost var rtp := packet[..total];
    assert packet[8..12] == rtp[8..12];
    ssrc, sn := Srtp.Word32(packet[8..12]), Be16(packet[..], 2);
  }

  lemma PrefixSlice(s: seq<byte>, len: nat, i: nat, j: nat)
    requires i <= j <= len <= |s|
    ensures s[..len][i..j] == s[i..j]
  {
  }

  lemma PrefixHalves(s: seq<byte>, len: nat, at: nat)
    requires at <= len <= |s|
    ensures s[..len][..at] == s[..at] && s[..len][at..] == s[at..len]
  {
  }

  /** Encrypts the payload, tags packet and rollover counter, appends the tag. */
  method SealInPlace(c: Crypto, k: SessionKeys, tagLen: nat, roc: u32, packet: array<byte>, total: nat,
                     headerLen: nat, ssrc: u32, index: u32)
    returns (end: nat)
    requires TagLength(tagLen) && packet.Length == MAX_PACKET && 12 <= total <= MAX_PACKET - tagLen
    requires SrtpHeaderLength(packet[..total]) == Some(headerLen)
    requires ssrc == Srtp.SsrcOf(packet[..total]) && index == Srtp.Index(roc, Srtp.SequenceOf(packet[..total]))
    modifies packet
    ensures end <= packet.Length && packet[..end] == Srtp.Seal(c, k, tagLen, roc, old(packet[..total]))
  {
    hide Crypt, Srtp.Tag, SrtpHeaderLength, Srtp.SsrcOf, Srtp.SequenceOf, Srtp.Index, Be;
    ghost var rtp := packet[..total];
    CryptInPlace(c, k, ssrc, index, packet, headerLen, total);
    ghost var encrypted := packet[..total];
    assert encrypted == rtp[..headerLen] + Crypt(c, k, ssrc, index, rtp[headerLen..]) by {
      assert encrypted == packet[..headerLen] + packet[headerLen..total];
    }
    end := Append(packet, total, Be(roc, 4));
    var mac := c.hmac(k.auth, packet[..end]);
    assert packet[..total] == encrypted by { assert packet[..end][..total] == encrypted; }
    end := Append(packet, total, mac[..tagLen]);
    TagUnfolds(c, k, tagLen, encrypted, roc);
  }

  lemma TagUnfolds(c: Crypto, k: SessionKeys, tagLen: nat, encrypted: seq<byte>, roc: u32)
    requires TagLength(tagLen)
    ensures Srtp.Tag(c, k, tagLen, encrypted, roc) == c.hmac(k.auth, encrypted + Be(roc, 4))[..tagLen]
  {
  }

  /** The header length, or -1; the same steps on both sides. */
  method HeaderLength(data: array<byte>, total: nat) returns (len: int)
    requires 12 <= total <= data.Length
    ensures SrtpHeaderLength(data[..total]) == if len < 0 then None else Some(len)
  {
    len := 12 + (data[0] % 16) * 4;
    if len > total { return -1; }
    if (data[0] / 16) % 2 == 1 && len + 4 <= total {
      var extWords: int := Be16(data[..total], len + 2);
      len := len + 4 + extWords * 4;
      if len > total { return -1; }
    }
  }

  // ---------------------------------------------------------------- receiver

  /** Moves the window up and marks the new highest index. */
  method SlideWindow(window: u64, shift: nat) returns (w: u64)
    ensures w == Advance(window, shift)
  {
    hide Or;
    if shift < SIZE {
      w := Shl64(window, shift);
    } else {
      w := 0;
    }
    Word(w, 1);
    w := Or(w, 1);
  }

  method MarkWindow(window: u64, delta: nat) returns (w: u64)
    ensures w == Mark(window, delta)
  {
    hide Or, Shl64;
    Word(window, Shl64(1, delta));
    w := Or(window, Shl64(1, delta));
  }

  class Receiver {
    const crypto: Crypto
    const keys: SessionKeys
    const tagLen: nat
    var roc: u32
    var sl: u16
    var initialized: bool
    var window: u64
    const rtcpKeys: SessionKeys
    var rtcpHighest: u32
    var rtcpWindow: u64

    ghost predicate Valid()
      reads this
    {
      TagLength(tagLen)
    }

    function State(): Srtp.RecvState
      reads this
    {
      Srtp.RecvState(initialized, roc, sl, window)
    }

    function RtcpState(): Srtcp.RtcpState
      reads this
    {
      Srtcp.RtcpState(rtcpHighest, rtcpWindow)
    }

    constructor (crypto: Crypto, master: MasterKey, tagLen: nat)
      requires TagLength(tagLen)
      ensures Valid() && State() == Srtp.FRESH && RtcpState() == Srtcp.RTCP_FRESH
      ensures keys == KeysFrom(crypto, master, SRTP_LABELS) && rtcpKeys == KeysFrom(crypto, master, SRTCP_LABELS)
      ensures this.crypto == crypto && this.tagLen == tagLen
    {
      this.crypto, this.tagLen := crypto, tagLen;
      var derived := DeriveKeys(crypto, master, SRTP_LABELS);
      keys := derived;
      var derivedRtcp := DeriveKeys(crypto, master, SRTCP_LABELS);
      rtcpKeys := derivedRtcp;
      roc, sl, initialized, window := 0, 0, false, 0;
      rtcpHighest, rtcpWindow := 0, 0;
    }

    method EstimateRoc(sn: u16) returns (v: u32, index: u32)
      ensures v == Srtp.EstimateRoc(State(), sn) && index == Srtp.Index(v, sn)
    {
      if !initialized {
        v := 0;
      } else if sl < 0x8000 {
        if sn - sl > 0x8000 {
          v := if roc == 0 then 0 else roc - 1;
        } else {
          v := roc;
        }
      } else {
        if sl - 0x8000 > sn {
          v := (roc + 1) % Srtp.INDEX_MOD;
        } else {
          v := roc;
        }
      }
      index := Srtp.Index(v, sn);
    }

    method ReplayCheck(index: u32) returns (ret: int)
      ensures ret == if Srtp.ReplayOk(State(), index) then 0 else -1
    {
      if !initialized { return 0; }
      var highest := Srtp.Index(roc, sl);
      if index > highest { return 0; }
      var delta := highest - index;
      if delta >= SIZE { return -1; }
      if And(window, Shl64(1, delta)) != 0 { return -1; }
      return 0;
    }

    method ReplayUpdate(sn: u16, v: u32)
      requires Srtp.ReplayOk(State(), Srtp.Index(v, sn))
      modifies this`sl, this`roc, this`window, this`initialized
      ensures State() == Srtp.ReplayUpdate(old(State()), sn, v)
    {
      hide Advance, Mark, Seen;
      var index := Srtp.Index(v, sn);
      if !initialized {
        sl, roc, window, initialized := sn, v, 1, true;
        return;
      }
      var highest := Srtp.Index(roc, sl);
      if index > highest {
        window := SlideWindow(window, index - highest);
        sl, roc := sn, v;
      } else {
        window := MarkWindow(window, highest - index);
      }
    }

    /** Checks and decrypts a packet in place.  The source copies the packet and
        four more bytes to a buffer of 2052 bytes without looking at the length. */
    method Unprotect(data: array<byte>, len: nat) returns (ret: int, newLen: nat)
      requires Valid() && len <= data.Length && Srtp.CopyFits(tagLen, State(), data[..len])
      modifies this`sl, this`roc, this`window, this`initialized, data
      ensures Valid()
      ensures var (st, result) := Srtp.Unprotect(crypto, keys, tagLen, old(State()), old(data[..len]));
        && State() == st
        && ret == (if result.Some? then 0 else -1)
        && newLen == (if result.Some? then len - tagLen else len)
        && data[..newLen] == (if result.Some? then result.value else old(data[..len]))
        && data[newLen..] == old(data[newLen..])
    {
      hide Crypt, Srtp.Tag, Srtp.EstimateRoc, Srtp.ReplayOk, Srtp.ReplayUpdate, SrtpHeaderLength;
      hide Srtp.SsrcOf, Srtp.SequenceOf;
      ghost var whole := data[..];
      newLen := len;
      if len < 12 + tagLen { return -1, len; }
      var encryptedLen := len - tagLen;
      PrefixHalves(whole, len, encryptedLen);
      var ssrc, sn := ReadFields(data, len);
      var v, index := EstimateRoc(sn);
      var replay := ReplayCheck(index);
      if replay != 0 { return -1, len; }
      var same := CheckTag(data, encryptedLen, v);
      assert data[..] == whole;
      if !same { return -1, len; }

      ReplayUpdate(sn, v);
      assert data[..] == whole;
      var ok := DecryptBody(data, encryptedLen, ssrc, index);
      if !ok { return -1, len; }
      ret, newLen := 0, encryptedLen;
    }

    /** Recomputes the tag over packet and rollover counter and compares. */
    method CheckTag(data: array<byte>, encryptedLen: nat, v: u32) returns (same: bool)
      requires Valid() && encryptedLen + tagLen <= data.Length && encryptedLen <= MAX_PACKET
      ensures var tag := Srtp.Tag(crypto, keys, tagLen, data[..encryptedLen], v);
        same <==> tag == data[encryptedLen..encryptedLen + tagLen]
    {
      hide Srtp.Tag, Be;
      var authInput := new byte[MAX_PACKET + 4];
      var end := Append(authInput, 0, data[..encryptedLen]);
      end := Append(authInput, end, Be(v, 4));
      var expected := crypto.hmac(keys.auth, authInput[..end]);
      assert authInput[..end] == data[..encryptedLen] + Be(v, 4);
      TagUnfolds(crypto, keys, tagLen, data[..encryptedLen], v);
      same := SameTag(expected, data, encryptedLen, tagLen);
    }

    method DecryptBody(data: array<byte>, encryptedLen: nat, ssrc: u32, index: u32) returns (ok: bool)
      requires 12 <= encryptedLen <= data.Length
      modifies data
      ensures var before := old(data[..encryptedLen]);
        && ok == SrtpHeaderLength(before).Some?
        && data[encryptedLen..] == old(data[encryptedLen..])
        && (!ok ==> data[..] == old(data[..]))
        && (ok ==> var h := SrtpHeaderLength(before).value;
                   data[..encryptedLen] == before[..h] + Crypt(crypto, keys, ssrc, index, before[h..]))
    {
      hide Crypt, SrtpHeaderLength;
      var headerLen := HeaderLength(data, encryptedLen);
      if headerLen < 0 { return false; }
      CryptInPlace(crypto, keys, ssrc, index, data, headerLen, encryptedLen);
      assert data[..encryptedLen] == data[..headerLen] + data[headerLen..encryptedLen];
      ok := true;
    }

    /** Checks and decrypts an SRTCP packet in place; on -1 nothing has changed. */
    method UnprotectRtcp(data: array<byte>, len: nat) returns (ret: int, newLen: nat)
      requires Valid() && len <= data.Length
      modifies this`rtcpHighest, this`rtcpWindow, data
      ensures Valid()
      ensures var (st, result) := Srtcp.RtcpUnprotect(crypto, rtcpKeys, tagLen, old(RtcpState()), old(data[..len]));
        && RtcpState() == st
        && ret == (if result.Some? then 0 else -1)
        && newLen == (if result.Some? then len - tagLen - 4 else len)
        && data[..newLen] == (if result.Some? then result.value else old(data[..len]))
        && data[newLen..] == old(data[newLen..])
      ensures ret == -1 ==> RtcpState() == old(RtcpState()) && data[..] == old(data[..]) && newLen == len
    {
      hide Crypt, Srtcp.RtcpReplayOk, Srtcp.RtcpUpdate;
      ghost var whole := data[..];
      if len < 8 + 4 + tagLen { return -1, len; }
      var authStart := len - tagLen;
      var indexStart := authStart - 4;
      PrefixHalves(whole, len, authStart);
      PrefixSlice(whole, len, indexStart, authStart);
      PrefixSlice(whole, len, 4, 8);
      PrefixSlice(whole, len, 0, 8);
      PrefixSlice(whole, len, 8, indexStart);
      PrefixSlice(whole, len, 0, indexStart);
      var expected := crypto.hmac(rtcpKeys.auth, data[..authStart]);
      var same := SameTag(expected, data, authStart, tagLen);
      assert data[..] == whole;
      if !same { return -1, len; }

      var word := Srtp.Word32(data[indexStart..authStart]);
      var encrypted, index := word >= Srtcp.E_FLAG, word % Srtcp.E_FLAG;
      var fresh' := RtcpReplay(index);
      assert data[..] == whole;
      if !fresh' { return -1, len; }

      var ssrc := Srtp.Word32(data[4..8]);
      if encrypted {
        CryptInPlace(crypto, rtcpKeys, ssrc, index, data, 8, indexStart);
        assert data[..indexStart] == data[..8] + data[8..indexStart];
      }
      ret, newLen := 0, indexStart;
    }

    /** The replay check of SRTCP marks the index as it accepts it. */
    method RtcpReplay(index: u32) returns (ok: bool)
      modifies this`rtcpHighest, this`rtcpWindow
      ensures ok == Srtcp.RtcpReplayOk(old(RtcpState()), index)
      ensures RtcpState() == if ok then Srtcp.RtcpUpdate(old(RtcpState()), index) else old(RtcpState())
    {
      if index > rtcpHighest {
        rtcpWindow := SlideWindow(rtcpWindow, index - rtcpHighest);
        rtcpHighest := index;
      } else {
        var delta := rtcpHighest - index;
        if delta >= SIZE { return false; }
        if And(rtcpWindow, Shl64(1, delta)) != 0 { return false; }
        rtcpWindow := MarkWindow(rtcpWindow, delta);
      }
      ok := true;
    }
  }

  class RtcpSender {
    const crypto: Crypto
    const keys: SessionKeys
    const tagLen: nat
    var index: u32
    const link: (nat, seq<byte>) -> bool
    var offered: seq<Srtp.Offer>

    ghost predicate Valid()
      reads this
    {
      TagLength(tagLen)
    }

    constructor (crypto: Crypto, master: MasterKey, tagLen: nat, link: (nat, seq<byte>) -> bool)
      requires TagLength(tagLen)
      ensures Valid() && index == 0 && offered == []
      ensures keys == KeysFrom(crypto, master, SRTCP_LABELS)
      ensures this.crypto == crypto && this.tagLen == tagLen && this.link == link
    {
      this.crypto, this.tagLen, this.link := crypto, tagLen, link;
      var derived := DeriveKeys(crypto, master, SRTCP_LABELS);
      keys := derived;
      index, offered := 0, [];
    }

    method Transmit(bufs: seq<seq<byte>>) returns (ret: int)
      requires Valid()
      modifies this
      ensures Valid()
      ensures var (next, packet) := Srtcp.RtcpProtect(crypto, keys, tagLen, old(index), Concat(bufs));
        && index == next
        && ret == (if packet.Some? && link(old(|offered|), packet.value) then 0 else -1)
        && offered == old(offered) + (if packet.Some? then [Srtp.Offer(packet.value, ret == 0)] else [])
    {
      hide Concat, Crypt;
      ghost var rtcp := Concat(bufs);
      var total := TotalLength(bufs);
      if total + 4 + tagLen > MAX_PACKET { return -1; }
      var packet := new byte[MAX_PACKET];
      var offset := Coalesce(bufs, packet, 0);
      if total < 8 { return -1; }

      assert packet[..total] == rtcp;
      assert packet[8..total] == rtcp[8..];
      assert packet[4..8] == rtcp[4..8];
      var ssrc := Srtp.Word32(packet[4..8]);
      CryptInPlace(crypto, keys, ssrc, index, packet, 8, total);
      assert packet[..total] == rtcp[..8] + Crypt(crypto, keys, ssrc, index, rtcp[8..]) by {
        assert packet[..total] == packet[..8] + packet[8..total];
      }
      var end := Append(packet, total, Be(Srtcp.WithEFlag(index), 4));
      var mac := crypto.hmac(keys.auth, packet[..end]);
      end := Append(packet, end, mac[..tagLen]);
      index := (index + 1) % Srtp.INDEX_MOD;
      ret := if link(|offered|, packet[..end]) then 0 else -1;
      offered := offered + [Srtp.Offer(packet[..end], ret == 0)];
    }
  }
}
