/** AES-128 counter mode as SRTP uses it (section 4.1.1 of RFC 3711).  AES and
    HMAC-SHA1 belong to the linked crypto backend, so they are parameters. */
module SrtpCipher {
  import opened Bits
  import opened Bytes

  type Block = s: seq<byte> | |s| == 16 witness Zeros(16)
  type Salt = s: seq<byte> | |s| == 14 witness Zeros(14)
  type Digest = s: seq<byte> | |s| == 20 witness Zeros(20)

  /** The backend: AES-128 on one block under a key, and HMAC-SHA1 of a message. */
  datatype Crypto = Crypto(aes: (seq<byte>, Block) -> Block, hmac: (seq<byte>, seq<byte>) -> Digest)

  datatype SessionKeys = SessionKeys(key: seq<byte>, salt: Salt, auth: seq<byte>)

  const MAX_PACKET := 2048

  /** The authentication tag lengths of the two suites, in bytes. */
  predicate TagLength(n: nat) { n == 10 || n == 4 }

  /** What is laid over the salt: the SSRC at bytes 4-7 ... */
  function SsrcMask(ssrc: u32): Block { Zeros(4) + Be(ssrc, 4) + Zeros(8) }

  /** ... and the packet index, rollover counter then sequence number, at 8-13. */
  function IndexMask(index: u32): Block {
    Zeros(8) + Be(index / 0x1_0000, 4) + Be(index % 0x1_0000, 2) + Zeros(2)
  }

  function Iv(salt: Salt, ssrc: u32, index: u32): Block {
    XorBytes(XorBytes(salt + Zeros(2), SsrcMask(ssrc)), IndexMask(index))
  }

  /** Counter mode encrypts the 128-bit numbers iv, iv + 1, iv + 2, ... */
  function CounterBlock(iv: Block, n: nat): Block { Be(BeNat(iv) + n, 16) }

  function Keystream(c: Crypto, key: seq<byte>, iv: Block, len: nat): (s: seq<byte>)
    ensures |s| == len
  {
    seq(len, i requires 0 <= i < len => c.aes(key, CounterBlock(iv, i / 16))[i % 16])
  }

  /** Encryption and decryption of a payload are the same operation. */
  function Crypt(c: Crypto, k: SessionKeys, ssrc: u32, index: u32, data: seq<byte>): (r: seq<byte>)
    ensures |r| == |data|
  {
    XorBytes(data, Keystream(c, k.key, Iv(k.salt, ssrc, index), |data|))
  }

  /** Decrypting what was encrypted with the same SSRC and index restores it. */
  lemma CryptRoundTrip(c: Crypto, k: SessionKeys, ssrc: u32, index: u32, data: seq<byte>)
    ensures Crypt(c, k, ssrc, index, Crypt(c, k, ssrc, index, data)) == data
  {
    var ks := Keystream(c, k.key, Iv(k.salt, ssrc, index), |data|);
    forall i | 0 <= i < |data|
      ensures XorByte(XorByte(data[i], ks[i]), ks[i]) == data[i]
    {
      XorInvolution(data[i], ks[i]);
    }
  }

  /** The formula of RFC 3711, read as 128-bit numbers. */
  lemma IvIsRfcFormula(salt: Salt, ssrc: u32, index: u32)
    ensures BeNat(Iv(salt, ssrc, index))
         == Xor(Xor(ShiftUp(BeNat(salt), 16), ShiftUp(ssrc, 64)), ShiftUp(index, 16))
  {
    hide BeNat, Xor, SsrcMask, IndexMask, ShiftUp, XorBytes;
    BeNatXor(XorBytes(salt + Zeros(2), SsrcMask(ssrc)), IndexMask(index));
    BeNatXor(salt + Zeros(2), SsrcMask(ssrc));
    SaltValue(salt);
    SsrcMaskValue(ssrc);
    IndexMaskValue(index);
  }

  lemma SaltValue(salt: seq<byte>)
    ensures BeNat(salt + Zeros(2)) == ShiftUp(BeNat(salt), 16)
  {
    BeNatConcat(salt, Zeros(2));
    BeNatZeros(2);
    Pow256IsPow2(2);
  }

  lemma SsrcMaskValue(ssrc: u32)
    ensures BeNat(SsrcMask(ssrc)) == ShiftUp(ssrc, 64)
  {
    assert Pow256(4) == 0x1_0000_0000;
    hide Pow2, Pow256, Be, BeNat, Zeros;
    BeNatConcat(Zeros(4) + Be(ssrc, 4), Zeros(8));
    BeNatConcat(Zeros(4), Be(ssrc, 4));
    BeNatZeros(4);
    BeNatZeros(8);
    BeRoundTrip(ssrc, 4);
    Pow256IsPow2(8);
  }

  lemma IndexMaskValue(index: u32)
    ensures BeNat(IndexMask(index)) == ShiftUp(index, 16)
  {
    assert Pow256(4) == 0x1_0000_0000 && Pow256(2) == 0x1_0000;
    hide Pow2, Pow256, Be, BeNat, Zeros;
    var roc, sn := index / 0x1_0000, index % 0x1_0000;
    var a, b := Zeros(8) + Be(roc, 4), Be(sn, 2);
    assert BeNat(a) == roc by {
      BeNatConcat(Zeros(8), Be(roc, 4));
      BeNatZeros(8);
      BeRoundTrip(roc, 4);
    }
    assert BeNat(a + b) == index by {
      BeNatConcat(a, b);
      BeRoundTrip(sn, 2);
    }
    BeNatConcat(a + b, Zeros(2));
    BeNatZeros(2);
    Pow256IsPow2(2);
  }

  /** The initial counter of section 4.1.1 of RFC 3711. */
  function RfcCounter(salt: Salt, ssrc: u32, index: u32): nat {
    Xor(Xor(BeNat(salt) * 0x1_0000, ssrc * 0x1_0000_0000_0000_0000), index * 0x1_0000)
  }

  lemma IvCounts(salt: Salt, ssrc: u32, index: u32)
    ensures BeNat(Iv(salt, ssrc, index)) == RfcCounter(salt, ssrc, index)
  {
    hide BeNat, Iv, Xor;
    IvIsRfcFormula(salt, ssrc, index);
    Shift16(BeNat(salt));
    Shift16(index);
    Shift64(ssrc);
  }

  lemma Shift16(n: nat)
    ensures ShiftUp(n, 16) == n * 0x1_0000
  {
    Pow256IsPow2(2);
    assert Pow256(2) == 0x1_0000;
    hide Pow2;
  }

  lemma Shift64(n: nat)
    ensures ShiftUp(n, 64) == n * 0x1_0000_0000_0000_0000
  {
    Pow256IsPow2(8);
    assert Pow256(4) == 0x1_0000_0000;
    assert Pow256(8) == 0x1_0000_0000_0000_0000;
    hide Pow2;
  }

  lemma BlockOfNumber(iv: Block, n: nat, b: Block)
    requires BeNat(b) == BeNat(iv) + n
    ensures CounterBlock(iv, n) == b
  {
    hide *;
    CounterUnfolds(iv, n);
    BeNatRoundTrip(b);
  }

  /** Byte i of a payload is xored with byte i mod 16 of AES of the block that
      spells the initial counter plus i / 16. */
  lemma CryptByte(c: Crypto, k: SessionKeys, ssrc: u32, index: u32, data: seq<byte>, i: nat, b: Block)
    requires i < |data| && BeNat(b) == RfcCounter(k.salt, ssrc, index) + i / 16
    ensures Crypt(c, k, ssrc, index, data)[i] == Xor(data[i], c.aes(k.key, b)[i % 16])
  {
    hide Iv, BeNat, CounterBlock, RfcCounter, Xor;
    IvCounts(k.salt, ssrc, index);
    BlockOfNumber(Iv(k.salt, ssrc, index), i / 16, b);
  }

  lemma CounterCounts(salt: Salt, ssrc: u32, index: u32, n: nat)
    requires n < 0x1_0000
    ensures BeNat(CounterBlock(Iv(salt, ssrc, index), n)) == BeNat(Iv(salt, ssrc, index)) + n
  {
    hide *;
    var iv := Iv(salt, ssrc, index);
    IvLowZero(salt, ssrc, index);
    LowRoom(iv, n);
    CounterUnfolds(iv, n);
    BeRoundTrip(BeNat(iv) + n, 16);
  }

  lemma LowRoom(iv: Block, n: nat)
    requires iv[14] == iv[15] == 0 && n < 0x1_0000
    ensures BeNat(iv) + n < Pow256(16)
  {
    hide BeNat;
    ZeroTail(iv);
    BeNatConcat(iv[..14], Zeros(2));
    BeNatZeros(2);
    BeNatRoundTrip(iv[..14]);
    assert Pow256(16) == 256 * Pow256(15) == 0x1_0000 * Pow256(14);
    TwoBytes();
    hide Pow256;
  }

  /** While fewer than 2^16 blocks are used, counting touches only the last two bytes. */
  lemma CounterStaysLow(salt: Salt, ssrc: u32, index: u32, n: nat)
    requires n < 0x1_0000
    ensures CounterBlock(Iv(salt, ssrc, index), n) == Iv(salt, ssrc, index)[..14] + Be(n, 2)
  {
    IvLowZero(salt, ssrc, index);
    CounterLow(Iv(salt, ssrc, index), n);
  }

  lemma ZeroTail(iv: Block)
    requires iv[14] == iv[15] == 0
    ensures iv == iv[..14] + Zeros(2)
  {
  }

  lemma TwoBytes()
    ensures Pow256(2) == 0x1_0000
  {
  }

  lemma CounterUnfolds(iv: Block, n: nat)
    ensures CounterBlock(iv, n) == Be(BeNat(iv) + n, 16)
  {
  }

  lemma CounterLow(iv: Block, n: nat)
    requires iv[14] == iv[15] == 0 && n < 0x1_0000
    ensures CounterBlock(iv, n) == iv[..14] + Be(n, 2)
  {
    hide *;
    CounterUnfolds(iv, n);
    ZeroTail(iv);
    TwoBytes();
    BeCount(iv[..14], n, 2);
  }

  lemma IvLowZero(salt: Salt, ssrc: u32, index: u32)
    ensures Iv(salt, ssrc, index)[14] == Iv(salt, ssrc, index)[15] == 0
  {
    XorZero(0);
  }

  /** Within 2^16 blocks a packet, different SSRC, index or block number means a
      different counter block under one session key. */
  lemma CounterBlocksDistinct(salt: Salt, ssrc: u32, index: u32, n: nat, ssrc': u32, index': u32, n': nat)
    requires n < 0x1_0000 && n' < 0x1_0000
    requires CounterBlock(Iv(salt, ssrc, index), n) == CounterBlock(Iv(salt, ssrc', index'), n')
    ensures ssrc == ssrc' && index == index' && n == n'
  {
    var iv, iv' := Iv(salt, ssrc, index), Iv(salt, ssrc', index');
    CounterStaysLow(salt, ssrc, index, n);
    CounterStaysLow(salt, ssrc', index', n');
    assert iv[..14] + Be(n, 2) == iv'[..14] + Be(n', 2);
    assert iv[..14] == (iv[..14] + Be(n, 2))[..14] == (iv'[..14] + Be(n', 2))[..14] == iv'[..14];
    assert Be(n, 2) == (iv[..14] + Be(n, 2))[14..] == (iv'[..14] + Be(n', 2))[14..] == Be(n', 2);
    assert Pow256(2) == 0x1_0000 && Pow256(4) == 0x1_0000_0000;
    BeInjective(n, n', 2);
    forall i | 0 <= i < 14
      ensures XorByte(SsrcMask(ssrc)[i], IndexMask(index)[i]) == XorByte(SsrcMask(ssrc')[i], IndexMask(index')[i])
    {
      assert iv[..14][i] == iv'[..14][i];
      XorAssoc(salt[i], SsrcMask(ssrc)[i], IndexMask(index)[i]);
      XorAssoc(salt[i], SsrcMask(ssrc')[i], IndexMask(index')[i]);
      XorCancel(salt[i], XorByte(SsrcMask(ssrc)[i], IndexMask(index)[i]),
                XorByte(SsrcMask(ssrc')[i], IndexMask(index')[i]));
    }
    MasksDistinct(ssrc, index, ssrc', index');
  }

  lemma {:induction false} XorAssoc(a: nat, b: nat, c: nat)
    ensures Xor(Xor(a, b), c) == Xor(a, Xor(b, c))
    decreases a + b + c
  {
    if a + b + c > 0 {
      XorAssoc(a / 2, b / 2, c / 2);
      XorZero(0);
      assert Xor(a, b) / 2 == Xor(a / 2, b / 2) && Xor(b, c) / 2 == Xor(b / 2, c / 2);
      assert Xor(Xor(a, b), c) / 2 == Xor(Xor(a / 2, b / 2), c / 2);
      assert Xor(a, Xor(b, c)) / 2 == Xor(a / 2, Xor(b / 2, c / 2));
    }
  }

  lemma XorByteZero(a: byte)
    ensures XorByte(a, 0) == a && XorByte(0, a) == a
  {
    XorZero(a);
  }

  lemma MaskFields(ssrc: u32, index: u32)
    ensures var s, x := SsrcMask(ssrc), IndexMask(index);
      && (forall i :: 0 <= i < 4 || 8 <= i < 14 ==> s[i] == 0) && (forall i :: 0 <= i < 8 ==> x[i] == 0)
      && s[4..8] == Be(ssrc, 4) && x[8..12] == Be(index / 0x1_0000, 4) && x[12..14] == Be(index % 0x1_0000, 2)
  {
    hide Be;
  }

  lemma MasksDistinct(ssrc: u32, index: u32, ssrc': u32, index': u32)
    requires forall i :: 0 <= i < 14 ==>
      XorByte(SsrcMask(ssrc)[i], IndexMask(index)[i]) == XorByte(SsrcMask(ssrc')[i], IndexMask(index')[i])
    ensures ssrc == ssrc' && index == index'
  {
    assert Pow256(2) == 0x1_0000 && Pow256(4) == 0x1_0000_0000;
    var s, s', x, x' := SsrcMask(ssrc), SsrcMask(ssrc'), IndexMask(index), IndexMask(index');
    SameMaskBytes(ssrc, index, ssrc', index');
    MaskFields(ssrc, index);
    MaskFields(ssrc', index');
    hide XorByte, Be, Pow256, SsrcMask, IndexMask;
    assert s[4..8] == s'[4..8] && x[8..12] == x'[8..12] && x[12..14] == x'[12..14];
    BeInjective(ssrc, ssrc', 4);
    BeInjective(index / 0x1_0000, index' / 0x1_0000, 4);
    BeInjective(index % 0x1_0000, index' % 0x1_0000, 2);
  }

  lemma SameMaskBytes(ssrc: u32, index: u32, ssrc': u32, index': u32)
    requires forall i :: 0 <= i < 14 ==>
      XorByte(SsrcMask(ssrc)[i], IndexMask(index)[i]) == XorByte(SsrcMask(ssrc')[i], IndexMask(index')[i])
    ensures forall i :: 0 <= i < 14 ==>
      SsrcMask(ssrc)[i] == SsrcMask(ssrc')[i] && IndexMask(index)[i] == IndexMask(index')[i]
  {
    var s, s', x, x' := SsrcMask(ssrc), SsrcMask(ssrc'), IndexMask(index), IndexMask(index');
    MaskFields(ssrc, index);
    MaskFields(ssrc', index');
    hide XorByte, Be, Zeros, Pow256, SsrcMask, IndexMask;
    forall i | 0 <= i < 14
      ensures s[i] == s'[i] && x[i] == x'[i]
    {
      if i < 8 {
        XorByteZero(s[i]);
        XorByteZero(s'[i]);
      } else {
        XorByteZero(x[i]);
        XorByteZero(x'[i]);
      }
    }
  }
}
