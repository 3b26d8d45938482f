/** Session key derivation (section 4.3.1 of RFC 3711 with key derivation rate 0). */
module SrtpKeys {
  import opened Bits
  import opened Bytes
  import opened SrtpCipher
  import opened Buffers

  /** The label is laid over byte 7 of the master salt. */
  function KdfIv(masterSalt: Salt, purpose: byte): Block {
    masterSalt[7 := XorByte(masterSalt[7], purpose)] + Zeros(2)
  }

  /** The bytes derived for a label are AES counter mode keystream. */
  function Derived(c: Crypto, masterKey: seq<byte>, masterSalt: Salt, purpose: byte, len: nat): (s: seq<byte>)
    ensures |s| == len
  {
    Keystream(c, masterKey, KdfIv(masterSalt, purpose), len)
  }

  datatype MasterKey = MasterKey(key: seq<byte>, salt: Salt)

  const SRTP_LABELS: byte := 0
  const SRTCP_LABELS: byte := 3

  /** Encryption, authentication and salting key have consecutive labels. */
  function KeysFrom(c: Crypto, m: MasterKey, labels: byte): SessionKeys
    requires labels <= 250
  {
    SessionKeys(Derived(c, m.key, m.salt, labels, 16), Derived(c, m.key, m.salt, labels + 2, 14),
                Derived(c, m.key, m.salt, labels + 1, 20))
  }

  method DeriveKeys(c: Crypto, m: MasterKey, labels: byte) returns (k: SessionKeys)
    requires labels <= 250
    ensures k == KeysFrom(c, m, labels)
  {
    hide Derived;
    var key, salt, auth := new byte[16], new byte[14], new byte[20];
    Kdf(c, m.key, m.salt, labels, key);
    Kdf(c, m.key, m.salt, labels + 2, salt);
    Kdf(c, m.key, m.salt, labels + 1, auth);
    k := SessionKeys(key[..], salt[..], auth[..]);
  }

  /** Fills `out` block by block, encrypting the salted label with a 16-bit block
      counter in the last two bytes. */
  method Kdf(c: Crypto, masterKey: seq<byte>, masterSalt: Salt, purpose: byte, out: array<byte>)
    requires out.Length <= 0x1_0000 * 16
    modifies out
    ensures out[..] == Derived(c, masterKey, masterSalt, purpose, out.Length)
  {
    hide CounterBlock, Be, XorByte, KdfIv;
    var x := new byte[16](i => 0);
    var p := Append(x, 0, masterSalt);
    x[7] := XorByte(x[7], purpose);
    assert x[..] == masterSalt[7 := XorByte(masterSalt[7], purpose)] + Zeros(2);
    ghost var start := KdfIv(masterSalt, purpose);
    KdfIvBytes(masterSalt, purpose);
    var generated, counter := 0, 0;
    while generated < out.Length
      invariant generated == if counter * 16 <= out.Length then counter * 16 else out.Length
      invariant counter * 16 < out.Length + 16
      invariant x[..] == start
      invariant forall j :: 0 <= j < generated ==> out[j] == c.aes(masterKey, CounterBlock(start, j / 16))[j % 16]
    {
      var iv := x[..14] + Be(counter, 2);
      assert x[..14] == start[..14];
      CounterLow(start, counter);
      var keystream := c.aes(masterKey, iv);
      var toCopy := out.Length - generated;
      if toCopy > 16 { toCopy := 16; }
      ghost var done := out[..generated];
      var end := Append(out, generated, keystream[..toCopy]);
      forall j | 0 <= j < end ensures out[j] == c.aes(masterKey, CounterBlock(start, j / 16))[j % 16] {
        assert out[..end][j] == (done + keystream[..toCopy])[j];
      }
      generated := end;
      counter := counter + 1;
    }
  }

  /** The label is added to the salt at bit 48 (section 4.3.1 of RFC 3711), and the
      block number below. */
  lemma KdfIvCounts(masterSalt: Salt, purpose: byte)
    ensures BeNat(KdfIv(masterSalt, purpose)) == Xor(BeNat(masterSalt), purpose * 0x1_0000_0000_0000) * 0x1_0000
  {
    var mask := Zeros(7) + [purpose] + Zeros(6);
    LabelMask(purpose);
    hide BeNat, Pow256, Pow2, Xor, Zeros;
    forall i | 0 <= i < 14
      ensures masterSalt[7 := XorByte(masterSalt[7], purpose)][i] == XorBytes(masterSalt, mask)[i]
    {
      XorByteZero(masterSalt[i]);
    }
    assert masterSalt[7 := XorByte(masterSalt[7], purpose)] == XorBytes(masterSalt, mask);
    BeNatXor(masterSalt, mask);
    BeNatConcat(XorBytes(masterSalt, mask), Zeros(2));
    BeNatZeros(2);
    TwoBytes();
  }

  lemma LabelMask(purpose: byte)
    ensures var mask := Zeros(7) + [purpose] + Zeros(6);
      BeNat(mask) == purpose * 0x1_0000_0000_0000
  {
    assert Pow256(6) == 0x1_0000_0000_0000;
    assert BeNat([purpose]) == purpose by { assert [purpose][..0] == []; }
    assert Pow256(1) == 256;
    hide BeNat, Pow256;
    BeNatConcat(Zeros(7) + [purpose], Zeros(6));
    BeNatConcat(Zeros(7), [purpose]);
    BeNatZeros(7);
    BeNatZeros(6);
  }

  /** Byte i of a derived key is byte i mod 16 of AES of that block, counted up. */
  lemma DerivedByte(c: Crypto, masterKey: seq<byte>, masterSalt: Salt, purpose: byte, len: nat, i: nat, b: Block)
    requires i < len
    requires BeNat(b) == Xor(BeNat(masterSalt), purpose * 0x1_0000_0000_0000) * 0x1_0000 + i / 16
    ensures Derived(c, masterKey, masterSalt, purpose, len)[i] == c.aes(masterKey, b)[i % 16]
  {
    hide BeNat, Xor, CounterBlock, KdfIv;
    KdfIvCounts(masterSalt, purpose);
    BlockOfNumber(KdfIv(masterSalt, purpose), i / 16, b);
  }

  /** The six labels and lengths of the two sets of session keys. */
  lemma SixKeys(c: Crypto, m: MasterKey)
    ensures var k := KeysFrom(c, m, SRTP_LABELS);
      && k.key == Derived(c, m.key, m.salt, 0, 16) && k.auth == Derived(c, m.key, m.salt, 1, 20)
      && k.salt == Derived(c, m.key, m.salt, 2, 14)
    ensures var k := KeysFrom(c, m, SRTCP_LABELS);
      && k.key == Derived(c, m.key, m.salt, 3, 16) && k.auth == Derived(c, m.key, m.salt, 4, 20)
      && k.salt == Derived(c, m.key, m.salt, 5, 14)
  {
    hide Derived;
  }

  lemma KdfIvBytes(masterSalt: Salt, purpose: byte)
    ensures KdfIv(masterSalt, purpose) == masterSalt[7 := XorByte(masterSalt[7], purpose)] + Zeros(2)
    ensures KdfIv(masterSalt, purpose)[14] == KdfIv(masterSalt, purpose)[15] == 0
  {
  }

  /** Keys derived under different labels share no AES input block. */
  lemma LabelsSeparateKeys(masterSalt: Salt, purpose: byte, n: nat, purpose': byte, n': nat)
    requires n < 0x1_0000 && n' < 0x1_0000
    requires CounterBlock(KdfIv(masterSalt, purpose), n) == CounterBlock(KdfIv(masterSalt, purpose'), n')
    ensures purpose == purpose' && n == n'
  {
    hide CounterBlock, Be, XorByte;
    var iv, iv' := KdfIv(masterSalt, purpose), KdfIv(masterSalt, purpose');
    CounterLow(iv, n);
    CounterLow(iv', n');
    assert iv[7] == (iv[..14] + Be(n, 2))[7] == (iv'[..14] + Be(n', 2))[7] == iv'[7];
    assert Be(n, 2) == (iv[..14] + Be(n, 2))[14..] == (iv'[..14] + Be(n', 2))[14..] == Be(n', 2);
    XorByteCancel(masterSalt[7], purpose, purpose');
    TwoBytes();
    BeInjective(n, n', 2);
  }

  lemma XorByteCancel(a: byte, b: byte, b': byte)
    requires XorByte(a, b) == XorByte(a, b')
    ensures b == b'
  {
    XorCancel(a, b, b');
  }
}
