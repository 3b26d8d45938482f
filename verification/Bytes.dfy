/** Bytes, fixed-width unsigned integers and their two byte orders. */
module Bytes {
  import opened Bits

  type byte = x: int | 0 <= x < 256
  type u16 = x: int | 0 <= x < 0x1_0000
  type u32 = x: int | 0 <= x < 0x1_0000_0000
  type u64 = x: int | 0 <= x < 0x1_0000_0000_0000_0000

  datatype Option<+T> = None | Some(value: T)

  function Min(a: nat, b: nat): nat { if a < b then a else b }

  function Pow256(k: nat): (r: nat)
    ensures r >= 1
  {
    if k == 0 then 1 else 256 * Pow256(k - 1)
  }

  /** The low `len` bytes of `n`, most significant first. */
  function Be(n: nat, len: nat): (s: seq<byte>)
    ensures |s| == len
    decreases len
  {
    if len == 0 then [] else Be(n / 256, len - 1) + [n % 256]
  }

  /** The number a byte string spells, most significant byte first. */
  function BeNat(s: seq<byte>): nat {
    if |s| == 0 then 0 else BeNat(s[..|s| - 1]) * 256 + s[|s| - 1]
  }

  /** The 16-bit number in network order at offset `at`. */
  function Be16(s: seq<byte>, at: nat): u16
    requires at + 2 <= |s|
  {
    s[at] as int * 256 + s[at + 1] as int
  }

  /** The 32-bit number in network order at offset `at`. */
  function Be32(s: seq<byte>, at: nat): u32
    requires at + 4 <= |s|
  {
    s[at] as int * 0x100_0000 + s[at + 1] as int * 0x1_0000 + s[at + 2] as int * 256 + s[at + 3] as int
  }

  /** The low `len` bytes of `n`, least significant first. */
  function Le(n: nat, len: nat): (s: seq<byte>)
    ensures |s| == len
    decreases len
  {
    if len == 0 then [] else [n % 256] + Le(n / 256, len - 1)
  }

  /** The memory of a 16-bit and of a 32-bit field on a little-endian host. */
  function Memory16(x: u16): (s: seq<byte>)
    ensures |s| == 2
  {
    [x % 256, x / 256]
  }

  function Memory32(x: u32): (s: seq<byte>)
    ensures |s| == 4
  {
    [x % 256, x / 256 % 256, x / 0x1_0000 % 256, x / 0x100_0000]
  }

  /** `htons` and `ntohs` on a little-endian host. */
  function Swap16(x: u16): u16 { (x % 256) * 256 + x / 256 }

  /** `htonl` on a little-endian host. */
  function Swap32(x: u32): u32 {
    (x % 256) * 0x100_0000 + (x / 256 % 256) * 0x1_0000 + (x / 0x1_0000 % 256) * 256 + x / 0x100_0000
  }

  function Zeros(n: nat): (s: seq<byte>)
    ensures |s| == n
    ensures forall i :: 0 <= i < n ==> s[i] == 0
  {
    seq(n, i => 0)
  }

  function XorByte(a: byte, b: byte): byte {
    XorBound(a, b, 8);
    Xor(a, b)
  }

  function XorBytes(a: seq<byte>, b: seq<byte>): (r: seq<byte>)
    requires |a| == |b|
    ensures |r| == |a|
  {
    seq(|a|, i requires 0 <= i < |a| => XorByte(a[i], b[i]))
  }

  /** The total contents of a vector of buffers. */
  function Concat(bufs: seq<seq<byte>>): seq<byte> {
    if |bufs| == 0 then [] else Concat(bufs[..|bufs| - 1]) + bufs[|bufs| - 1]
  }

  lemma {:induction false} Pow256IsPow2(k: nat)
    ensures Pow256(k) == Pow2(8 * k)
  {
    if k > 0 {
      var j := 8 * k - 8;
      assert Pow2(j + 4) == 2 * Pow2(j + 3) == 4 * Pow2(j + 2) == 8 * Pow2(j + 1) == 16 * Pow2(j);
      assert Pow2(j + 8) == 2 * Pow2(j + 7) == 4 * Pow2(j + 6) == 8 * Pow2(j + 5) == 16 * Pow2(j + 4);
      Pow256IsPow2(k - 1);
    }
  }

  lemma {:induction false} BeRoundTrip(n: nat, len: nat)
    requires n < Pow256(len)
    ensures BeNat(Be(n, len)) == n
    decreases len
  {
    if len > 0 {
      var s := Be(n, len);
      assert s[..|s| - 1] == Be(n / 256, len - 1);
      BeRoundTrip(n / 256, len - 1);
    }
  }

  lemma {:induction false} BeNatRoundTrip(s: seq<byte>)
    ensures BeNat(s) < Pow256(|s|)
    ensures Be(BeNat(s), |s|) == s
  {
    if |s| > 0 {
      BeNatRoundTrip(s[..|s| - 1]);
      assert s == s[..|s| - 1] + [s[|s| - 1]];
      assert BeNat(s) / 256 == BeNat(s[..|s| - 1]);
    }
  }

  /** The memory of a byte-swapped number is its network order. */
  lemma SwapIsNetworkOrder(x: u16)
    ensures Memory16(Swap16(x)) == Be(x, 2) && Swap16(Swap16(x)) == x
  {
    assert Be(x, 2) == [x / 256, x % 256];
  }

  lemma Memory32Digits(a: byte, b: byte, c: byte, d: byte)
    ensures var x: int := a + 256 * b + 0x1_0000 * c + 0x100_0000 * d;
      0 <= x < 0x1_0000_0000 && Memory32(x) == [a, b, c, d]
  {
    var x: int := a + 256 * b + 0x1_0000 * c + 0x100_0000 * d;
    assert x / 256 == b + 256 * c + 0x1_0000 * d;
    assert x / 0x1_0000 == c + 256 * d;
    assert x / 0x100_0000 == d;
  }

  lemma Be4(x: u32)
    ensures Be(x, 4) == [x / 0x100_0000, x / 0x1_0000 % 256, x / 256 % 256, x % 256]
  {
    assert x / 256 / 256 == x / 0x1_0000 && x / 0x1_0000 / 256 == x / 0x100_0000;
    assert Be(x / 0x100_0000, 1) == [x / 0x100_0000];
    assert Be(x / 0x1_0000, 2) == [x / 0x100_0000, x / 0x1_0000 % 256];
    assert Be(x / 256, 3) == Be(x / 0x1_0000, 2) + [x / 256 % 256];
  }

  lemma Be4Digits(a: byte, b: byte, c: byte, d: byte)
    ensures var x: int := a * 0x100_0000 + b * 0x1_0000 + c * 256 + d;
      0 <= x < 0x1_0000_0000 && Be(x, 4) == [a, b, c, d]
  {
    var x: int := a * 0x100_0000 + b * 0x1_0000 + c * 256 + d;
    Be4(x);
    ModUnique(x, 0x100_0000, a, b * 0x1_0000 + c * 256 + d);
    ModUnique(x, 0x1_0000, a * 256 + b, c * 256 + d);
    ModUnique(x, 256, a * 0x1_0000 + b * 256 + c, d);
    ModUnique(a * 256 + b, 256, a, b);
    ModUnique(a * 0x1_0000 + b * 256 + c, 256, a * 256 + b, c);
  }

  lemma WordDigits(x: u32)
    ensures Be32([x / 0x100_0000, x / 0x1_0000 % 256, x / 256 % 256, x % 256], 0) == x
  {
    assert x / 0x1_0000 / 256 == x / 0x100_0000 && x / 256 / 256 == x / 0x1_0000;
  }

  /** What is read in network order from the memory of a swapped number. */
  lemma SwappedReads16(x: u16)
    ensures Be16(Memory16(Swap16(x)), 0) == x
  {
  }

  lemma SwappedReads32(x: u32)
    ensures Be32(Memory32(Swap32(x)), 0) == x
  {
    Swap32IsNetworkOrder(x);
    Be4(x);
    WordDigits(x);
    hide Memory32, Swap32, Be;
  }

  lemma Swap32IsNetworkOrder(x: u32)
    ensures Memory32(Swap32(x)) == Be(x, 4)
  {
    Be4(x);
    Memory32Digits(x / 0x100_0000, x / 0x1_0000 % 256, x / 256 % 256, x % 256);
  }

  lemma {:induction false} BeNatConcat(a: seq<byte>, b: seq<byte>)
    ensures BeNat(a + b) == BeNat(a) * Pow256(|b|) + BeNat(b)
    decreases |b|
  {
    if |b| == 0 {
      assert a + b == a;
    } else {
      var b' := b[..|b| - 1];
      assert (a + b)[..|a + b| - 1] == a + b';
      BeNatConcat(a, b');
      TimesByte(BeNat(a), Pow256(|b'|));
    }
  }

  lemma TimesByte(x: nat, y: nat)
    ensures x * (256 * y) == x * y * 256
  {
  }

  /** Counting up within the low `len` bytes leaves the high bytes alone. */
  lemma {:induction false} BeSplit(hi: nat, lo: nat, n: nat, len: nat)
    requires lo < Pow256(len)
    ensures Be(hi * Pow256(len) + lo, n + len) == Be(hi, n) + Be(lo, len)
    decreases len
  {
    if len == 0 {
      assert Be(hi, n) + [] == Be(hi, n);
    } else {
      var m := hi * Pow256(len) + lo;
      assert hi * Pow256(len) == 256 * (hi * Pow256(len - 1));
      assert m / 256 == hi * Pow256(len - 1) + lo / 256 && m % 256 == lo % 256;
      BeSplit(hi, lo / 256, n, len - 1);
      assert Be(m, n + len) == Be(hi, n) + (Be(lo / 256, len - 1) + [lo % 256]);
    }
  }

  lemma BeInjective(a: nat, b: nat, len: nat)
    requires a < Pow256(len) && b < Pow256(len) && Be(a, len) == Be(b, len)
    ensures a == b
  {
    BeRoundTrip(a, len);
    BeRoundTrip(b, len);
  }

  lemma {:induction false} BeNatZeros(n: nat)
    ensures BeNat(Zeros(n)) == 0
  {
    if n > 0 {
      assert Zeros(n)[..n - 1] == Zeros(n - 1);
      BeNatZeros(n - 1);
    }
  }

  /** Adding a small number to a multiple of 256^k fills the low `k` bytes. */
  lemma BeCount(hi: seq<byte>, n: nat, k: nat)
    requires n < Pow256(k)
    ensures Be(BeNat(hi + Zeros(k)) + n, |hi| + k) == hi + Be(n, k)
  {
    BeNatConcat(hi, Zeros(k));
    BeNatZeros(k);
    BeSplit(BeNat(hi), n, |hi|, k);
    BeNatRoundTrip(hi);
  }

  lemma {:induction false} BeNatXor(a: seq<byte>, b: seq<byte>)
    requires |a| == |b|
    ensures BeNat(XorBytes(a, b)) == Xor(BeNat(a), BeNat(b))
  {
    if |a| > 0 {
      var n := |a| - 1;
      assert XorBytes(a, b)[..n] == XorBytes(a[..n], b[..n]);
      BeNatXor(a[..n], b[..n]);
      assert Pow2(8) == 256;
      XorSplit(BeNat(a[..n]), BeNat(b[..n]), a[n], b[n], 8);
    } else {
      XorZero(0);
    }
  }

  lemma ConcatThree(a: seq<byte>, b: seq<byte>, c: seq<byte>)
    ensures Concat([a, b, c]) == a + b + c
  {
    assert [a, b, c][..2] == [a, b] && [a, b][..1] == [a];
    assert Concat([a]) == [] + a;
  }

  lemma {:induction false} ConcatAppend(xs: seq<seq<byte>>, ys: seq<seq<byte>>)
    ensures Concat(xs + ys) == Concat(xs) + Concat(ys)
    decreases |ys|
  {
    if |ys| == 0 {
      assert xs + ys == xs;
    } else {
      var zs := xs + ys;
      assert zs[..|zs| - 1] == xs + ys[..|ys| - 1];
      ConcatAppend(xs, ys[..|ys| - 1]);
    }
  }
}
