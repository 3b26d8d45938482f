/** MD5 over a stream (sections 3.1 to 3.5 of RFC 1321).  The block transform is a
    parameter; what is modelled is the buffering, the count and the padding. */
module Md5 {
  import opened Bytes
  import opened Buffers
  import RtpHeader

  const BLOCK := 64

  type Words = s: seq<u32> | |s| == 4 witness [0, 0, 0, 0]
  type Chunk = s: seq<byte> | |s| == BLOCK witness Zeros(64)
  type Transform = (Words, Chunk) -> Words

  const INITIAL: Words := [0x67452301, 0xefcdab89, 0x98badcfe, 0x10325476]
  const PADDING: seq<byte> := [0x80] + Zeros(63)

  /** The block transform folded over a whole number of blocks. */
  function Fold(t: Transform, st: Words, data: seq<byte>): Words
    requires |data| % BLOCK == 0
    decreases |data|
  {
    if |data| == 0 then st else Fold(t, t(st, data[..BLOCK]), data[BLOCK..])
  }

  /** Section 3.1 and 3.2: a one bit, zeros up to 56 modulo 64, and the low 64
      bits of the length in bits. */
  function Pad(m: seq<byte>): seq<byte> {
    m + [0x80] + Zeros((55 - |m|) % 64) + Le(8 * |m| % 0x1_0000_0000_0000_0000, 8)
  }

  function Output(st: Words): seq<byte> {
    Memory32(st[0]) + Memory32(st[1]) + Memory32(st[2]) + Memory32(st[3])
  }

  lemma PadIsWhole(m: seq<byte>)
    ensures |Pad(m)| % BLOCK == 0
  {
  }

  /** Sections 3.1 and 3.2 of RFC 1321, byte by byte. */
  lemma PadBytes(m: seq<byte>)
    ensures var p, n := Pad(m), |m|;
      && |p| % 64 == 0 && n + 9 <= |p| < n + 73 && p[..n] == m && p[n] == 0x80
      && (forall i :: n < i < |p| - 8 ==> p[i] == 0)
      && Le64(p, |p| - 8) == 8 * n % 0x1_0000_0000_0000_0000
  {
    PadIsWhole(m);
    var bits := 8 * |m| % 0x1_0000_0000_0000_0000;
    LeDigits(bits);
    hide Le;
    var p := Pad(m);
    var at := |p| - 8;
    assert p[at..] == Le(bits, 8);
    var w := p[at..];
    assert w[0] == p[at] && w[1] == p[at + 1] && w[2] == p[at + 2] && w[3] == p[at + 3];
    assert w[4] == p[at + 4] && w[5] == p[at + 5] && w[6] == p[at + 6] && w[7] == p[at + 7];
  }

  /** Eight bytes as a number, least significant first. */
  function Le64(s: seq<byte>, at: nat): nat
    requires at + 8 <= |s|
  {
    s[at] as int + 0x100 * s[at + 1] as int + 0x1_0000 * s[at + 2] as int + 0x100_0000 * s[at + 3] as int
    + 0x1_0000_0000 * s[at + 4] as int + 0x100_0000_0000 * s[at + 5] as int
    + 0x1_0000_0000_0000 * s[at + 6] as int + 0x100_0000_0000_0000 * s[at + 7] as int
  }

  lemma LeDigits(x: u64)
    ensures Le64(Le(x, 8), 0) == x
  {
    var x1, x2, x3 := x / 256, x / 256 / 256, x / 256 / 256 / 256;
    var x4, x5 := x3 / 256, x3 / 256 / 256;
    var x6, x7 := x5 / 256, x5 / 256 / 256;
    LeStep(x, 7);
    LeStep(x1, 6);
    LeStep(x2, 5);
    LeStep(x3, 4);
    LeStep(x4, 3);
    LeStep(x5, 2);
    LeStep(x6, 1);
    LeStep(x7, 0);
    hide Le;
    assert x7 < 256;
  }

  lemma LeStep(n: nat, len: nat)
    ensures Le(n, len + 1) == [n % 256] + Le(n / 256, len)
  {
  }

  /** Each word of the state comes out least significant byte first. */
  lemma OutputBytes(st: Words, i: nat)
    requires i < 4
    ensures var d := Output(st);
      && |d| == 16
      && d[4 * i] as int + 256 * d[4 * i + 1] as int + 0x1_0000 * d[4 * i + 2] as int + 0x100_0000 * d[4 * i + 3] as int
         == st[i]
  {
    RtpHeader.Memory32Value(st[i]);
    hide Memory32;
    var d := Output(st);
    assert d[4 * i..4 * i + 4] == Memory32(st[i]);
    var w := d[4 * i..4 * i + 4];
    assert w[0] == d[4 * i] && w[1] == d[4 * i + 1] && w[2] == d[4 * i + 2] && w[3] == d[4 * i + 3];
  }

  /** The message digest, defined over the whole message at once. */
  function Digest(t: Transform, m: seq<byte>): seq<byte> {
    PadIsWhole(m);
    Output(Fold(t, INITIAL, Pad(m)))
  }

  lemma {:induction false} FoldAppend(t: Transform, st: Words, a: seq<byte>, b: seq<byte>)
    requires |a| % BLOCK == 0 && |b| % BLOCK == 0
    ensures |a + b| % BLOCK == 0 && Fold(t, st, a + b) == Fold(t, Fold(t, st, a), b)
    decreases |a|
  {
    if |a| == 0 {
      assert a + b == b;
    } else {
      assert (a + b)[..BLOCK] == a[..BLOCK] && (a + b)[BLOCK..] == a[BLOCK..] + b;
      FoldAppend(t, t(st, a[..BLOCK]), a[BLOCK..], b);
    }
  }

  lemma FoldOne(t: Transform, st: Words, a: seq<byte>, block: Chunk)
    requires |a| % BLOCK == 0
    ensures Fold(t, st, a + block) == t(Fold(t, st, a), block)
  {
    FoldAppend(t, st, a, block);
    assert block[..BLOCK] == block;
    assert block[BLOCK..] == [];
    assert Fold(t, Fold(t, st, a), block) == Fold(t, t(Fold(t, st, a), block), []);
  }

  /** The part of a message that fills blocks. */
  function Blocks(m: seq<byte>): (b: seq<byte>)
    ensures |b| % BLOCK == 0
  {
    m[..|m| - |m| % BLOCK]
  }

  /** The unprocessed rest. */
  function Tail(m: seq<byte>): seq<byte> { m[|m| - |m| % BLOCK..] }

  class Context {
    const transform: Transform
    var state: Words
    var count: u64
    const buffer: array<byte>
    /** All bytes fed in so far. */
    ghost var message: seq<byte>

    /** The state has absorbed every whole block and the buffer holds the rest. */
    ghost predicate Valid()
      reads this, buffer
    {
      && buffer.Length == BLOCK
      && count == |message| % 0x1_0000_0000_0000_0000
      && state == Fold(transform, INITIAL, Blocks(message))
      && buffer[..|message| % BLOCK] == Tail(message)
    }

    constructor (transform: Transform)
      ensures Valid() && fresh(buffer) && message == [] && this.transform == transform
    {
      this.transform, state, count, message := transform, INITIAL, 0, [];
      buffer := new byte[BLOCK](i => 0);
    }

    /** Absorbs `data`: first completes the buffered block, then takes blocks
        straight from the data, then buffers the rest. */
    method Update(data: seq<byte>)
      requires Valid()
      modifies this, buffer
      ensures Valid() && message == old(message) + data
    {
      hide Fold, Blocks, Tail;
      ghost var m := message;
      var index := count % BLOCK;
      CountMod(|m|);
      CountAdd(|m|, |data|);
      count := (count + |data|) % 0x1_0000_0000_0000_0000;
      message := m + data;
      var i := 0;
      if index != 0 {
        var part := BLOCK - index;
        if |data| >= part {
          var end := Append(buffer, index, data[..part]);
          state := transform(state, buffer[..]);
          i := part;
          FillBlock(transform, m, data, buffer[..], state);
        } else {
          var end := Append(buffer, index, data);
          StillPartial(m, data);
          return;
        }
      } else {
        NothingBuffered(m, data);
      }
      AbsorbRest(data, i, m);
    }

    /** Whole blocks from position `start` of the data, then the rest into the buffer. */
    method AbsorbRest(data: seq<byte>, start: nat, ghost m: seq<byte>)
      requires buffer.Length == BLOCK && start <= |data| && (|m| + start) % BLOCK == 0
      requires state == Fold(transform, INITIAL, (m + data)[..|m| + start])
      modifies this`state, buffer
      ensures state == Fold(transform, INITIAL, Blocks(m + data))
      ensures buffer[..|m + data| % BLOCK] == Tail(m + data)
    {
      hide Fold, Blocks, Tail;
      var i := AbsorbBlocks(data, start, (m + data)[..|m| + start]);
      assert (m + data)[..|m| + start] + data[start..i] == (m + data)[..|m| + i];
      if i < |data| {
        var end := Append(buffer, 0, data[i..]);
      }
      Rest(m, data, i);
      assert buffer[..|data| - i] == data[i..];
    }

    /** Takes whole blocks straight from the data. */
    method AbsorbBlocks(data: seq<byte>, start: nat, ghost done: seq<byte>) returns (i: nat)
      requires start <= |data| && |done| % BLOCK == 0 && state == Fold(transform, INITIAL, done)
      modifies this`state
      ensures start <= i <= |data| < i + BLOCK && (i - start) % BLOCK == 0
      ensures (|done| + (i - start)) % BLOCK == 0 && state == Fold(transform, INITIAL, done + data[start..i])
    {
      hide Fold;
      i := start;
      assert done + data[start..start] == done;
      while i + BLOCK <= |data|
        invariant start <= i <= |data| && (i - start) % BLOCK == 0
        invariant (|done| + (i - start)) % BLOCK == 0 && state == Fold(transform, INITIAL, done + data[start..i])
      {
        var block := data[i..i + BLOCK];
        FoldOne(transform, INITIAL, done + data[start..i], block);
        assert done + data[start..i] + block == done + data[start..i + BLOCK];
        state := transform(state, block);
        i := i + BLOCK;
      }
    }

    /** Pads, appends the length and reads the state out. */
    method Final() returns (digest: seq<byte>)
      requires Valid()
      modifies this, buffer
      ensures digest == Digest(transform, old(message))
    {
      hide Fold, Blocks, Tail, Le;
      ghost var m := message;
      var bits := Le(count * 8 % 0x1_0000_0000_0000_0000, 8);
      var index := count % BLOCK;
      var padLen := if index < 56 then 56 - index else 120 - index;
      CountMod(|m|);
      BitCount(|m|);
      Update(PADDING[..padLen]);
      Update(bits);
      PaddingPart(m, padLen);
      assert message == Pad(m);
      PadIsWhole(m);
      AllBlocks(message);
      digest := Output(state);
    }
  }

  lemma CountMod(n: nat)
    ensures n % 0x1_0000_0000_0000_0000 % BLOCK == n % BLOCK
  {
    var q := n / 0x1_0000_0000_0000_0000;
    assert n == 64 * (q * 0x400_0000_0000_0000) + n % 0x1_0000_0000_0000_0000;
  }

  lemma CountAdd(n: nat, k: nat)
    ensures (n % 0x1_0000_0000_0000_0000 + k) % 0x1_0000_0000_0000_0000 == (n + k) % 0x1_0000_0000_0000_0000
  {
  }

  lemma PaddingPart(m: seq<byte>, padLen: nat)
    requires padLen == if |m| % BLOCK < 56 then 56 - |m| % BLOCK else 120 - |m| % BLOCK
    ensures PADDING[..padLen] == [0x80] + Zeros((55 - |m|) % 64)
  {
  }

  lemma AllBlocks(m: seq<byte>)
    requires |m| % BLOCK == 0
    ensures Blocks(m) == m
  {
  }

  lemma BitCount(n: nat)
    ensures n % 0x1_0000_0000_0000_0000 * 8 % 0x1_0000_0000_0000_0000 == 8 * n % 0x1_0000_0000_0000_0000
  {
    var q, r := n / 0x1_0000_0000_0000_0000, n % 0x1_0000_0000_0000_0000;
    assert 8 * n == 0x1_0000_0000_0000_0000 * (8 * q) + 8 * r;
  }

  lemma FillBlock(t: Transform, m: seq<byte>, data: seq<byte>, block: Chunk, st: Words)
    requires |m| % BLOCK > 0 && |data| >= BLOCK - |m| % BLOCK
    requires block == Tail(m) + data[..BLOCK - |m| % BLOCK]
    requires st == t(Fold(t, INITIAL, Blocks(m)), block)
    ensures var part := BLOCK - |m| % BLOCK;
      (|m| + part) % BLOCK == 0 && st == Fold(t, INITIAL, (m + data)[..|m| + part])
  {
    var part := BLOCK - |m| % BLOCK;
    assert (m + data)[..|m| + part] == Blocks(m) + block;
    FoldOne(t, INITIAL, Blocks(m), block);
  }

  lemma NothingBuffered(m: seq<byte>, data: seq<byte>)
    requires |m| % BLOCK == 0
    ensures (m + data)[..|m|] == Blocks(m)
  {
  }

  lemma StillPartial(m: seq<byte>, data: seq<byte>)
    requires |data| < BLOCK - |m| % BLOCK
    ensures Blocks(m + data) == Blocks(m) && Tail(m + data) == Tail(m) + data
    ensures |m + data| % BLOCK == |m| % BLOCK + |data|
  {
    var w := |m| - |m| % BLOCK;
    assert |m + data| - |m + data| % BLOCK == w;
  }

  lemma Rest(m: seq<byte>, data: seq<byte>, i: nat)
    requires i <= |data| < i + BLOCK && (|m| + i) % BLOCK == 0
    ensures Blocks(m + data) == (m + data)[..|m| + i] && Tail(m + data) == data[i..]
    ensures |m + data| % BLOCK == |data| - i
  {
    assert |m + data| - |m + data| % BLOCK == |m| + i;
  }

  /** The starting words of section 3.3 of RFC 1321, and one block after another. */
  lemma DigestOfBlocks(t: Transform, m: seq<byte>)
    requires |m| < 56
    ensures var start := [0x67452301, 0xefcdab89, 0x98badcfe, 0x10325476];
      |Pad(m)| == 64 && Digest(t, m) == Output(t(start, Pad(m)))
  {
    hide Le;
    PadBytes(m);
    assert [] + Pad(m) == Pad(m);
    FoldOne(t, INITIAL, [], Pad(m));
  }

  /** For every way of cutting a message into updates, the digest is that of the
      whole message. */
  method HashPieces(t: Transform, pieces: seq<seq<byte>>) returns (digest: seq<byte>)
    ensures digest == Digest(t, Concat(pieces))
  {
    var ctx := new Context(t);
    for i := 0 to |pieces|
      invariant ctx.Valid() && fresh(ctx) && fresh(ctx.buffer) && ctx.transform == t
      invariant ctx.message == Concat(pieces[..i])
    {
      assert pieces[..i + 1][..i] == pieces[..i];
      ctx.Update(pieces[i]);
    }
    assert pieces[..|pieces|] == pieces;
    digest := ctx.Final();
  }
}
