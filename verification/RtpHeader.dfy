/** The RTP header of section 5.1 of RFC 3550.  Multi-byte fields hold whatever
    number the host (little-endian here) sees in their memory; the code copies
    that memory to and from the wire unchanged.  Only the extension length is
    swapped, and only on the way out. */
module RtpHeader {
  import opened Bytes
  import opened Buffers

  datatype Header = Header(
    version: byte, padding: bool, extension: bool, csrcCount: byte, marker: bool, payloadTy: byte,
    sequenceNumber: u16, timestamp: u32, ssrc: u32, csrc: seq<u32>,
    extensionProfile: u16, extensionPayloadLen: u16, extensionPayload: seq<byte>)
  {
    /** Field widths, and the arrays the pointers must reach.  A longer
        extension would wrap the 16-bit copy index. */
    predicate Valid() {
      && version < 4 && csrcCount < 16 && payloadTy < 128
      && |csrc| == csrcCount
      && (extension ==> extensionPayloadLen <= 16383 && |extensionPayload| == 4 * extensionPayloadLen)
    }

    function Size(): nat {
      12 + csrcCount * 4 + (if extension then 4 + 4 * extensionPayloadLen else 0)
    }

    function FirstByte(): byte
      requires Valid()
    {
      version * 64 + (if padding then 32 else 0) + (if extension then 16 else 0) + csrcCount
    }

    function Fixed(): (s: seq<byte>)
      requires Valid()
      ensures |s| == 12
    {
      [FirstByte(), payloadTy + if marker then 128 else 0]
      + Memory16(sequenceNumber) + Memory32(timestamp) + Memory32(ssrc)
    }

    function Extension(): seq<byte>
      requires Valid()
    {
      if extension
      then Memory16(extensionProfile) + Memory16(Swap16(extensionPayloadLen)) + extensionPayload
      else []
    }

    function Serialize(): (s: seq<byte>)
      requires Valid()
      ensures |s| == Size()
    {
      Fixed() + CsrcBytes(csrc) + Extension()
    }

    /** How a receiver sees the header: the extension length stays in network
        order, and absent extension fields read as zero. */
    function Received(): Header {
      if extension then this.(extensionPayloadLen := Swap16(extensionPayloadLen))
      else this.(extensionProfile := 0, extensionPayloadLen := 0, extensionPayload := [])
    }
  }

  function CsrcBytes(cs: seq<u32>): (s: seq<byte>)
    ensures |s| == 4 * |cs|
  {
    if |cs| == 0 then [] else CsrcBytes(cs[..|cs| - 1]) + Memory32(cs[|cs| - 1])
  }

  function ReadU16(data: seq<byte>, at: nat): u16
    requires at + 2 <= |data|
  {
    data[at] as int + 256 * data[at + 1] as int
  }

  function ReadU32(data: seq<byte>, at: nat): u32
    requires at + 4 <= |data|
  {
    data[at] as int + 256 * data[at + 1] as int + 0x1_0000 * data[at + 2] as int + 0x100_0000 * data[at + 3] as int
  }

  function ReadCsrcs(data: seq<byte>, count: nat): (cs: seq<u32>)
    requires 12 + 4 * count <= |data|
    ensures |cs| == count && forall i :: 0 <= i < count ==> cs[i] == ReadU32(data, 12 + 4 * i)
  {
    seq(count, i requires 0 <= i < count => ReadU32(data, 12 + 4 * i))
  }

  /** The fields before the extension. */
  function FixedHeader(data: seq<byte>): Header
    requires |data| >= 12 && |data| >= 12 + (data[0] % 16) * 4
  {
    Header(2, (data[0] / 32) % 2 == 1, (data[0] / 16) % 2 == 1, data[0] % 16, data[1] / 128 == 1, data[1] % 128,
           ReadU16(data, 2), ReadU32(data, 4), ReadU32(data, 8), ReadCsrcs(data, data[0] % 16), 0, 0, [])
  }

  /** The header at the front of `data` and the number of bytes it takes, or
      `None` where the source returns -1. */
  function Deserialize(data: seq<byte>): (r: Option<(Header, nat)>)
    ensures r.Some? ==> 12 <= r.value.1 <= |data|
  {
    if |data| < 12 || data[0] / 64 != 2 then None
    else
      var afterCsrc := 12 + (data[0] % 16) * 4;
      if |data| < afterCsrc then None
      else
        var h := FixedHeader(data);
        if !h.extension then Some((h, afterCsrc))
        else if |data| < afterCsrc + 4 then None
        else
          var payloadAt, rawLen := afterCsrc + 4, ReadU16(data, afterCsrc + 2);
          var n := payloadAt + 4 * Swap16(rawLen);
          if |data| < n then None
          else Some((h.(extensionProfile := ReadU16(data, afterCsrc), extensionPayloadLen := rawLen,
                        extensionPayload := data[payloadAt..n]), n))
  }

  /** The header length both SRTP directions compute, or `None` where they give
      up.  An X bit without room for the extension header is ignored here. */
  function SrtpHeaderLength(packet: seq<byte>): (r: Option<nat>)
    requires |packet| >= 12
    ensures r.Some? ==> 12 <= r.value <= |packet|
  {
    var fixed := 12 + (packet[0] % 16) * 4;
    if fixed > |packet| then None
    else if (packet[0] / 16) % 2 == 1 && fixed + 4 <= |packet| then
      var full := fixed + 4 + 4 * Be16(packet, fixed + 2);
      if full > |packet| then None else Some(full)
    else Some(fixed)
  }

  lemma ReadU16At(a: seq<byte>, x: u16, b: seq<byte>)
    ensures ReadU16(a + Memory16(x) + b, |a|) == x
  {
    var w := a + Memory16(x) + b;
    assert w[|a|] == x % 256 && w[|a| + 1] == x / 256;
  }

  lemma Memory32Value(x: u32)
    ensures var m := Memory32(x);
      m[0] as int + 256 * m[1] as int + 0x1_0000 * m[2] as int + 0x100_0000 * m[3] as int == x
  {
    assert x == x % 256 + 256 * (x / 256);
    assert x / 256 == x / 256 % 256 + 256 * (x / 0x1_0000);
    assert x / 0x1_0000 == x / 0x1_0000 % 256 + 256 * (x / 0x100_0000);
  }

  lemma ReadU32At(a: seq<byte>, x: u32, b: seq<byte>)
    ensures ReadU32(a + Memory32(x) + b, |a|) == x
  {
    Memory32Value(x);
    hide Memory32;
    var m, n := Memory32(x), |a|;
    var w := a + m + b;
    assert w[n] == m[0] && w[n + 1] == m[1] && w[n + 2] == m[2] && w[n + 3] == m[3];
  }

  lemma {:induction false} ReadCsrc(a: seq<byte>, cs: seq<u32>, b: seq<byte>, i: nat)
    requires i < |cs|
    ensures ReadU32(a + CsrcBytes(cs) + b, |a| + 4 * i) == cs[i]
    decreases |cs|
  {
    var n := |cs| - 1;
    var front, last := CsrcBytes(cs[..n]), Memory32(cs[n]);
    if i == n {
      assert a + CsrcBytes(cs) + b == (a + front) + last + b;
      ReadU32At(a + front, cs[n], b);
    } else {
      assert a + CsrcBytes(cs) + b == a + front + (last + b);
      ReadCsrc(a, cs[..n], last + b, i);
    }
  }

  ghost predicate FixedAt(h: Header, w: seq<byte>)
    requires h.Valid()
  {
    && |w| >= 12
    && ReadU16(w, 2) == h.sequenceNumber && ReadU32(w, 4) == h.timestamp && ReadU32(w, 8) == h.ssrc
    && w[0] == h.FirstByte() && w[1] == h.payloadTy + if h.marker then 128 else 0
  }

  lemma FixedFields(h: Header, rest: seq<byte>)
    requires h.Valid()
    ensures FixedAt(h, h.Fixed() + rest)
  {
    hide Memory16, Memory32, ReadU16, ReadU32, Header.FirstByte;
    var w := h.Fixed() + rest;
    var b := w[..2];
    var s, t, r := Memory16(h.sequenceNumber), Memory32(h.timestamp), Memory32(h.ssrc);
    assert w == b + s + (t + r + rest);
    ReadU16At(b, h.sequenceNumber, t + r + rest);
    assert w == (b + s) + t + (r + rest);
    ReadU32At(b + s, h.timestamp, r + rest);
    assert w == (b + s + t) + r + rest;
    ReadU32At(b + s + t, h.ssrc, rest);
  }

  lemma CsrcFields(a: seq<byte>, cs: seq<u32>, b: seq<byte>)
    requires |a| == 12
    ensures ReadCsrcs(a + CsrcBytes(cs) + b, |cs|) == cs
  {
    var w := a + CsrcBytes(cs) + b;
    forall i | 0 <= i < |cs| ensures ReadU32(w, 12 + 4 * i) == cs[i] {
      ReadCsrc(a, cs, b, i);
    }
  }

  ghost predicate ExtensionAt(h: Header, w: seq<byte>, at: nat) {
    && at + 4 + 4 * h.extensionPayloadLen <= |w|
    && ReadU16(w, at) == h.extensionProfile
    && ReadU16(w, at + 2) == Swap16(h.extensionPayloadLen)
    && w[at + 4..at + 4 + 4 * h.extensionPayloadLen] == h.extensionPayload
  }

  lemma Regroup<T>(a: seq<T>, p: seq<T>, n: seq<T>, x: seq<T>, b: seq<T>)
    ensures a + (p + n + x) + b == a + p + (n + x + b)
    ensures a + (p + n + x) + b == (a + p) + n + (x + b)
    ensures a + (p + n + x) + b == (a + p + n) + x + b
  {
  }

  lemma SliceMiddle<T>(a: seq<T>, x: seq<T>, b: seq<T>)
    ensures (a + x + b)[|a|..|a| + |x|] == x
  {
  }

  lemma ExtensionFields(h: Header, a: seq<byte>, rest: seq<byte>)
    requires h.Valid() && h.extension
    ensures ExtensionAt(h, a + h.Extension() + rest, |a|)
  {
    hide Memory16, Swap16, ReadU16;
    var w := a + h.Extension() + rest;
    var p, n, x := Memory16(h.extensionProfile), Memory16(Swap16(h.extensionPayloadLen)), h.extensionPayload;
    Regroup(a, p, n, x, rest);
    hide Header.Extension;
    ReadU16At(a, h.extensionProfile, n + x + rest);
    ReadU16At(a + p, Swap16(h.extensionPayloadLen), x + rest);
    SliceMiddle(a + p + n, x, rest);
  }

  lemma HeadByte(h: Header)
    requires h.Valid()
    ensures var b := h.FirstByte();
      && b / 64 == h.version && (b / 32) % 2 == (if h.padding then 1 else 0)
      && (b / 16) % 2 == (if h.extension then 1 else 0) && b % 16 == h.csrcCount
  {
  }

  /** Deserializing what was serialized, whatever payload follows, consumes
      exactly the header and gives the fields back. */
  lemma RoundTrip(h: Header, payload: seq<byte>)
    requires h.Valid() && h.version == 2
    ensures Deserialize(h.Serialize() + payload) == Some((h.Received(), h.Size()))
  {
    hide Header.Fixed, CsrcBytes, Header.Extension, FixedAt, ExtensionAt, ReadCsrcs, Deserialize, Header.Received;
    var w := h.Serialize() + payload;
    var f, c, e := h.Fixed(), CsrcBytes(h.csrc), h.Extension();
    assert FixedAt(h, w) by {
      assert w == f + (c + e + payload);
      FixedFields(h, c + e + payload);
    }
    assert ReadCsrcs(w, h.csrcCount) == h.csrc by {
      assert w == f + c + (e + payload);
      CsrcFields(f, h.csrc, e + payload);
    }
    assert h.extension ==> ExtensionAt(h, w, 12 + 4 * h.csrcCount) by {
      if h.extension {
        assert w == (f + c) + e + payload;
        ExtensionFields(h, f + c, payload);
      }
    }
    DeserializeFields(h, w);
  }

  lemma FixedHeaderIs(h: Header, w: seq<byte>)
    requires h.Valid() && h.version == 2 && |w| >= 12 + 4 * h.csrcCount
    requires FixedAt(h, w) && ReadCsrcs(w, h.csrcCount) == h.csrc
    ensures w[0] / 64 == 2 && w[0] % 16 == h.csrcCount
    ensures FixedHeader(w) == h.(extensionProfile := 0, extensionPayloadLen := 0, extensionPayload := [])
  {
    HeadByte(h);
    hide Header.FirstByte, ReadU16, ReadU32, ReadCsrcs;
    assert w[1] / 128 == (if h.marker then 1 else 0) && w[1] % 128 == h.payloadTy;
  }

  lemma WithExtension(h: Header, w: seq<byte>)
    requires h.Valid() && h.version == 2 && h.extension && |w| >= h.Size()
    requires w[0] / 64 == 2 && w[0] % 16 == h.csrcCount
    requires FixedHeader(w) == h.(extensionProfile := 0, extensionPayloadLen := 0, extensionPayload := [])
    requires ExtensionAt(h, w, 12 + 4 * h.csrcCount)
    ensures Deserialize(w) == Some((h.Received(), h.Size()))
  {
    SwapIsNetworkOrder(h.extensionPayloadLen);
    hide FixedHeader, ReadU16, Swap16, Be, Memory16;
    var at := 12 + 4 * h.csrcCount;
    assert at + 4 + 4 * Swap16(ReadU16(w, at + 2)) == h.Size();
  }

  /** What the deserializer makes of a buffer whose fields read as those of `h`. */
  lemma DeserializeFields(h: Header, w: seq<byte>)
    requires h.Valid() && h.version == 2 && |w| >= h.Size()
    requires FixedAt(h, w) && ReadCsrcs(w, h.csrcCount) == h.csrc
    requires h.extension ==> ExtensionAt(h, w, 12 + 4 * h.csrcCount)
    ensures Deserialize(w) == Some((h.Received(), h.Size()))
  {
    FixedHeaderIs(h, w);
    hide FixedAt, FixedHeader, ReadU16, ReadU32, Swap16, ReadCsrcs;
    if h.extension {
      WithExtension(h, w);
    }
  }

  lemma NetworkOrderRead(w: seq<byte>, at: nat)
    requires at + 2 <= |w|
    ensures Swap16(ReadU16(w, at)) == Be16(w, at)
  {
  }

  /** On every packet the RTP layer accepts, SRTP finds the same header length,
      so it encrypts exactly the RTP payload. */
  lemma SrtpAgrees(packet: seq<byte>)
    requires Deserialize(packet).Some?
    ensures SrtpHeaderLength(packet) == Some(Deserialize(packet).value.1)
  {
    var fixed := 12 + (packet[0] % 16) * 4;
    if (packet[0] / 16) % 2 == 1 {
      NetworkOrderRead(packet, fixed + 2);
    }
  }

  /** The converse fails only on packets SRTP protects anyway: a version other
      than 2, or an X bit with no room for an extension header. */
  lemma SrtpAcceptsMore(packet: seq<byte>)
    requires |packet| >= 12 && SrtpHeaderLength(packet).Some?
    ensures Deserialize(packet).Some? <==>
      packet[0] / 64 == 2
      && ((packet[0] / 16) % 2 == 1 ==> 12 + (packet[0] % 16) * 4 + 4 <= |packet|)
  {
    var fixed := 12 + (packet[0] % 16) * 4;
    if (packet[0] / 16) % 2 == 1 && fixed + 4 <= |packet| {
      NetworkOrderRead(packet, fixed + 2);
    }
  }

  /** Asking a received header for its size is right exactly when there is no
      extension or its length reads the same in both byte orders. */
  lemma ReceivedSize(packet: seq<byte>)
    requires Deserialize(packet).Some?
    ensures var (h, n) := Deserialize(packet).value;
      h.Size() == n <==> !h.extension || Swap16(h.extensionPayloadLen) == h.extensionPayloadLen
  {
  }

  /** A header with an extension of one word takes 20 bytes; received, it reports
      12 + 4 + 1024 of them. */
  lemma ReceivedSizeWrong()
    ensures var h := Header(2, false, true, 0, false, 96, 0, 0, 0, [], 0, 1, Zeros(4));
      h.Valid() && Deserialize(h.Serialize()) == Some((h.Received(), 20)) && h.Received().Size() == 1040
  {
    var h := Header(2, false, true, 0, false, 96, 0, 0, 0, [], 0, 1, Zeros(4));
    RoundTrip(h, []);
    assert h.Serialize() + [] == h.Serialize();
  }

  // ---------------------------------------------------------- byte order

  lemma Order16(x: u16)
    ensures Memory16(x) == Be(x, 2) <==> Swap16(x) == x
  {
    SwapIsNetworkOrder(x);
    if Memory16(x) == Be(x, 2) {
      assert x % 256 == Memory16(x)[0] == Be(x, 2)[0] == x / 256;
    }
  }

  lemma Order32(x: u32)
    ensures Memory32(x) == Be(x, 4) <==> Swap32(x) == x
  {
    Swap32IsNetworkOrder(x);
    Memory32Value(x);
    Memory32Value(Swap32(x));
    hide Memory32, Swap32, Be;
  }

  /** The wire holds the number of every multi-byte field most significant byte
      first: what the header's documentation promises. */
  ghost predicate WireInNetworkOrder(h: Header)
    requires h.Valid()
  {
    var w := h.Serialize();
    && w[2..4] == Be(h.sequenceNumber, 2) && w[4..8] == Be(h.timestamp, 4) && w[8..12] == Be(h.ssrc, 4)
    && (forall i :: 0 <= i < |h.csrc| ==> w[12 + 4 * i..16 + 4 * i] == Be(h.csrc[i], 4))
    && (h.extension ==> w[12 + 4 * |h.csrc|..14 + 4 * |h.csrc|] == Be(h.extensionProfile, 2))
  }

  /** Every multi-byte field but the extension length reads the same in both orders. */
  predicate Palindromic(h: Header) {
    && Swap16(h.sequenceNumber) == h.sequenceNumber && Swap32(h.timestamp) == h.timestamp && Swap32(h.ssrc) == h.ssrc
    && (forall i :: 0 <= i < |h.csrc| ==> Swap32(h.csrc[i]) == h.csrc[i])
    && (h.extension ==> Swap16(h.extensionProfile) == h.extensionProfile)
  }

  lemma {:induction false} CsrcAt(cs: seq<u32>, i: nat)
    requires i < |cs|
    ensures CsrcBytes(cs)[4 * i..4 * i + 4] == Memory32(cs[i])
    decreases |cs|
  {
    hide Memory32;
    var n := |cs| - 1;
    if i < n {
      CsrcAt(cs[..n], i);
      assert CsrcBytes(cs)[4 * i..4 * i + 4] == CsrcBytes(cs[..n])[4 * i..4 * i + 4];
    }
  }

  lemma FixedAtWire(h: Header)
    requires h.Valid()
    ensures var w := h.Serialize();
      && w[0] == 64 * h.version + (if h.padding then 32 else 0) + (if h.extension then 16 else 0) + h.csrcCount
      && w[1] == h.payloadTy + (if h.marker then 128 else 0)
      && w[2..4] == Memory16(h.sequenceNumber) && w[4..8] == Memory32(h.timestamp) && w[8..12] == Memory32(h.ssrc)
  {
    hide Memory16, Memory32, CsrcBytes, Header.Extension;
    var f := h.Fixed();
    assert h.Serialize()[0] == f[0] && h.Serialize()[1] == f[1];
    assert h.Serialize()[..12] == f;
    assert f[2..4] == Memory16(h.sequenceNumber) && f[4..8] == Memory32(h.timestamp) && f[8..12] == Memory32(h.ssrc);
    assert h.Serialize()[2..4] == f[2..4] && h.Serialize()[4..8] == f[4..8] && h.Serialize()[8..12] == f[8..12];
  }

  lemma CsrcAtWire(h: Header, i: nat)
    requires h.Valid() && i < |h.csrc|
    ensures h.Serialize()[12 + 4 * i..16 + 4 * i] == Memory32(h.csrc[i])
  {
    hide Header.Fixed, Header.Extension, CsrcBytes, Memory32;
    CsrcAt(h.csrc, i);
    SliceMiddle(h.Fixed(), CsrcBytes(h.csrc), h.Extension());
    var w, c := h.Serialize(), CsrcBytes(h.csrc);
    assert w[12..12 + |c|] == c;
    assert w[12 + 4 * i..16 + 4 * i] == w[12..12 + |c|][4 * i..4 * i + 4];
  }

  lemma ExtensionAtWire(h: Header)
    requires h.Valid() && h.extension
    ensures var w, at := h.Serialize(), 12 + 4 * |h.csrc|;
      && w[at..at + 2] == Memory16(h.extensionProfile) && w[at + 2..at + 4] == Be(h.extensionPayloadLen, 2)
      && w[at + 4..] == h.extensionPayload
  {
    SwapIsNetworkOrder(h.extensionPayloadLen);
    hide Header.Fixed, CsrcBytes, Memory16, Swap16, Be;
    var w, at, e := h.Serialize(), 12 + 4 * |h.csrc|, h.Extension();
    assert w[at..] == e;
    assert e[..2] == Memory16(h.extensionProfile) && e[2..4] == Memory16(Swap16(h.extensionPayloadLen));
    assert e[4..] == h.extensionPayload;
    assert w[at..at + 2] == w[at..][..2] && w[at + 2..at + 4] == w[at..][2..4] && w[at + 4..] == w[at..][4..];
  }

  /** The serializer puts the fields on the wire in network order exactly when
      swapping their bytes changes nothing; the extension length always is. */
  lemma NetworkOrderExactly(h: Header)
    requires h.Valid()
    ensures WireInNetworkOrder(h) <==> Palindromic(h)
    ensures h.extension ==>
      h.Serialize()[14 + 4 * |h.csrc|..16 + 4 * |h.csrc|] == Be(h.extensionPayloadLen, 2)
  {
    hide Header.Serialize, Memory16, Memory32, Swap16, Swap32, Be;
    FixedAtWire(h);
    Order16(h.sequenceNumber);
    Order32(h.timestamp);
    Order32(h.ssrc);
    forall i | 0 <= i < |h.csrc|
      ensures h.Serialize()[12 + 4 * i..16 + 4 * i] == Be(h.csrc[i], 4) <==> Swap32(h.csrc[i]) == h.csrc[i]
    {
      CsrcAtWire(h, i);
      Order32(h.csrc[i]);
    }
    if h.extension {
      ExtensionAtWire(h);
      Order16(h.extensionProfile);
    }
  }

  /** Sequence number 1 goes out as 256. */
  lemma HostOrderOnWire()
    ensures var h := Header(2, false, false, 0, false, 96, 1, 0, 0, [], 0, 0, []);
      h.Valid() && h.Serialize()[2..4] == [1, 0] && Be(1, 2) == [0, 1] && !WireInNetworkOrder(h)
  {
    var h := Header(2, false, false, 0, false, 96, 1, 0, 0, [], 0, 0, []);
    FixedAtWire(h);
    assert Memory16(1) == [1, 0] && Be(1, 2) == [0, 1];
    assert [1, 0][0] != [0, 1][0];
  }

  /** Writes the header into the caller's buffer field by field. */
  method SerializeInto(h: Header, buffer: array<byte>)
    requires h.Valid() && h.Size() <= buffer.Length
    modifies buffer
    ensures buffer[..h.Size()] == h.Serialize()
    ensures forall j :: h.Size() <= j < buffer.Length ==> buffer[j] == old(buffer[j])
  {
    AppendFixed(h, buffer);
    var p := AppendCsrc(buffer, 12, h.csrc);
    if h.extension {
      p := AppendExtension(h, buffer, p);
    }
  }

  method AppendFixed(h: Header, buffer: array<byte>)
    requires h.Valid() && 12 <= buffer.Length
    modifies buffer
    ensures buffer[..12] == h.Fixed()
    ensures forall j :: 12 <= j < buffer.Length ==> buffer[j] == old(buffer[j])
  {
    var first := h.version * 64 + h.csrcCount;
    if h.padding { first := first + 32; }
    if h.extension { first := first + 16; }
    var second := h.payloadTy;
    if h.marker { second := second + 128; }
    var p := Append(buffer, 0, [first, second]);
    p := Append(buffer, p, Memory16(h.sequenceNumber));
    p := Append(buffer, p, Memory32(h.timestamp));
    p := Append(buffer, p, Memory32(h.ssrc));
  }

  method AppendExtension(h: Header, buffer: array<byte>, at: nat) returns (next: nat)
    requires h.Valid() && h.extension && at + |h.Extension()| <= buffer.Length
    modifies buffer
    ensures next == at + |h.Extension()|
    ensures buffer[..next] == old(buffer[..at]) + h.Extension()
    ensures forall j :: next <= j < buffer.Length ==> buffer[j] == old(buffer[j])
  {
    next := Append(buffer, at, Memory16(h.extensionProfile));
    next := Append(buffer, next, Memory16(Swap16(h.extensionPayloadLen)));
    next := Append(buffer, next, h.extensionPayload);
  }

  method AppendCsrc(buffer: array<byte>, at: nat, csrc: seq<u32>) returns (next: nat)
    requires at + 4 * |csrc| <= buffer.Length
    modifies buffer
    ensures next == at + 4 * |csrc|
    ensures buffer[..next] == old(buffer[..at]) + CsrcBytes(csrc)
    ensures forall j :: next <= j < buffer.Length ==> buffer[j] == old(buffer[j])
  {
    next := at;
    for i := 0 to |csrc|
      invariant next == at + 4 * i
      invariant buffer[..next] == old(buffer[..at]) + CsrcBytes(csrc[..i])
      invariant forall j :: at + 4 * |csrc| <= j < buffer.Length ==> buffer[j] == old(buffer[j])
    {
      next := Append(buffer, next, Memory32(csrc[i]));
      assert csrc[..i + 1][..i] == csrc[..i];
    }
    assert csrc[..|csrc|] == csrc;
  }
}
