/** NAL unit headers and their fragmentation unit headers for H.264 (section 5.8
    of RFC 6184) and H.265 (section 4.4.3 of RFC 7798). */
module Nal {
  import opened Bits
  import opened Bytes

  /** Field widths follow the two standards. */
  datatype Header =
    | H264(forbidden: bool, refIdc: byte, unitType: byte)
    | H265(forbidden: bool, unitType: byte, layerId: byte, temporalIdPlus1: byte)
  {
    predicate Valid() {
      if H264? then refIdc < 4 && unitType < 32 else unitType < 64 && layerId < 64 && temporalIdPlus1 < 8
    }

    function Size(): nat { if H264? then 1 else 2 }
    function FuSize(): nat { if H264? then 2 else 3 }

    /** The unit type that announces a fragmentation unit. */
    function FuType(): byte { if H264? then 28 else 49 }

    predicate IsIdr() { unitType == if H264? then 5 else 19 }
    predicate IsNonIdr() { if H264? then unitType == 1 else unitType == 20 || unitType == 1 }

    function Serialize(): (s: seq<byte>)
      requires Valid()
      ensures |s| == Size()
    {
      if H264? then [Flag(forbidden, 128) + refIdc * 32 + unitType]
      else [Flag(forbidden, 128) + unitType * 2 + layerId / 32, layerId % 32 * 8 + temporalIdPlus1]
    }

    /** The bytes in front of each fragment. */
    function WriteFu(first: bool, last: bool): (s: seq<byte>)
      requires Valid()
      ensures |s| == FuSize()
    {
      if H264? then [FuIdentifier(refIdc), FuByte(first, last, unitType)]
      else H265(forbidden, 49, layerId, temporalIdPlus1).Serialize() + [FuByte(first, last, unitType)]
    }
  }

  function Flag(b: bool, value: byte): byte { if b then value else 0 }

  /** Start bit, end bit and unit type. */
  function FuByte(first: bool, last: bool, unitType: byte): byte
    requires unitType < 64
  {
    Flag(first, 128) + Flag(last, 64) + unitType
  }

  /** All bits of nal_ref_idc set, type 28; then the clear bits are masked out. */
  function FuIdentifier(refIdc: byte): byte {
    var id0 := 0x7C;
    var id1 := if (refIdc / 2) % 2 == 0 then And(id0, 0x3F) else id0;
    var id2 := if refIdc % 2 == 0 then And(id1, 0x5F) else id1;
    id2 % 256
  }

  lemma AndStep(a: nat, b: nat)
    requires a > 0 && b > 0
    ensures And(a, b) == 2 * And(a / 2, b / 2) + (if a % 2 == 1 && b % 2 == 1 then 1 else 0)
  {
  }

  lemma Mask3F()
    ensures And(0x7C, 0x3F) == 0x3C
  {
    hide And;
    AndStep(124, 63); AndStep(62, 31); AndStep(31, 15); AndStep(15, 7); AndStep(7, 3); AndStep(3, 1);
    AndZero(1);
  }

  lemma Mask5F()
    ensures And(0x7C, 0x5F) == 0x5C && And(0x3C, 0x5F) == 0x1C
  {
    hide And;
    AndStep(124, 95); AndStep(62, 47); AndStep(31, 23); AndStep(15, 11); AndStep(7, 5); AndStep(3, 2); AndStep(1, 1);
    AndStep(60, 95); AndStep(30, 47); AndStep(15, 23); AndStep(7, 11); AndStep(3, 5); AndStep(1, 2);
    AndZero(0);
    AndZero(1);
  }

  lemma AndZero(n: nat)
    ensures And(n, 0) == 0 && And(0, n) == 0
  {
  }

  lemma FuIdentifierFields(refIdc: byte)
    requires refIdc < 4
    ensures FuIdentifier(refIdc) == refIdc * 32 + 28
  {
    hide And;
    Mask3F();
    Mask5F();
  }

  /** The fields of the header bytes, read as one number. */
  lemma HeaderNumber(h: Header)
    requires h.Valid()
    ensures var s := h.Serialize();
      match h
      case H264(f, r, t) => |s| == 1 && s[0] == (if f then 128 else 0) + 32 * r + t
      case H265(f, t, l, i) => |s| == 2 && Be16(s, 0) == (if f then 0x8000 else 0) + 512 * t + 8 * l + i
  {
  }

  /** The bytes in front of a fragment: a header of type 28 or 49, then start bit,
      end bit and the type of the unit. */
  lemma FuBytes(h: Header, first: bool, last: bool)
    requires h.Valid()
    ensures var s := h.WriteFu(first, last);
      var fu := (if first then 128 else 0) + (if last then 64 else 0) + h.unitType;
      match h
      case H264(_, r, _) => s == [32 * r + 28, fu]
      case H265(f, _, l, i) =>
        |s| == 3 && Be16(s, 0) == (if f then 0x8000 else 0) + 512 * 49 + 8 * l + i && s[2] == fu
  {
    if h.H264? {
      FuIdentifierFields(h.refIdc);
      hide FuIdentifier;
    } else {
      var p := H265(h.forbidden, 49, h.layerId, h.temporalIdPlus1);
      HeaderNumber(p);
      assert h.WriteFu(first, last)[..2] == p.Serialize();
    }
  }

  /** Coded slices by their type: 5 and 1 for H.264, 19, 20 and 1 for H.265. */
  lemma SliceTypes(h: Header)
    ensures h.IsIdr() || h.IsNonIdr() <==>
      h.unitType == 1 || (if h.H264? then h.unitType == 5 else h.unitType == 19 || h.unitType == 20)
    ensures h.IsIdr() <==> h.unitType == if h.H264? then 5 else 19
  {
  }

  /** Reads a header of the same codec as `like`. */
  function Parse(like: Header, s: seq<byte>): Header
    requires |s| >= like.Size()
  {
    if like.H264? then H264(s[0] / 128 == 1, s[0] / 32 % 4, s[0] % 32)
    else H265(s[0] / 128 == 1, s[0] / 2 % 64, s[0] % 2 * 32 + s[1] / 8, s[1] % 8)
  }

  /** The parsers of the two codecs invert their printers, and the other way round. */
  lemma HeaderRoundTrip(h: Header, rest: seq<byte>)
    requires h.Valid()
    ensures Parse(h, h.Serialize() + rest) == h
  {
    var s := h.Serialize() + rest;
    assert s[0] == h.Serialize()[0];
    if h.H265? {
      assert s[1] == h.Serialize()[1];
      Fields265(h.forbidden, h.unitType, h.layerId, h.temporalIdPlus1);
    } else {
      Fields264(h.forbidden, h.refIdc, h.unitType);
    }
  }

  lemma Fields264(forbidden: bool, refIdc: byte, unitType: byte)
    requires refIdc < 4 && unitType < 32
    ensures var b := Flag(forbidden, 128) + refIdc * 32 + unitType;
      b < 256 && b / 128 == Flag(forbidden, 1) && b / 32 % 4 == refIdc && b % 32 == unitType
  {
  }

  lemma Fields265(forbidden: bool, unitType: byte, layerId: byte, temporalIdPlus1: byte)
    requires unitType < 64 && layerId < 64 && temporalIdPlus1 < 8
    ensures var b, c := Flag(forbidden, 128) + unitType * 2 + layerId / 32, layerId % 32 * 8 + temporalIdPlus1;
      && b < 256 && c < 256 && b / 128 == Flag(forbidden, 1) && b / 2 % 64 == unitType
      && b % 2 * 32 + c / 8 == layerId && c % 8 == temporalIdPlus1
  {
    var b, c := Flag(forbidden, 128) + unitType * 2 + layerId / 32, layerId % 32 * 8 + temporalIdPlus1;
    var f := Flag(forbidden, 1);
    ModUnique(b, 128, f, unitType * 2 + layerId / 32);
    ModUnique(b, 2, f * 64 + unitType, layerId / 32);
    ModUnique(f * 64 + unitType, 64, f, unitType);
    ModUnique(c, 8, layerId % 32, temporalIdPlus1);
  }

  lemma Bytes264(x: byte)
    ensures Flag(x / 128 == 1, 128) + x / 32 % 4 * 32 + x % 32 == x
  {
  }

  lemma Bytes265(x: byte, y: byte)
    ensures var layerId := x % 2 * 32 + y / 8;
      && layerId < 64 && Flag(x / 128 == 1, 128) + x / 2 % 64 * 2 + layerId / 32 == x && layerId % 32 * 8 + y % 8 == y
  {
    ModUnique(x % 2 * 32 + y / 8, 32, x % 2, y / 8);
  }

  lemma BytesRoundTrip(like: Header, s: seq<byte>)
    requires |s| == like.Size()
    ensures Parse(like, s).Valid() && Parse(like, s).Serialize() == s
  {
    if like.H264? {
      Bytes264(s[0]);
      assert Parse(like, s).Serialize()[0] == s[0];
    } else {
      Bytes265(s[0], s[1]);
      assert Parse(like, s).Serialize()[0] == s[0] && Parse(like, s).Serialize()[1] == s[1];
    }
  }

  // ------------------------------------------------- a receiver of the packets

  /** The header of the unit a fragment belongs to: everything from the payload
      header but the type, which the FU byte carries. */
  function FragmentHeader(like: Header, body: seq<byte>): Header
    requires |body| >= like.FuSize()
  {
    match Parse(like, body)
    case H264(f, r, _) => H264(f, r, body[1] % 32)
    case H265(f, _, l, t) => H265(f, if |body| > 2 then body[2] % 64 else 0, l, t)
  }

  predicate StartBit(like: Header, body: seq<byte>)
    requires |body| >= like.FuSize()
  {
    body[like.FuSize() - 1] / 128 == 1
  }

  predicate EndBit(like: Header, body: seq<byte>)
    requires |body| >= like.FuSize()
  {
    body[like.FuSize() - 1] / 64 % 2 == 1
  }

  predicate IsFragment(like: Header, body: seq<byte>) {
    |body| >= like.FuSize() && Parse(like, body).unitType == like.FuType()
  }

  /** The H.264 payload header has no room for the forbidden bit. */
  function Delivered(h: Header): Header {
    match h
    case H264(_, r, t) => H264(false, r, t)
    case H265(_, _, _, _) => h
  }

  lemma FuByteFields(first: bool, last: bool, unitType: byte)
    requires unitType < 64
    ensures var b := FuByte(first, last, unitType);
      b / 128 == Flag(first, 1) && b / 64 % 2 == Flag(last, 1) && b % 64 == unitType && b % 32 == unitType % 32
  {
  }

  /** What a receiver reads off one fragment. */
  lemma FragmentFields(h: Header, first: bool, last: bool, data: seq<byte>)
    requires h.Valid()
    ensures var body := h.WriteFu(first, last) + data;
      && IsFragment(h, body) && StartBit(h, body) == first && EndBit(h, body) == last
      && FragmentHeader(h, body) == Delivered(h)
      && body[h.FuSize()..] == data
  {
    hide FuByte, FuIdentifier;
    var body := h.WriteFu(first, last) + data;
    FuByteFields(first, last, h.unitType);
    assert body[h.FuSize() - 1] == FuByte(first, last, h.unitType);
    match h
    case H264(f, r, t) =>
      FuIdentifierFields(r);
      assert body[0] == r * 32 + 28;
      Fields264(false, r, 28);
    case H265(f, t, l, i) =>
      var p := H265(f, 49, l, i);
      assert body == p.Serialize() + ([FuByte(first, last, t)] + data);
      HeaderRoundTrip(p, [FuByte(first, last, t)] + data);
  }
}
