/** Base64 (section 4 of RFC 4648). */
module Base64 {
  import opened Bytes
  import opened Buffers
  import opened Bits

  const EQUALS: byte := 61

  /** The alphabet A-Z, a-z, 0-9, '+', '/'. */
  function Char(i: nat): (c: byte)
    requires i < 64
    ensures c != EQUALS && ValidChar(c) && Value(c) == i
  {
    if i < 26 then 65 + i
    else if i < 52 then 97 + (i - 26)
    else if i < 62 then 48 + (i - 52)
    else if i == 62 then 43 else 47
  }

  /** The decode table is zero outside the alphabet. */
  function Value(c: byte): (i: nat)
    ensures i < 64
  {
    if 65 <= c <= 90 then c - 65
    else if 97 <= c <= 122 then c - 97 + 26
    else if 48 <= c <= 57 then c - 48 + 52
    else if c == 43 then 62
    else if c == 47 then 63 else 0
  }

  predicate ValidChar(c: byte) {
    65 <= c <= 90 || 97 <= c <= 122 || 48 <= c <= 57 || c == 43 || c == 47 || c == EQUALS
  }

  function Triplet(a: byte, b: byte, c: byte): (t: nat)
    ensures t < 0x100_0000
  {
    a * 0x1_0000 + b * 0x100 + c
  }

  /** The four characters of a triplet, of which only `n` are written. */
  function Quad(t: nat, n: nat): (s: seq<byte>)
    requires t < 0x100_0000
    ensures |s| == 4
  {
    [Char(t / 0x4_0000), Char(t / 0x1000 % 64),
     if n > 2 then Char(t / 64 % 64) else EQUALS, if n > 3 then Char(t % 64) else EQUALS]
  }

  lemma LengthStep(n: nat)
    requires n >= 3
    ensures (n + 2) / 3 * 4 == 4 + (n - 3 + 2) / 3 * 4
  {
  }

  function Encode(s: seq<byte>): (r: seq<byte>)
    ensures |r| == (|s| + 2) / 3 * 4
  {
    if |s| == 0 then []
    else if |s| == 1 then Quad(Triplet(s[0], 0, 0), 2)
    else if |s| == 2 then Quad(Triplet(s[0], s[1], 0), 3)
    else
      LengthStep(|s|);
      Quad(Triplet(s[0], s[1], s[2]), 4) + Encode(s[3..])
  }

  /** The number four characters make. */
  function Combined(q: seq<byte>): (t: nat)
    requires |q| == 4
    ensures t < 0x100_0000
  {
    Value(q[0]) * 0x4_0000 + Value(q[1]) * 0x1000 + Value(q[2]) * 64 + Value(q[3])
  }

  /** The three bytes four characters stand for. */
  function Triple(q: seq<byte>): (s: seq<byte>)
    requires |q| == 4
    ensures |s| == 3
  {
    var t := Combined(q);
    [t / 0x1_0000 % 256, t / 0x100 % 256, t % 256]
  }

  function Triples(s: seq<byte>): (r: seq<byte>)
    requires |s| % 4 == 0
    ensures |r| == |s| / 4 * 3
  {
    if |s| == 0 then [] else Triple(s[..4]) + Triples(s[4..])
  }

  function Padding(s: seq<byte>): nat
    requires |s| >= 2
  {
    (if s[|s| - 1] == EQUALS then 1 else 0) + (if s[|s| - 2] == EQUALS then 1 else 0)
  }

  /** The decoded bytes, or `None` where the source refuses the text.  An equals
      sign is let through anywhere and counts as zero bits. */
  function Decode(s: seq<byte>): (r: Option<seq<byte>>) {
    if |s| == 0 then Some([])
    else if |s| % 4 != 0 || exists i :: 0 <= i < |s| && !ValidChar(s[i]) then None
    else Some(Triples(s)[..|s| / 4 * 3 - Padding(s)])
  }

  lemma Sextets(t: nat)
    requires t < 0x100_0000
    ensures t / 0x4_0000 < 64
    ensures t / 0x4_0000 * 0x4_0000 + t / 0x1000 % 64 * 0x1000 + t / 64 % 64 * 64 + t % 64 == t
  {
    assert t / 0x1000 / 64 == t / 0x4_0000 && t / 64 / 64 == t / 0x1000;
  }

  lemma TripletBytes(a: byte, b: byte, c: byte)
    ensures var t := Triplet(a, b, c);
      && t / 0x1_0000 % 256 == a && t / 0x100 % 256 == b && t % 256 == c
      && (c == 0 ==> t % 64 == 0) && (b == 0 && c == 0 ==> t / 64 % 64 == 0)
  {
    var t := Triplet(a, b, c);
    ModUnique(t, 0x1_0000, a, b * 0x100 + c);
    ModUnique(t, 0x100, a * 0x100 + b, c);
    ModUnique(a * 0x100 + b, 0x100, a, b);
    if c == 0 { ModUnique(t, 64, a * 0x400 + b * 4, 0); }
    if b == 0 && c == 0 { ModUnique(a * 0x400, 64, a * 0x10, 0); }
  }

  lemma TripleOfQuad(a: byte, b: byte, c: byte, n: nat)
    requires 2 <= n <= 4 && (n == 2 ==> b == 0) && (n < 4 ==> c == 0)
    ensures Triple(Quad(Triplet(a, b, c), n)) == [a, b, c]
  {
    hide Char, Triplet;
    var t := Triplet(a, b, c);
    Sextets(t);
    TripletBytes(a, b, c);
    var q := Quad(t, n);
    assert Value(q[2]) == t / 64 % 64 && Value(q[3]) == t % 64;
  }

  /** The number of equals signs at the end of an encoding. */
  function PadFor(n: nat): nat { if n % 3 == 0 then 0 else 3 - n % 3 }

  lemma EncodeShort(s: seq<byte>)
    requires 1 <= |s| <= 2
    ensures var b := if |s| == 2 then s[1] else 0;
      Encode(s) == Quad(Triplet(s[0], b, 0), |s| + 1)
  {
  }

  lemma EncodeLong(s: seq<byte>)
    requires |s| >= 3
    ensures Encode(s) == Quad(Triplet(s[0], s[1], s[2]), 4) + Encode(s[3..])
  {
    hide Quad, Triplet, Char;
  }

  lemma TriplesQuad(q: seq<byte>, rest: seq<byte>)
    requires |q| == 4 && |rest| % 4 == 0
    ensures Triples(q + rest) == Triple(q) + Triples(rest)
  {
    hide Triple;
    assert (q + rest)[..4] == q && (q + rest)[4..] == rest;
  }

  lemma {:induction false} TriplesOfEncode(s: seq<byte>)
    ensures |Encode(s)| % 4 == 0 && Triples(Encode(s)) == s + Zeros(PadFor(|s|))
    decreases |s|
  {
    EncodeLength(s);
    hide Quad, Triple, Encode, Triples;
    if |s| == 0 {
      EmptyCases();
    } else if |s| <= 2 {
      EncodeShort(s);
      EmptyCases();
      var b := if |s| == 2 then s[1] else 0;
      var q := Quad(Triplet(s[0], b, 0), |s| + 1);
      TripleOfQuad(s[0], b, 0, |s| + 1);
      assert q + [] == q;
      TriplesQuad(q, []);
    } else {
      EncodeLong(s);
      TriplesOfEncode(s[3..]);
      TripleOfQuad(s[0], s[1], s[2], 4);
      TriplesQuad(Quad(Triplet(s[0], s[1], s[2]), 4), Encode(s[3..]));
      assert s == [s[0], s[1], s[2]] + s[3..];
    }
  }

  lemma EmptyCases()
    ensures Encode([]) == [] && Triples([]) == []
  {
  }

  lemma QuadChars(t: nat, n: nat)
    requires t < 0x100_0000 && 2 <= n <= 4
    ensures var q := Quad(t, n);
      && ValidChar(q[0]) && ValidChar(q[1]) && ValidChar(q[2]) && ValidChar(q[3])
      && Padding(q) == 4 - n
  {
    hide Char;
  }

  lemma {:induction false} EncodeChars(s: seq<byte>)
    ensures forall i :: 0 <= i < |Encode(s)| ==> ValidChar(Encode(s)[i])
    ensures |s| > 0 ==> |Encode(s)| >= 4 && Padding(Encode(s)) == PadFor(|s|)
    decreases |s|
  {
    EncodeLength(s);
    hide Quad, Encode, Triplet;
    if |s| == 0 {
      EmptyCases();
    } else if |s| <= 2 {
      EncodeShort(s);
      var b := if |s| == 2 then s[1] else 0;
      QuadChars(Triplet(s[0], b, 0), |s| + 1);
    } else {
      EncodeLong(s);
      EncodeChars(s[3..]);
      QuadChars(Triplet(s[0], s[1], s[2]), 4);
      if |s| == 3 { EmptyCases(); }
    }
  }

  /** Decoding an encoding gives the bytes back, for every length. */
  lemma RoundTrip(s: seq<byte>)
    ensures Decode(Encode(s)) == Some(s)
  {
    EncodeLength(s);
    hide Encode, Triples, Padding;
    TriplesOfEncode(s);
    EncodeChars(s);
    if |s| > 0 {
      assert (s + Zeros(PadFor(|s|)))[..|s|] == s;
    }
  }

  lemma EncodeLength(s: seq<byte>)
    ensures |Encode(s)| % 4 == 0 && |Encode(s)| / 4 * 3 - PadFor(|s|) == |s|
    ensures |Encode(s)| == 0 <==> |s| == 0
  {
    hide Encode;
    var k := (|s| + 2) / 3;
    assert |Encode(s)| == k * 4;
    assert 3 * k == |s| + PadFor(|s|);
  }

  // ----------------------------------------------------------- the alphabet

  const UPPER := "ABCDEFGHIJKLMNOPQRSTUVWXYZ"
  const LOWER := "abcdefghijklmnopqrstuvwxyz"
  const OTHERS := "0123456789+/"
  const ALPHABET := UPPER + LOWER + OTHERS

  lemma UpperCase(i: nat)
    requires i < 26
    ensures |UPPER| == 26 && UPPER[i] as int == 65 + i
  {
  }

  lemma LowerCase(i: nat)
    requires i < 26
    ensures |LOWER| == 26 && LOWER[i] as int == 97 + i
  {
  }

  lemma Others(i: nat)
    requires i < 12
    ensures |OTHERS| == 12 && OTHERS[i] as int == if i < 10 then 48 + i else if i == 10 then 43 else 47
  {
  }

  /** Character i of the alphabet stands for i, and only '=' is let through beside it. */
  lemma Alphabet(i: nat)
    requires i < 64
    ensures |ALPHABET| == 64 && Char(i) == ALPHABET[i] as int && Value(ALPHABET[i] as int) == i
  {
    UpperCase(if i < 26 then i else 0);
    LowerCase(if 26 <= i < 52 then i - 26 else 0);
    Others(if i < 52 then 0 else i - 52);
    hide UPPER, LOWER, OTHERS;
  }

  lemma ValidChars(c: byte)
    ensures ValidChar(c) <==> c == '=' as int || exists i :: 0 <= i < 64 && Char(i) == c
  {
    if ValidChar(c) && c != EQUALS {
      CharOfValue(c);
      assert Char(Value(c)) == c;
    }
  }

  /** The 24 bits of three bytes are those of four characters, in the same order. */
  lemma {:induction false} SameBits(s: seq<byte>, b: nat)
    requires 3 * b + 3 <= |s|
    ensures var e := Encode(s);
      && 4 * b + 4 <= |e|
      && Combined(e[4 * b..4 * b + 4])
         == s[3 * b] as int * 0x1_0000 + s[3 * b + 1] as int * 0x100 + s[3 * b + 2] as int
    decreases b
  {
    hide Quad, Combined, Triplet, Encode;
    EncodeLong(s);
    var q, rest := Quad(Triplet(s[0], s[1], s[2]), 4), Encode(s[3..]);
    if b == 0 {
      assert (q + rest)[0..4] == q;
      QuadBits(s[0], s[1], s[2], 4);
    } else {
      SameBits(s[3..], b - 1);
      SliceAfter(q, rest, 4 * b - 4, 4);
    }
  }

  lemma QuadBits(a: byte, b: byte, c: byte, n: nat)
    requires 2 <= n <= 4 && (n == 2 ==> b == 0) && (n < 4 ==> c == 0)
    ensures Combined(Quad(Triplet(a, b, c), n)) == a as int * 0x1_0000 + b as int * 0x100 + c as int
  {
    hide Char;
    var t := Triplet(a, b, c);
    Sextets(t);
    TripletBytes(a, b, c);
    var q := Quad(t, n);
    assert Value(q[0]) == t / 0x4_0000 && Value(q[1]) == t / 0x1000 % 64;
    assert Value(q[2]) == t / 64 % 64 && Value(q[3]) == t % 64;
    hide Quad, Value;
  }

  /** What decodes, and to how many bytes: one less for each of the last two
      characters that is an equals sign. */
  lemma DecodeExactly(s: seq<byte>)
    ensures Decode(s).Some? <==> |s| % 4 == 0 && forall i :: 0 <= i < |s| ==> ValidChar(s[i])
    ensures Decode(s).Some? && |s| > 0 ==>
      var last, other := if s[|s| - 1] == '=' as int then 1 else 0, if s[|s| - 2] == '=' as int then 1 else 0;
      |Decode(s).value| == |s| / 4 * 3 - last - other
  {
    hide Triples;
  }

  /** The 24 bits of four characters are those of three bytes, in the same order. */
  lemma DecodedBits(s: seq<byte>, b: nat)
    requires |s| > 0 && Decode(s).Some? && 3 * b + 3 <= |Decode(s).value|
    ensures 4 * b + 4 <= |s|
    ensures var d := Decode(s).value;
      d[3 * b] as int * 0x1_0000 + d[3 * b + 1] as int * 0x100 + d[3 * b + 2] as int == Combined(s[4 * b..4 * b + 4])
  {
    DecodeExactly(s);
    TriplesAt(s, b);
    TripleBits(s[4 * b..4 * b + 4]);
    hide Triple, Combined, ValidChar;
    var d, t := Decode(s).value, Triples(s);
    assert d == t[..|d|];
    var w := t[3 * b..3 * b + 3];
    assert w[0] == d[3 * b] && w[1] == d[3 * b + 1] && w[2] == d[3 * b + 2];
  }

  lemma TripleBits(q: seq<byte>)
    requires |q| == 4
    ensures var t := Triple(q);
      t[0] as int * 0x1_0000 + t[1] as int * 0x100 + t[2] as int == Combined(q)
  {
    hide Combined;
    TripletOfBytes(Combined(q));
  }

  // ------------------------------------------------------- canonical text

  predicate CleanChar(c: byte) { ValidChar(c) && c != EQUALS }

  predicate CleanQuad(q: seq<byte>)
    requires |q| == 4
  {
    CleanChar(q[0]) && CleanChar(q[1]) && CleanChar(q[2]) && CleanChar(q[3])
  }

  /** The last four characters: no, one or two equals signs, and zeros in the bits
      that stand for no byte. */
  predicate LastQuad(q: seq<byte>)
    requires |q| == 4
  {
    if q[3] != EQUALS then CleanQuad(q)
    else if q[2] != EQUALS then CleanChar(q[0]) && CleanChar(q[1]) && CleanChar(q[2]) && Value(q[2]) % 4 == 0
    else CleanChar(q[0]) && CleanChar(q[1]) && Value(q[1]) % 16 == 0
  }

  predicate Canonical(s: seq<byte>) {
    if |s| <= 4 then |s| == 0 || (|s| == 4 && LastQuad(s))
    else CleanQuad(s[..4]) && Canonical(s[4..])
  }

  lemma CharOfValue(c: byte)
    requires CleanChar(c)
    ensures Char(Value(c)) == c
  {
  }

  /** Taking four values out of the number they make. */
  lemma CombinedSextets(q: seq<byte>)
    requires |q| == 4
    ensures var t := Combined(q);
      && t / 0x4_0000 == Value(q[0]) && t / 0x1000 % 64 == Value(q[1])
      && t / 64 % 64 == Value(q[2]) && t % 64 == Value(q[3])
  {
    var t := Combined(q);
    var a, b, c, d := Value(q[0]), Value(q[1]), Value(q[2]), Value(q[3]);
    hide Value;
    ModUnique(t, 0x4_0000, a, b * 0x1000 + c * 64 + d);
    ModUnique(t, 0x1000, a * 64 + b, c * 64 + d);
    ModUnique(a * 64 + b, 64, a, b);
    ModUnique(t, 64, a * 0x1000 + b * 64 + c, d);
    ModUnique(a * 0x1000 + b * 64 + c, 64, a * 64 + b, c);
  }

  lemma QuadOfCombined(q: seq<byte>, n: nat)
    requires |q| == 4 && 2 <= n <= 4 && CleanChar(q[0]) && CleanChar(q[1])
    requires if n > 2 then CleanChar(q[2]) else q[2] == EQUALS
    requires if n > 3 then CleanChar(q[3]) else q[3] == EQUALS
    ensures Quad(Combined(q), n) == q
  {
    CombinedSextets(q);
    CharOfValue(q[0]);
    CharOfValue(q[1]);
    if n > 2 { CharOfValue(q[2]); }
    if n > 3 { CharOfValue(q[3]); }
    hide Char, Combined, Value, ValidChar;
  }

  /** The bytes of a number below 2^24, and how many of them are needed. */
  lemma TripletOfBytes(t: nat)
    requires t < 0x100_0000
    ensures t / 0x1_0000 < 256
    ensures Triplet(t / 0x1_0000, t / 0x100 % 256, t % 256) == t
  {
    assert t / 0x100 / 0x100 == t / 0x1_0000;
  }

  lemma LowBits(q: seq<byte>)
    requires |q| == 4
    ensures q[3] == EQUALS && Value(q[2]) % 4 == 0 ==> Combined(q) % 256 == 0
    ensures q[3] == q[2] == EQUALS && Value(q[1]) % 16 == 0 ==> Combined(q) % 256 == 0 && Combined(q) / 0x100 % 256 == 0
  {
    var a, b, c := Value(q[0]), Value(q[1]), Value(q[2]);
    if q[3] == EQUALS && c % 4 == 0 {
      var t := Combined(q);
      ModUnique(t, 256, a * 0x400 + b * 16 + c / 4, 0);
      if q[2] == EQUALS && b % 16 == 0 {
        ModUnique(a * 0x400 + b * 16, 256, a * 4 + b / 16, 0);
      }
    }
  }

  /** A canonical text is the encoding of some bytes. */
  lemma {:induction false} CanonicalIsEncoding(s: seq<byte>) returns (x: seq<byte>)
    requires Canonical(s)
    ensures Encode(x) == s
    decreases |s|
  {
    if |s| == 0 {
      EmptyCases();
      x := [];
    } else {
      var q := s[..4];
      var t := Combined(q);
      TripletOfBytes(t);
      LowBits(q);
      var a, b, c := t / 0x1_0000, t / 0x100 % 256, t % 256;
      hide Combined, Quad, Triplet, Value, ValidChar;
      hide Encode;
      if |s| > 4 {
        var rest := CanonicalIsEncoding(s[4..]);
        x := [a, b, c] + rest;
        assert x[3..] == rest && x[0] == a && x[1] == b && x[2] == c;
        EncodeLong(x);
        QuadOfCombined(q, 4);
        assert q + s[4..] == s;
      } else {
        assert q == s;
        x := ShortBytes(q, a, b, c);
      }
    }
  }

  lemma ShortBytes(q: seq<byte>, a: byte, b: byte, c: byte) returns (x: seq<byte>)
    requires |q| == 4 && LastQuad(q) && Triplet(a, b, c) == Combined(q)
    requires q[3] == EQUALS && Value(q[2]) % 4 == 0 ==> c == 0
    requires q[3] == q[2] == EQUALS && Value(q[1]) % 16 == 0 ==> c == 0 && b == 0
    ensures Encode(x) == q
  {
    assert Value(EQUALS) == 0;
    hide Combined, Quad, Triplet, ValidChar;
    if q[3] != EQUALS {
      x := [a, b, c];
      assert x[3..] == [];
      EncodeLong(x);
      EmptyCases();
      QuadOfCombined(q, 4);
      assert q + [] == q;
    } else if q[2] != EQUALS {
      x := [a, b];
      EncodeShort(x);
      QuadOfCombined(q, 3);
    } else {
      x := [a];
      EncodeShort(x);
      QuadOfCombined(q, 2);
    }
  }

  lemma ShortIsCanonical(x: seq<byte>)
    requires 1 <= |x| <= 2
    ensures Canonical(Encode(x))
  {
    EncodeShort(x);
    var b := if |x| == 2 then x[1] else 0;
    var t := Triplet(x[0], b, 0);
    ShortBits(x[0], b);
    hide Triplet, Encode, Char;
    assert LastQuad(Quad(t, |x| + 1));
  }

  lemma ShortBits(a: byte, b: byte)
    ensures var t := Triplet(a, b, 0);
      t / 64 % 64 % 4 == 0 && (b == 0 ==> t / 0x1000 % 64 % 16 == 0)
  {
    var t := Triplet(a, b, 0);
    ModUnique(t, 64, a * 0x400 + b * 4, 0);
    ModUnique(a * 0x400 + b * 4, 64, a * 16 + b / 16, b % 16 * 4);
    if b == 0 {
      ModUnique(t, 0x1000, a * 16, 0);
      ModUnique(a * 16, 64, a / 4, a % 4 * 16);
    }
  }

  lemma {:induction false} EncodingIsCanonical(x: seq<byte>)
    ensures Canonical(Encode(x))
    decreases |x|
  {
    if 1 <= |x| <= 2 {
      ShortIsCanonical(x);
    } else if |x| >= 3 {
      EncodeLong(x);
      EncodingIsCanonical(x[3..]);
      var q, rest := Quad(Triplet(x[0], x[1], x[2]), 4), Encode(x[3..]);
      assert CleanQuad(q);
      hide Quad, Triplet, Encode, CleanQuad;
      CanonicalStep(q, rest);
    }
  }

  lemma CanonicalStep(q: seq<byte>, rest: seq<byte>)
    requires |q| == 4 && CleanQuad(q) && Canonical(rest)
    ensures Canonical(q + rest)
  {
    assert (q + rest)[..4] == q && (q + rest)[4..] == rest;
    if |rest| == 0 { assert q + rest == q; }
  }

  /** Decoding and encoding again gives the text back exactly when it was
      canonical; the decoder lets other texts through. */
  lemma ReencodeExactly(s: seq<byte>)
    requires Decode(s).Some?
    ensures Encode(Decode(s).value) == s <==> Canonical(s)
  {
    hide Decode, Encode, Canonical;
    EncodingIsCanonical(Decode(s).value);
    if Canonical(s) {
      var x := CanonicalIsEncoding(s);
      RoundTrip(x);
    }
  }

  const LOOSE: seq<byte> := [65, 66, EQUALS, EQUALS]

  lemma LooseTriple()
    ensures Triple(LOOSE) == [0, 16, 0]
  {
  }

  lemma LooseTriples()
    ensures Triples(LOOSE) == [0, 16, 0]
  {
    hide Triple;
    LooseTriple();
    TriplesStep(LOOSE);
    EmptyCases();
    assert LOOSE[..4] == LOOSE && LOOSE[4..] == [];
  }

  lemma LooseDecodes()
    ensures Decode(LOOSE) == Some([0])
  {
    hide Triples;
    LooseTriples();
    assert Padding(LOOSE) == 2;
    hide Padding;
    assert forall i :: 0 <= i < 4 ==> ValidChar(LOOSE[i]);
    assert Triples(LOOSE)[..1] == [0];
  }

  lemma LooseIsNotCanonical()
    ensures !Canonical(LOOSE)
  {
    assert Value(LOOSE[1]) == 1;
  }

  /** "AB==" decodes to one zero byte, whose encoding is another text. */
  lemma LooseText()
    ensures Decode(LOOSE) == Some([0]) && Encode(Decode(LOOSE).value) != LOOSE
  {
    hide *;
    LooseDecodes();
    LooseIsNotCanonical();
    ReencodeExactly(LOOSE);
  }

  /** Writes the encoding and a terminating zero, if they fit. */
  method EncodeInto(src: seq<byte>, out: array<byte>) returns (ret: int)
    modifies out
    ensures ret == if out.Length < (|src| + 2) / 3 * 4 + 1 then -1 else |Encode(src)|
    ensures ret >= 0 ==> ret < out.Length && out[..ret] == Encode(src) && out[ret] == 0
    ensures forall j :: ret < j < out.Length && j >= 0 ==> out[j] == old(out[j])
  {
    hide Quad, Triplet;
    var needed := (|src| + 2) / 3 * 4 + 1;
    if out.Length < needed { return -1; }
    var oi, i := 0, 0;
    while i + 2 < |src|
      invariant i <= |src| && oi + |Encode(src[i..])| == |Encode(src)|
      invariant out[..oi] + Encode(src[i..]) == Encode(src)
      invariant forall j :: oi <= j < out.Length ==> out[j] == old(out[j])
    {
      var quad := Quad(Triplet(src[i], src[i + 1], src[i + 2]), 4);
      ghost var before := out[..oi];
      assert Encode(src[i..]) == quad + Encode(src[i + 3..]) by { assert src[i..][3..] == src[i + 3..]; }
      oi := Append(out, oi, quad);
      assert out[..oi] + Encode(src[i + 3..]) == before + (quad + Encode(src[i + 3..]));
      i := i + 3;
    }
    if i < |src| {
      var b := if i + 1 < |src| then src[i + 1] else 0;
      var quad := Quad(Triplet(src[i], b, 0), if i + 1 < |src| then 3 else 2);
      assert Encode(src[i..]) == quad;
      oi := Append(out, oi, quad);
    } else {
      assert Encode(src[i..]) == [];
    }
    assert out[..oi] == Encode(src);
    out[oi] := 0;
    ret := oi;
  }

  /** Writes the decoded bytes, never more than were announced. */
  method DecodeInto(b64: seq<byte>, out: array<byte>) returns (ret: int)
    modifies out
    ensures match Decode(b64)
      case None => ret == -1 && out[..] == old(out[..])
      case Some(r) =>
        if out.Length < |r| then ret == -1 && out[..] == old(out[..])
        else ret == |r| && out[..ret] == r && forall j :: ret <= j < out.Length ==> out[j] == old(out[j])
  {
    hide Triples;
    if |b64| == 0 { return 0; }
    if |b64| % 4 != 0 { return -1; }
    for i := 0 to |b64|
      invariant forall j :: 0 <= j < i ==> ValidChar(b64[j])
    {
      if !ValidChar(b64[i]) { return -1; }
    }
    var pad := 0;
    if b64[|b64| - 1] == EQUALS { pad := pad + 1; }
    if |b64| > 1 && b64[|b64| - 2] == EQUALS { pad := pad + 1; }
    var decodedLen := |b64| / 4 * 3 - pad;
    if out.Length < decodedLen { return -1; }
    WriteTriples(b64, out, decodedLen);
    assert out[..decodedLen] == Triples(b64)[..decodedLen];
    ret := decodedLen;
  }

  method WriteTriples(b64: seq<byte>, out: array<byte>, decodedLen: nat)
    requires |b64| % 4 == 0 && decodedLen <= |b64| / 4 * 3 && decodedLen <= out.Length
    modifies out
    ensures forall j :: 0 <= j < decodedLen ==> out[j] == Triples(b64)[j]
    ensures forall j :: decodedLen <= j < out.Length ==> out[j] == old(out[j])
  {
    hide Triple, Triples;
    var oi, i := 0, 0;
    ghost var b := 0;
    while i < |b64|
      invariant i == 4 * b <= |b64|
      invariant oi == if 3 * b < decodedLen then 3 * b else decodedLen
      invariant forall j :: 0 <= j < oi ==> out[j] == Triples(b64)[j]
      invariant forall j :: decodedLen <= j < out.Length ==> out[j] == old(out[j])
    {
      var triple := Triple(b64[i..i + 4]);
      TriplesAt(b64, b);
      assert triple == [Triples(b64)[3 * b], Triples(b64)[3 * b + 1], Triples(b64)[3 * b + 2]];
      if oi < decodedLen { out[oi] := triple[0]; oi := oi + 1; }
      if oi < decodedLen { out[oi] := triple[1]; oi := oi + 1; }
      if oi < decodedLen { out[oi] := triple[2]; oi := oi + 1; }
      i, b := i + 4, b + 1;
    }
  }

  lemma TriplesStep(s: seq<byte>)
    requires |s| % 4 == 0 && |s| > 0
    ensures |s| >= 4 && |s[4..]| % 4 == 0 && Triples(s) == Triple(s[..4]) + Triples(s[4..])
  {
    hide Triple;
  }

  lemma DropSlice<T>(s: seq<T>, k: nat, i: nat, n: nat)
    requires k + i + n <= |s|
    ensures s[k..][i..i + n] == s[k + i..k + i + n]
  {
  }

  lemma SliceAfter<T>(a: seq<T>, r: seq<T>, i: nat, n: nat)
    requires i + n <= |r|
    ensures (a + r)[|a| + i..|a| + i + n] == r[i..i + n]
  {
  }

  /** Block `b` of the text gives bytes 3 b, 3 b + 1 and 3 b + 2. */
  lemma {:induction false} TriplesAt(s: seq<byte>, b: nat)
    requires |s| % 4 == 0 && 4 * b < |s|
    ensures 3 * b + 3 <= |Triples(s)| && Triples(s)[3 * b..3 * b + 3] == Triple(s[4 * b..4 * b + 4])
    decreases b
  {
    hide *;
    TriplesStep(s);
    var first, rest := Triple(s[..4]), s[4..];
    if b > 0 {
      TriplesAt(rest, b - 1);
      DropSlice(s, 4, 4 * b - 4, 4);
      SliceAfter(first, Triples(rest), 3 * b - 3, 3);
    } else {
      assert (first + Triples(rest))[0..3] == first && s[..4] == s[0..4];
    }
  }
}
