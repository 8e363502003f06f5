/** Base64 with padding, over the alphabet of section 4 of RFC 4648. Three
    input bytes become four characters; a final group of one or two bytes
    becomes two or three characters followed by one or two '='. */
module Base64 {

  type Byte = x: int | 0 <= x < 0x100

  /** A 6-bit group: the value a base64 character stands for. */
  type Sextet = x: int | 0 <= x < 64

  const Pad: char := '='

  predicate IsAlphabetChar(c: char) {
    ('A' <= c <= 'Z') || ('a' <= c <= 'z') || ('0' <= c <= '9') || c == '+' || c == '/'
  }

  /** The character that stands for value `x`, per Table 1 of RFC 4648:
      'A'..'Z' for 0..25, 'a'..'z' for 26..51, '0'..'9' for 52..61, then
      '+' and '/'. */
  function CharOf(x: Sextet): (c: char)
    ensures IsAlphabetChar(c)
  {
    if x < 26 then ('A' as int + x) as char
    else if x < 52 then ('a' as int + (x - 26)) as char
    else if x < 62 then ('0' as int + (x - 52)) as char
    else if x == 62 then '+'
    else '/'
  }

  /** The value an alphabet character stands for. */
  function ValueOf(c: char): (x: Sextet)
    requires IsAlphabetChar(c)
    ensures CharOf(x) == c
  {
    if 'A' <= c <= 'Z' then c as int - 'A' as int
    else if 'a' <= c <= 'z' then c as int - 'a' as int + 26
    else if '0' <= c <= '9' then c as int - '0' as int + 52
    else if c == '+' then 62
    else 63
  }

  /** Every value has an alphabet character, and `ValueOf` reads it back. */
  lemma CharOfValueOf(x: Sextet)
    ensures IsAlphabetChar(CharOf(x)) && ValueOf(CharOf(x)) == x
  {
  }

  // ---------------------------------------------------------------- encoding

  /** Three bytes, 24 bits, as four characters. */
  function EncodeGroup(a: Byte, b: Byte, c: Byte): string {
    [CharOf(a / 4), CharOf((a % 4) * 16 + b / 16), CharOf((b % 16) * 4 + c / 64), CharOf(c % 64)]
  }

  /** A final single byte: its 8 bits padded with four zero bits, then "==". */
  function EncodeOne(a: Byte): string {
    [CharOf(a / 4), CharOf((a % 4) * 16), Pad, Pad]
  }

  /** Two final bytes: their 16 bits padded with two zero bits, then "=". */
  function EncodeTwo(a: Byte, b: Byte): string {
    [CharOf(a / 4), CharOf((a % 4) * 16 + b / 16), CharOf((b % 16) * 4), Pad]
  }

  function Encode(bytes: seq<Byte>): (s: string)
    ensures |s| == 4 * ((|bytes| + 2) / 3)
    ensures forall i :: 0 <= i < |s| ==> IsAlphabetChar(s[i]) || s[i] == Pad
    decreases |bytes|
  {
    if |bytes| == 0 then ""
    else if |bytes| == 1 then EncodeOne(bytes[0])
    else if |bytes| == 2 then EncodeTwo(bytes[0], bytes[1])
    else EncodeGroup(bytes[0], bytes[1], bytes[2]) + Encode(bytes[3..])
  }

  // ---------------------------------------------------------------- decoding

  /** Four alphabet characters. */
  predicate IsFullQuad(q: string) {
    |q| == 4 && IsAlphabetChar(q[0]) && IsAlphabetChar(q[1]) && IsAlphabetChar(q[2]) && IsAlphabetChar(q[3])
  }

  /** The last quad of an encoding: full, or "xx==" or "xxx=". */
  predicate IsLastQuad(q: string) {
    && |q| == 4 && IsAlphabetChar(q[0]) && IsAlphabetChar(q[1])
    && ((q[2] == Pad && q[3] == Pad) || (IsAlphabetChar(q[2]) && (q[3] == Pad || IsAlphabetChar(q[3]))))
  }

  /** A padded base64 text: full quads, the last of which may be padded. */
  predicate IsBase64(s: string)
    decreases |s|
  {
    if |s| == 0 then true
    else if |s| == 4 then IsLastQuad(s)
    else |s| > 4 && IsFullQuad(s[..4]) && IsBase64(s[4..])
  }

  /** A padded last quad whose bits beyond the encoded bytes are zero, as
      section 3.5 of RFC 4648 requires of an encoder. */
  predicate IsCanonicalQuad(q: string)
    requires IsLastQuad(q)
  {
    if q[2] == Pad then ValueOf(q[1]) % 16 == 0
    else if q[3] == Pad then ValueOf(q[2]) % 4 == 0
    else true
  }

  /** A base64 text an encoder can produce. */
  predicate IsCanonical(s: string)
    decreases |s|
  {
    if |s| == 0 then true
    else if |s| == 4 then IsLastQuad(s) && IsCanonicalQuad(s)
    else |s| > 4 && IsFullQuad(s[..4]) && IsCanonical(s[4..])
  }

  function DecodeQuad(q: string): (b: seq<Byte>)
    requires IsLastQuad(q)
    ensures 1 <= |b| <= 3
    ensures IsFullQuad(q) ==> |b| == 3
  {
    var x0, x1 := ValueOf(q[0]), ValueOf(q[1]);
    if q[2] == Pad then [x0 * 4 + x1 / 16]
    else
      var x2 := ValueOf(q[2]);
      if q[3] == Pad then [x0 * 4 + x1 / 16, (x1 % 16) * 16 + x2 / 4]
      else [x0 * 4 + x1 / 16, (x1 % 16) * 16 + x2 / 4, (x2 % 4) * 64 + ValueOf(q[3])]
  }

  function Decode(s: string): (b: seq<Byte>)
    requires IsBase64(s)
    ensures 4 * ((|b| + 2) / 3) == |s|
    decreases |s|
  {
    if |s| == 0 then []
    else if |s| == 4 then DecodeQuad(s)
    else DecodeQuad(s[..4]) + Decode(s[4..])
  }

  // ---------------------------------------------------------------- round trips

  /** Regrouping three bytes into sextets and back loses no bit. */
  lemma BytesToSextetsToBytes(a: Byte, b: Byte, c: Byte)
    ensures (a / 4) * 4 + ((a % 4) * 16 + b / 16) / 16 == a
    ensures (((a % 4) * 16 + b / 16) % 16) * 16 + ((b % 16) * 4 + c / 64) / 4 == b
    ensures (((b % 16) * 4 + c / 64) % 4) * 64 + c % 64 == c
  {
  }

  /** Regrouping four sextets into bytes and back loses no bit. */
  lemma SextetsToBytesToSextets(x0: Sextet, x1: Sextet, x2: Sextet, x3: Sextet)
    ensures var a, b, c := x0 * 4 + x1 / 16, (x1 % 16) * 16 + x2 / 4, (x2 % 4) * 64 + x3;
      && a / 4 == x0 && (a % 4) * 16 + b / 16 == x1
      && (b % 16) * 4 + c / 64 == x2 && c % 64 == x3
  {
  }

  lemma GroupRoundTrip(a: Byte, b: Byte, c: Byte)
    ensures IsFullQuad(EncodeGroup(a, b, c))
    ensures DecodeQuad(EncodeGroup(a, b, c)) == [a, b, c]
  {
    var x0, x1, x2, x3 := a / 4, (a % 4) * 16 + b / 16, (b % 16) * 4 + c / 64, c % 64;
    CharOfValueOf(x0);
    CharOfValueOf(x1);
    CharOfValueOf(x2);
    CharOfValueOf(x3);
    BytesToSextetsToBytes(a, b, c);
    var q := EncodeGroup(a, b, c);
    assert q == [CharOf(x0), CharOf(x1), CharOf(x2), CharOf(x3)];
  }

  lemma OneRoundTrip(a: Byte)
    ensures IsLastQuad(EncodeOne(a)) && IsCanonicalQuad(EncodeOne(a))
    ensures DecodeQuad(EncodeOne(a)) == [a]
  {
    CharOfValueOf(a / 4);
    CharOfValueOf((a % 4) * 16);
    BytesToSextetsToBytes(a, 0, 0);
  }

  lemma TwoRoundTrip(a: Byte, b: Byte)
    ensures IsLastQuad(EncodeTwo(a, b)) && IsCanonicalQuad(EncodeTwo(a, b))
    ensures DecodeQuad(EncodeTwo(a, b)) == [a, b]
  {
    CharOfValueOf(a / 4);
    CharOfValueOf((a % 4) * 16 + b / 16);
    CharOfValueOf((b % 16) * 4);
    BytesToSextetsToBytes(a, b, 0);
  }

  /** A full quad in front of a non-empty base64 text decodes to its three
      bytes in front of that text's bytes. */
  lemma DecodeFront(g: string, rest: string)
    requires IsFullQuad(g) && IsCanonical(rest) && IsBase64(rest) && rest != ""
    ensures IsCanonical(g + rest) && IsBase64(g + rest)
    ensures Decode(g + rest) == DecodeQuad(g) + Decode(rest)
  {
    var s := g + rest;
    assert s[..4] == g && s[4..] == rest;
  }

  lemma SplitThree(bytes: seq<Byte>)
    requires |bytes| >= 3
    ensures bytes == [bytes[0], bytes[1], bytes[2]] + bytes[3..]
  {
  }

  lemma DecodeEncodeGroup(bytes: seq<Byte>)
    requires |bytes| >= 3
    requires IsCanonical(Encode(bytes[3..])) && IsBase64(Encode(bytes[3..]))
    requires Decode(Encode(bytes[3..])) == bytes[3..]
    ensures IsCanonical(Encode(bytes)) && IsBase64(Encode(bytes))
    ensures Decode(Encode(bytes)) == bytes
  {
    var g := EncodeGroup(bytes[0], bytes[1], bytes[2]);
    var rest := Encode(bytes[3..]);
    GroupRoundTrip(bytes[0], bytes[1], bytes[2]);
    SplitThree(bytes);
    if |rest| == 0 {
      assert Encode(bytes) == g;
    } else {
      DecodeFront(g, rest);
    }
  }

  /** Encoding produces canonical base64, and decoding gives the bytes back. */
  lemma {:induction false} DecodeEncode(bytes: seq<Byte>)
    ensures IsCanonical(Encode(bytes)) && IsBase64(Encode(bytes))
    ensures Decode(Encode(bytes)) == bytes
    decreases |bytes|
  {
    if |bytes| == 1 {
      OneRoundTrip(bytes[0]);
    } else if |bytes| == 2 {
      TwoRoundTrip(bytes[0], bytes[1]);
    } else if |bytes| >= 3 {
      DecodeEncode(bytes[3..]);
      DecodeEncodeGroup(bytes);
    }
  }

  /** Three bytes encode as one group and nothing after it. */
  lemma EncodeThree(a: Byte, b: Byte, c: Byte)
    ensures Encode([a, b, c]) == EncodeGroup(a, b, c)
  {
    assert [a, b, c][3..] == [];
  }

  lemma FullQuadRoundTrip(q: string)
    requires IsFullQuad(q)
    ensures Encode(DecodeQuad(q)) == q
  {
    var x0: int, x1: int, x2: int, x3: int := ValueOf(q[0]), ValueOf(q[1]), ValueOf(q[2]), ValueOf(q[3]);
    SextetsToBytesToSextets(x0, x1, x2, x3);
    var a: Byte, b: Byte, c: Byte := x0 * 4 + x1 / 16, (x1 % 16) * 16 + x2 / 4, (x2 % 4) * 64 + x3;
    assert DecodeQuad(q) == [a, b, c];
    EncodeThree(a, b, c);
    assert EncodeGroup(a, b, c) == [CharOf(x0), CharOf(x1), CharOf(x2), CharOf(x3)];
  }

  /** "xx==": one byte whose low four bits in the second sextet are zero. */
  lemma OnePaddedRoundTrip(q: string)
    requires IsLastQuad(q) && IsCanonicalQuad(q) && q[2] == Pad
    ensures Encode(DecodeQuad(q)) == q
  {
    var x0: int, x1: int := ValueOf(q[0]), ValueOf(q[1]);
    SextetsToBytesToSextets(x0, x1, 0, 0);
    var a: int := x0 * 4 + x1 / 16;
    assert DecodeQuad(q) == [a];
    assert (a % 4) * 16 == x1;
    assert Encode([a]) == [CharOf(x0), CharOf(x1), Pad, Pad];
  }

  /** "xxx=": two bytes whose low two bits in the third sextet are zero. */
  lemma TwoPaddedRoundTrip(q: string)
    requires IsLastQuad(q) && IsCanonicalQuad(q) && q[2] != Pad && q[3] == Pad
    ensures Encode(DecodeQuad(q)) == q
  {
    var x0: int, x1: int, x2: int := ValueOf(q[0]), ValueOf(q[1]), ValueOf(q[2]);
    SextetsToBytesToSextets(x0, x1, x2, 0);
    var a: int, b: int := x0 * 4 + x1 / 16, (x1 % 16) * 16 + x2 / 4;
    assert DecodeQuad(q) == [a, b];
    assert (b % 16) * 4 == x2;
    assert Encode([a, b]) == [CharOf(x0), CharOf(x1), CharOf(x2), Pad];
  }

  lemma LastQuadRoundTrip(q: string)
    requires IsLastQuad(q) && IsCanonicalQuad(q)
    ensures Encode(DecodeQuad(q)) == q
  {
    if IsFullQuad(q) {
      FullQuadRoundTrip(q);
    } else if q[2] == Pad {
      OnePaddedRoundTrip(q);
    } else {
      TwoPaddedRoundTrip(q);
    }
  }

  /** Decoding a canonical text and encoding the bytes again gives the text back. */
  lemma {:induction false} EncodeDecode(s: string)
    requires IsCanonical(s)
    ensures IsBase64(s)
    ensures Encode(Decode(s)) == s
    decreases |s|
  {
    if |s| == 4 {
      LastQuadRoundTrip(s);
    } else if |s| > 4 {
      EncodeDecode(s[4..]);
      var head := DecodeQuad(s[..4]);
      var tail := Decode(s[4..]);
      FullQuadRoundTrip(s[..4]);
      var b := head + tail;
      assert b[..3] == head && b[3..] == tail;
      assert Encode(head) == EncodeGroup(head[0], head[1], head[2]) by {
        assert head[3..] == [];
      }
      assert s == s[..4] + s[4..];
    }
  }

  /** The test vectors of section 10 of RFC 4648, as bytes: "f", "fo", "foo". */
  lemma TestVectorsShort()
    ensures Encode([0x66]) == "Zg=="
    ensures Encode([0x66, 0x6F]) == "Zm8="
    ensures Encode([0x66, 0x6F, 0x6F]) == "Zm9v"
  {
    assert EncodeOne(0x66) == "Zg==";
    assert EncodeTwo(0x66, 0x6F) == "Zm8=";
    FooThen([]);
  }

  /** The test vectors of section 10 of RFC 4648, as bytes: "foob", "fooba", "foobar". */
  lemma TestVectorsLong()
    ensures Encode([0x66, 0x6F, 0x6F, 0x62]) == "Zm9vYg=="
    ensures Encode([0x66, 0x6F, 0x6F, 0x62, 0x61]) == "Zm9vYmE="
    ensures Encode([0x66, 0x6F, 0x6F, 0x62, 0x61, 0x72]) == "Zm9vYmFy"
  {
    FooThen([0x62]);
    assert EncodeOne(0x62) == "Yg==";
    FooThen([0x62, 0x61]);
    assert EncodeTwo(0x62, 0x61) == "YmE=";
    FooThen([0x62, 0x61, 0x72]);
    assert EncodeGroup(0x62, 0x61, 0x72) == "YmFy";
    assert [0x62, 0x61, 0x72][3..] == [];
  }

  /** Encoding "foo" followed by more bytes starts with "Zm9v". */
  lemma FooThen(rest: seq<Byte>)
    ensures Encode([0x66, 0x6F, 0x6F] + rest) == "Zm9v" + Encode(rest)
  {
    assert EncodeGroup(0x66, 0x6F, 0x6F) == "Zm9v";
    assert ([0x66, 0x6F, 0x6F] + rest)[3..] == rest;
  }
}
