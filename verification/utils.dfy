/** The string utilities of `src/utils/utils.ts`: `encode` and `decode`
    convert between a string and base64 through Node's "binary" (latin-1)
    byte view, and `isImage` classifies a URL by its extension. */
module Utils {
  import opened JsString
  import Base64

  type Byte = Base64.Byte

  /** The bytes Node's "binary" encoding gives one character: each UTF-16
      code unit of `c`, truncated to its low eight bits. A character above
      U+FFFF is two code units, a high and a low surrogate. */
  function BinaryBytesOf(c: char): (b: seq<Byte>)
    ensures |b| == CodeUnits(c)
    ensures c as int <= 0xFF ==> b == [c as int]
  {
    var n := c as int;
    if n <= 0xFFFF then [n % 0x100]
    else
      var v := n - 0x10000;
      [(0xD800 + v / 0x400) % 0x100, (0xDC00 + v % 0x400) % 0x100]
  }

  /** `Buffer.from(s, "binary")`. */
  function BinaryBytes(s: string): (b: seq<Byte>)
    ensures |b| == Utf16Length(s)
  {
    if |s| == 0 then [] else BinaryBytesOf(s[0]) + BinaryBytes(s[1..])
  }

  /** `buf.toString("binary")`: one character per byte, coded by that byte. */
  function BinaryString(b: seq<Byte>): (s: string)
    ensures |s| == |b|
    ensures forall i :: 0 <= i < |b| ==> s[i] as int == b[i]
  {
    seq(|b|, i requires 0 <= i < |b| => b[i] as char)
  }

  /** Every character is in U+0000..U+00FF, so it is one byte in the binary view. */
  predicate IsLatin1(s: string) {
    forall i :: 0 <= i < |s| ==> s[i] as int <= 0xFF
  }

  /** On a latin-1 string the binary view is the list of character codes. */
  lemma {:induction false} BinaryBytesOfLatin1(s: string)
    requires IsLatin1(s)
    ensures |BinaryBytes(s)| == |s|
    ensures forall i :: 0 <= i < |s| ==> BinaryBytes(s)[i] == s[i] as int
  {
    if |s| > 0 {
      BinaryBytesOfLatin1(s[1..]);
      var b := BinaryBytes(s);
      assert b == [s[0] as int] + BinaryBytes(s[1..]);
      forall i | 0 < i < |s| ensures b[i] == s[i] as int {
        assert s[i] == s[1..][i - 1];
      }
    }
  }

  /** Reading bytes as a binary string and taking its binary view again
      gives the bytes back. */
  lemma {:induction false} BinaryBytesOfBinaryString(b: seq<Byte>)
    ensures BinaryBytes(BinaryString(b)) == b
  {
    if |b| > 0 {
      var s := BinaryString(b);
      assert s[1..] == BinaryString(b[1..]);
      BinaryBytesOfBinaryString(b[1..]);
      assert BinaryBytesOf(s[0]) == [b[0]];
      assert b == [b[0]] + b[1..];
    }
  }

  /** `encode`: base64 of the binary view. The JavaScript length of the
      input fixes the output length, and only the base64 alphabet and '='
      appear. */
  function Encode(s: string): (r: string)
    ensures |r| == 4 * ((Utf16Length(s) + 2) / 3)
    ensures forall i :: 0 <= i < |r| ==> Base64.IsAlphabetChar(r[i]) || r[i] == Base64.Pad
    ensures Base64.IsCanonical(r) && Base64.IsBase64(r)
    ensures s == "" <==> r == ""
  {
    Base64.DecodeEncode(BinaryBytes(s));
    Base64.Encode(BinaryBytes(s))
  }

  /** `decode`, on well-formed padded base64: the decoded bytes as a binary
      string, so every character is at most U+00FF. */
  function Decode(s: string): (r: string)
    requires Base64.IsBase64(s)
    ensures IsLatin1(r)
    ensures 4 * ((|r| + 2) / 3) == |s|
  {
    BinaryString(Base64.Decode(s))
  }

  /** `decode(encode(s)) == s` for every latin-1 string. */
  lemma DecodeEncode(s: string)
    requires IsLatin1(s)
    ensures Decode(Encode(s)) == s
  {
    var b := BinaryBytes(s);
    Base64.DecodeEncode(b);
    BinaryBytesOfLatin1(s);
    assert BinaryString(b) == s;
  }

  /** `encode(decode(t)) == t` for every base64 text an encoder can produce. */
  lemma EncodeDecode(t: string)
    requires Base64.IsCanonical(t)
    ensures Base64.IsBase64(t)
    ensures Encode(Decode(t)) == t
  {
    Base64.EncodeDecode(t);
    BinaryBytesOfBinaryString(Base64.Decode(t));
  }

  /** A character above U+00FF does not survive the round trip: only the low
      byte of each code unit is kept. U+2192 (an arrow) comes back as U+0092. */
  lemma EncodeKeepsLowByteOnly()
    ensures Decode(Encode("\U{2192}")) == "\U{0092}"
  {
    var s := "\U{2192}";
    assert BinaryBytesOf(s[0]) == [0x92];
    assert BinaryBytes(s) == BinaryBytesOf(s[0]) + BinaryBytes(s[1..]);
    var b: seq<Byte> := [0x92];
    Base64.DecodeEncode(b);
    assert Decode(Encode(s)) == BinaryString(b);
  }

  /** The test vectors of section 10 of RFC 4648. */
  lemma EncodeTestVectors()
    ensures Encode("") == ""
    ensures Encode("f") == "Zg=="
    ensures Encode("fo") == "Zm8="
    ensures Encode("foo") == "Zm9v"
    ensures Encode("foob") == "Zm9vYg=="
    ensures Encode("fooba") == "Zm9vYmE="
    ensures Encode("foobar") == "Zm9vYmFy"
  {
    assert BinaryBytes("f") == [0x66];
    assert BinaryBytes("fo") == [0x66, 0x6F];
    assert BinaryBytes("foo") == [0x66, 0x6F, 0x6F];
    assert BinaryBytes("foob") == [0x66, 0x6F, 0x6F, 0x62];
    assert BinaryBytes("fooba") == [0x66, 0x6F, 0x6F, 0x62, 0x61];
    assert BinaryBytes("foobar") == [0x66, 0x6F, 0x6F, 0x62, 0x61, 0x72];
    Base64.TestVectorsShort();
    Base64.TestVectorsLong();
  }

  // ---------------------------------------------------------------- isImage

  /** The alternatives of the pattern `\.(jpeg|jpg|gif|png)$`. */
  const ImageExtensions: seq<string> := ["jpeg", "jpg", "gif", "png"]

  /** The pattern matches starting at index `i`: a '.' there, followed by one
      of the alternatives, which must run to the end of the input (`$`
      without the multiline flag anchors at the end only). */
  ghost predicate ImagePatternMatchesAt(url: string, i: int) {
    0 <= i < |url| && url[i] == '.' && url[i + 1..] in ImageExtensions
  }

  /** `isImage(url)`: `url.match(pattern) != null`. The match is
      case-sensitive, and nothing may follow the extension. */
  function IsImage(url: string): (b: bool)
    ensures b <==> exists i :: ImagePatternMatchesAt(url, i)
  {
    ImagePatternSuffix(url);
    EndsWith(url, ".jpeg") || EndsWith(url, ".jpg") || EndsWith(url, ".gif") || EndsWith(url, ".png")
  }

  /** The pattern search and the suffix test agree on every input. */
  lemma ImagePatternSuffix(url: string)
    ensures (exists i :: ImagePatternMatchesAt(url, i))
        <==> (EndsWith(url, ".jpeg") || EndsWith(url, ".jpg") || EndsWith(url, ".gif") || EndsWith(url, ".png"))
  {
    if i :| ImagePatternMatchesAt(url, i) {
      MatchIsSuffix(url, i);
    }
    if EndsWith(url, ".jpeg") || EndsWith(url, ".jpg") || EndsWith(url, ".gif") || EndsWith(url, ".png") {
      SuffixIsMatch(url);
    }
  }

  lemma SuffixIsMatch(url: string)
    requires EndsWith(url, ".jpeg") || EndsWith(url, ".jpg") || EndsWith(url, ".gif") || EndsWith(url, ".png")
    ensures exists i :: ImagePatternMatchesAt(url, i)
  {
    if EndsWith(url, ".jpeg") {
      SuffixMatches(url, "jpeg");
    } else if EndsWith(url, ".jpg") {
      SuffixMatches(url, "jpg");
    } else if EndsWith(url, ".gif") {
      SuffixMatches(url, "gif");
    } else {
      SuffixMatches(url, "png");
    }
  }

  lemma MatchIsSuffix(url: string, i: int)
    requires ImagePatternMatchesAt(url, i)
    ensures EndsWith(url, ".jpeg") || EndsWith(url, ".jpg") || EndsWith(url, ".gif") || EndsWith(url, ".png")
  {
    var ext := url[i + 1..];
    assert url[i..] == [url[i]] + ext;
    assert ext == "jpeg" || ext == "jpg" || ext == "gif" || ext == "png";
    if ext == "jpeg" {
      assert url[|url| - 5..] == ".jpeg";
    } else if ext == "jpg" {
      assert url[|url| - 4..] == ".jpg";
    } else if ext == "gif" {
      assert url[|url| - 4..] == ".gif";
    } else {
      assert url[|url| - 4..] == ".png";
    }
  }

  lemma SuffixMatches(url: string, ext: string)
    requires ext in ImageExtensions && EndsWith(url, "." + ext)
    ensures ImagePatternMatchesAt(url, |url| - |ext| - 1)
  {
    var i := |url| - |ext| - 1;
    assert url[i..] == "." + ext;
    assert url[i] == ("." + ext)[0];
    assert url[i + 1..] == url[i..][1..];
  }

  /** Concrete cases: a lower-case extension at the very end is an image;
      upper case, a query string or a missing dot is not. */
  lemma IsImageExamples()
    ensures IsImage("avatar.png") && IsImage("a/b.jpeg") && IsImage(".gif")
    ensures !IsImage("avatar.PNG") && !IsImage("a.png?x=1") && !IsImage("png") && !IsImage("a.svg")
  {
    assert EndsWith("avatar.png", ".png");
    assert EndsWith("a/b.jpeg", ".jpeg");
    assert EndsWith(".gif", ".gif");
  }
}
