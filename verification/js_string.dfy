/** The few JavaScript string primitives the resolvers rely on, stated over
    Dafny strings (sequences of Unicode scalar values). A JavaScript string is
    a sequence of UTF-16 code units, so `length` counts a character outside the
    Basic Multilingual Plane twice. */
module JsString {

  /** Number of UTF-16 code units that encode `c`. */
  function CodeUnits(c: char): nat {
    if c as int > 0xFFFF then 2 else 1
  }

  /** JavaScript's `s.length`. */
  function Utf16Length(s: string): (n: nat)
    ensures |s| <= n <= 2 * |s|
    ensures (forall i :: 0 <= i < |s| ==> s[i] as int <= 0xFFFF) ==> n == |s|
    ensures n == 0 <==> s == ""
  {
    if |s| == 0 then 0 else CodeUnits(s[0]) + Utf16Length(s[1..])
  }

  /** The characters `String.prototype.trim` removes: the ECMAScript
      WhiteSpace set (TAB, VT, FF, ZWNBSP and every Zs space) and the
      LineTerminator set (LF, CR, LS, PS). */
  predicate IsWhiteSpace(c: char) {
    var n := c as int;
    || n == 0x09 || n == 0x0A || n == 0x0B || n == 0x0C || n == 0x0D
    || n == 0x20 || n == 0xA0 || n == 0x1680
    || (0x2000 <= n <= 0x200A)
    || n == 0x2028 || n == 0x2029 || n == 0x202F || n == 0x205F
    || n == 0x3000 || n == 0xFEFF
  }

  /** Every character of `s` in the index range [lo, hi) is white space. */
  ghost predicate SpaceBetween(s: string, lo: int, hi: int)
    requires 0 <= lo && hi <= |s|
  {
    forall k :: lo <= k < hi ==> IsWhiteSpace(s[k])
  }

  /** Number of white-space characters at the front of `s`. */
  function LeadingSpace(s: string): (k: nat)
    ensures k <= |s|
    ensures SpaceBetween(s, 0, k)
    ensures k < |s| ==> !IsWhiteSpace(s[k])
  {
    if |s| == 0 || !IsWhiteSpace(s[0]) then 0
    else 1 + LeadingSpace(s[1..])
  }

  /** Index at which the white-space run at the end of `s` starts. */
  function TrailingStart(s: string): (k: nat)
    ensures k <= |s|
    ensures SpaceBetween(s, k, |s|)
    ensures k > 0 ==> !IsWhiteSpace(s[k - 1])
  {
    if |s| == 0 || !IsWhiteSpace(s[|s| - 1]) then |s|
    else TrailingStart(s[..|s| - 1])
  }

  /** `r` is what is left of `s` once white space is removed from both ends:
      a factor of `s`, everything cut off is white space, and `r` neither
      starts nor ends with white space. */
  ghost predicate IsTrimOf(r: string, s: string) {
    && (exists i :: 0 <= i <= |s| - |r| && s[i..i + |r|] == r
                 && SpaceBetween(s, 0, i) && SpaceBetween(s, i + |r|, |s|))
    && (r == "" || (!IsWhiteSpace(r[0]) && !IsWhiteSpace(r[|r| - 1])))
  }

  /** JavaScript's `s.trim()`. */
  function Trim(s: string): (r: string)
    ensures IsTrimOf(r, s)
  {
    var i := LeadingSpace(s);
    var t := s[i..];
    var j := TrailingStart(t);
    assert s[i..i + j] == t[..j];
    t[..j]
  }

  /** Trimming twice is trimming once. */
  lemma TrimIdempotent(s: string)
    ensures Trim(Trim(s)) == Trim(s)
  {
    var r := Trim(s);
    assert LeadingSpace(r) == 0;
    assert TrailingStart(r) == |r|;
  }

  /** The white-space prefix of `s` ends exactly where the first
      non-white-space character sits. */
  lemma LeadingSpaceAt(s: string, i: nat)
    requires i <= |s| && SpaceBetween(s, 0, i)
    requires i < |s| ==> !IsWhiteSpace(s[i])
    ensures LeadingSpace(s) == i
  {
  }

  /** The white-space suffix of `s` starts just after the last
      non-white-space character. */
  lemma TrailingStartAt(s: string, j: nat)
    requires j <= |s| && SpaceBetween(s, j, |s|)
    requires j > 0 ==> !IsWhiteSpace(s[j - 1])
    ensures TrailingStart(s) == j
  {
  }

  /** `IsTrimOf` pins its first argument down: `Trim` is the only string
      that is a trim of `s`. */
  lemma TrimUnique(r: string, s: string)
    requires IsTrimOf(r, s)
    ensures r == Trim(s)
  {
    var i :| 0 <= i <= |s| - |r| && s[i..i + |r|] == r
             && SpaceBetween(s, 0, i) && SpaceBetween(s, i + |r|, |s|);
    if r == "" {
      assert SpaceBetween(s, 0, |s|);
      LeadingSpaceAt(s, |s|);
    } else {
      assert s[i] == r[0];
      LeadingSpaceAt(s, i);
      var t := s[i..];
      assert t[|r| - 1] == r[|r| - 1];
      assert SpaceBetween(t, |r|, |t|) by {
        forall k | |r| <= k < |t| ensures IsWhiteSpace(t[k]) {
          assert t[k] == s[i + k];
        }
      }
      TrailingStartAt(t, |r|);
    }
  }

  /** JavaScript's `s.endsWith(suffix)`. */
  predicate EndsWith(s: string, suffix: string) {
    |suffix| <= |s| && s[|s| - |suffix|..] == suffix
  }
}
