/**
  Java strings as the multipart entity sees them.

  A Java `String` is a sequence of UTF-16 code units; here it is a Dafny `string`
  (a sequence of Unicode scalar values).  Two measures of a string matter to the
  entity: `String.length()`, which counts UTF-16 code units and is what the
  running total adds, and `String.getBytes()`, which encodes with the platform
  charset (UTF-8 on Android) and is what the body actually carries.
 */
module JavaText {

  /** An octet of the body. */
  type byte = b: int | 0 <= b < 0x100

  predicate IsAsciiChar(c: char) {
    c as int < 0x80
  }

  /** Every character of `s` is encoded as a single byte. */
  predicate IsAscii(s: string) {
    forall c | c in s :: IsAsciiChar(c)
  }

  /** Number of UTF-16 code units `c` occupies: two for a supplementary character. */
  function Utf16Units(c: char): nat {
    if c as int < 0x1_0000 then 1 else 2
  }

  /** `String.length()`: the number of UTF-16 code units. */
  function JavaLength(s: string): nat {
    if |s| == 0 then 0 else Utf16Units(s[0]) + JavaLength(s[1..])
  }

  /** The UTF-8 encoding of one scalar value. */
  function EncodeChar(c: char): (bs: seq<byte>)
    ensures 1 <= |bs| <= 4
    ensures |bs| == 1 <==> IsAsciiChar(c)
    ensures |bs| >= Utf16Units(c)
  {
    var v := c as int;
    if v < 0x80 then [v]
    else if v < 0x800 then [0xC0 + v / 0x40, 0x80 + v % 0x40]
    else if v < 0x1_0000 then [0xE0 + v / 0x1000, 0x80 + (v / 0x40) % 0x40, 0x80 + v % 0x40]
    else [0xF0 + v / 0x4_0000, 0x80 + (v / 0x1000) % 0x40, 0x80 + (v / 0x40) % 0x40, 0x80 + v % 0x40]
  }

  /** `String.getBytes()` with the UTF-8 default charset. */
  function Encode(s: string): seq<byte> {
    if |s| == 0 then [] else EncodeChar(s[0]) + Encode(s[1..])
  }

  /** Reads each byte back as the character with that code (ISO-8859-1 decoding). */
  function DecodeLatin1(bs: seq<byte>): (s: string)
    ensures |s| == |bs|
  {
    if |bs| == 0 then [] else [bs[0] as char] + DecodeLatin1(bs[1..])
  }

  /** Regrouping of byte strings, stated once so that proofs need not rediscover it. */
  lemma AppendAssoc(a: seq<byte>, b: seq<byte>, c: seq<byte>)
    ensures a + (b + c) == (a + b) + c
  {
  }

  lemma AsciiByIndex(s: string)
    requires forall i :: 0 <= i < |s| ==> IsAsciiChar(s[i])
    ensures IsAscii(s)
  {
    forall c | c in s
      ensures IsAsciiChar(c)
    {
      var i :| 0 <= i < |s| && s[i] == c;
    }
  }

  lemma IsAsciiAppend(a: string, b: string)
    ensures IsAscii(a + b) <==> IsAscii(a) && IsAscii(b)
  {
    assert forall c :: c in a + b <==> c in a || c in b;
  }

  /**
    The byte count of a string never falls below its `String.length()`, and the
    two agree exactly when the string is pure ASCII.
   */
  lemma {:induction false} EncodedLengthVersusJavaLength(s: string)
    ensures JavaLength(s) <= |Encode(s)|
    ensures JavaLength(s) == |Encode(s)| <==> IsAscii(s)
  {
    if |s| != 0 {
      EncodedLengthVersusJavaLength(s[1..]);
      assert s == [s[0]] + s[1..];
      IsAsciiAppend([s[0]], s[1..]);
    }
  }

  /** An ASCII string encodes to one byte per character, and decoding gives it back. */
  lemma {:induction false} AsciiRoundTrip(s: string)
    requires IsAscii(s)
    ensures |Encode(s)| == |s| == JavaLength(s)
    ensures DecodeLatin1(Encode(s)) == s
  {
    if |s| != 0 {
      assert s == [s[0]] + s[1..];
      IsAsciiAppend([s[0]], s[1..]);
      AsciiRoundTrip(s[1..]);
      assert Encode(s)[1..] == Encode(s[1..]);
    }
  }
}
