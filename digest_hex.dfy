/**
 * The commitment `sha256(_:)` of Photox/SocialLogins.swift: the input's
 * UTF-8 bytes are hashed by CryptoKit's SHA-256 and each of the 32 digest
 * bytes is written as two lower-case hexadecimal digits (`"%02x"`), joined
 * with no separator.
 *
 * The hash function itself is a parameter: only the UTF-8 encoding of the
 * input and the hexadecimal serialisation of the digest are modelled.
 */
module DigestHex {
  import opened Common

  /** The number of bytes in a SHA-256 digest. */
  const DigestLength: nat := 32

  /** A SHA-256 digest, as CryptoKit's `SHA256.Digest` yields its bytes. */
  type Digest = d: seq<Byte> | |d| == DigestLength witness seq(32, _ => 0)

  // ------------------------------------------------------------------ hex

  /** A character that `"%02x"` may print. */
  predicate IsLowerHex(c: char) {
    '0' <= c <= '9' || 'a' <= c <= 'f'
  }

  /** The digit `"%x"` prints for a value below sixteen. */
  function HexDigit(v: int): (c: char)
    requires 0 <= v < 16
    ensures IsLowerHex(c)
  {
    if v < 10 then ('0' as int + v) as char else ('a' as int + v - 10) as char
  }

  /** The value of a hexadecimal digit. */
  function DigitValue(c: char): (v: int)
    requires IsLowerHex(c)
    ensures 0 <= v < 16
  {
    if c <= '9' then c as int - '0' as int else c as int - 'a' as int + 10
  }

  /** `String(format: "%02x", b)`: two digits, high nibble first. */
  function Hex2(b: Byte): (s: string)
    ensures |s| == 2 && IsLowerHex(s[0]) && IsLowerHex(s[1])
    ensures DigitValue(s[0]) * 16 + DigitValue(s[1]) == b
  {
    [HexDigit(b / 16), HexDigit(b % 16)]
  }

  /** `digest.compactMap { String(format: "%02x", $0) }.joined()`. */
  function Hex(digest: seq<Byte>): (s: string)
    ensures |s| == 2 * |digest|
    ensures forall i :: 0 <= i < |s| ==> IsLowerHex(s[i])
  {
    if digest == [] then [] else Hex2(digest[0]) + Hex(digest[1..])
  }

  /**
   * Reads a hexadecimal string back into bytes, two digits per byte; `None`
   * for an odd length or a character that `"%02x"` never prints.
   */
  function Unhex(s: string): Option<seq<Byte>>
    decreases |s|
  {
    if s == [] then Some([])
    else if |s| == 1 || !IsLowerHex(s[0]) || !IsLowerHex(s[1]) then None
    else match Unhex(s[2..])
      case None => None
      case Some(rest) => Some([DigitValue(s[0]) * 16 + DigitValue(s[1])] + rest)
  }

  lemma DigitRoundTrip(v: int)
    requires 0 <= v < 16
    ensures DigitValue(HexDigit(v)) == v
  {
  }

  /** Reading the hex text of a digest gives the digest back. */
  lemma {:induction false} UnhexHex(digest: seq<Byte>)
    ensures Unhex(Hex(digest)) == Some(digest)
  {
    if digest != [] {
      var b := digest[0];
      var s := Hex(digest);
      assert s == Hex2(b) + Hex(digest[1..]);
      assert s[2..] == Hex(digest[1..]);
      UnhexHex(digest[1..]);
      DigitRoundTrip(b / 16);
      DigitRoundTrip(b % 16);
      assert [b] + digest[1..] == digest;
    }
  }

  /** Two digits read as a byte print as the same two digits. */
  lemma Hex2Digits(x: char, y: char)
    requires IsLowerHex(x) && IsLowerHex(y)
    ensures Hex2(DigitValue(x) * 16 + DigitValue(y)) == [x, y]
  {
    var b := DigitValue(x) * 16 + DigitValue(y);
    assert b / 16 == DigitValue(x) && b % 16 == DigitValue(y);
  }

  /** Conversely, a string that reads as bytes is the hex text of those bytes. */
  lemma {:induction false} HexUnhex(s: string)
    requires Unhex(s).Some?
    ensures Hex(Unhex(s).value) == s
    decreases |s|
  {
    if s != [] {
      var rest := Unhex(s[2..]).value;
      HexUnhex(s[2..]);
      var b := DigitValue(s[0]) * 16 + DigitValue(s[1]);
      assert ([b] + rest)[0] == b && ([b] + rest)[1..] == rest;
      Hex2Digits(s[0], s[1]);
      assert Hex2(b) == s[..2];
      assert s == s[..2] + s[2..];
    }
  }

  /** Every even-length string of lower-case hexadecimal digits reads as bytes. */
  lemma {:induction false} UnhexTotal(s: string)
    requires |s| % 2 == 0 && forall i :: 0 <= i < |s| ==> IsLowerHex(s[i])
    ensures Unhex(s).Some?
    decreases |s|
  {
    if s != [] {
      assert IsLowerHex(s[0]) && IsLowerHex(s[1]);
      assert forall i :: 0 <= i < |s[2..]| ==> s[2..][i] == s[i + 2];
      UnhexTotal(s[2..]);
    }
  }

  /** Distinct digests are written as distinct strings. */
  lemma HexInjective(a: seq<Byte>, b: seq<Byte>)
    requires Hex(a) == Hex(b)
    ensures a == b
  {
    UnhexHex(a);
    UnhexHex(b);
  }

  // ---------------------------------------------------------------- UTF-8

  /** The UTF-8 encoding of one Unicode scalar value: one to four bytes. */
  function Utf8Scalar(c: char): (bytes: seq<Byte>)
    ensures 1 <= |bytes| <= 4
  {
    var v := c as int;
    if v < 0x80 then [v]
    else if v < 0x800 then [0xC0 + v / 0x40, 0x80 + v % 0x40]
    else if v < 0x1_0000 then [0xE0 + v / 0x1000, 0x80 + v / 0x40 % 0x40, 0x80 + v % 0x40]
    else [0xF0 + v / 0x4_0000, 0x80 + v / 0x1000 % 0x40, 0x80 + v / 0x40 % 0x40, 0x80 + v % 0x40]
  }

  /** `Data(input.utf8)`: the UTF-8 bytes of a string, scalar by scalar. */
  function Utf8(s: string): (bytes: seq<Byte>)
    ensures |s| <= |bytes| <= 4 * |s|
  {
    if s == [] then [] else Utf8Scalar(s[0]) + Utf8(s[1..])
  }

  /**
   * The lead byte of an encoded scalar tells how many bytes it has, and every
   * other byte is a continuation byte `10xxxxxx`.
   */
  lemma Utf8ScalarShape(c: char)
    ensures var bytes := Utf8Scalar(c);
      && (|bytes| == 1 <==> bytes[0] < 0x80)
      && (|bytes| == 2 <==> 0xC2 <= bytes[0] < 0xE0)
      && (|bytes| == 3 <==> 0xE0 <= bytes[0] < 0xF0)
      && (|bytes| == 4 <==> 0xF0 <= bytes[0] <= 0xF4)
      && forall i :: 1 <= i < |bytes| ==> 0x80 <= bytes[i] < 0xC0
  {
  }

  /** An ASCII string is encoded as its own code points, one byte each. */
  lemma {:induction false} Utf8Ascii(s: string)
    requires forall i :: 0 <= i < |s| ==> s[i] as int < 0x80
    ensures Utf8(s) == seq(|s|, i requires 0 <= i < |s| => s[i] as int)
  {
    if s != [] {
      Utf8Ascii(s[1..]);
    }
  }

  /** Distinct ASCII strings have distinct UTF-8 encodings. */
  lemma Utf8AsciiInjective(a: string, b: string)
    requires forall i :: 0 <= i < |a| ==> a[i] as int < 0x80
    requires forall i :: 0 <= i < |b| ==> b[i] as int < 0x80
    requires Utf8(a) == Utf8(b)
    ensures a == b
  {
    Utf8Ascii(a);
    Utf8Ascii(b);
    assert |a| == |Utf8(a)| == |b|;
    forall i | 0 <= i < |a|
      ensures a[i] == b[i]
    {
      assert Utf8(a)[i] == a[i] as int && Utf8(b)[i] == b[i] as int;
    }
  }

  // ------------------------------------------------------------ the digest

  /** `sha256(_:)`, with the SHA-256 function given as `hash`. */
  function Sha256(input: string, hash: seq<Byte> -> Digest): (hex: string)
    ensures |hex| == 2 * DigestLength
    ensures forall i :: 0 <= i < |hex| ==> IsLowerHex(hex[i])
  {
    Hex(hash(Utf8(input)))
  }

  /** The commitment reveals the digest of the input's UTF-8 bytes and nothing else. */
  lemma Sha256ReadsAsDigest(input: string, hash: seq<Byte> -> Digest)
    ensures Unhex(Sha256(input, hash)) == Some(hash(Utf8(input)))
  {
    UnhexHex(hash(Utf8(input)));
  }

  /**
   * Two distinct ASCII inputs give the same commitment only when the hash
   * collides on their (distinct) encodings.
   */
  lemma CommitmentNeedsCollision(a: string, b: string, hash: seq<Byte> -> Digest)
    requires forall i :: 0 <= i < |a| ==> a[i] as int < 0x80
    requires forall i :: 0 <= i < |b| ==> b[i] as int < 0x80
    requires a != b && Sha256(a, hash) == Sha256(b, hash)
    ensures Utf8(a) != Utf8(b) && hash(Utf8(a)) == hash(Utf8(b))
  {
    HexInjective(hash(Utf8(a)), hash(Utf8(b)));
    if Utf8(a) == Utf8(b) {
      Utf8AsciiInjective(a, b);
    }
  }
}
