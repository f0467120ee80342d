/**
  The digest step of the Apple sign-in flow (`sha256`): the input string's
  UTF-8 bytes are hashed with SHA-256 and the 32-byte digest is written as
  lowercase hexadecimal, two digits per byte (`%02x`), joined in order.

  SHA-256 itself is not modelled: it is the parameter `sha256`, any function
  from bytes to 32-byte digests.
*/
module Digest {
  import opened Wrappers
  import opened Bytes
  import Utf8

  /** A SHA-256 digest: 32 bytes. */
  type Sha256Digest = d: seq<UInt8> | |d| == 32 witness seq(32, _ => 0 as UInt8)

  /** The hash function the model is parameterised by. */
  type Sha256Function = seq<UInt8> -> Sha256Digest

  /** The sixteen lowercase hexadecimal digits, in value order. */
  const HexDigits: string := "0123456789" + "abcdef"

  /** `%02x` of one byte: the digit of its high nibble, then the digit of its low nibble. */
  function FormatByte(b: UInt8): (s: string)
    ensures |s| == 2 && 0 <= HexDigitValue(s[0]) && 0 <= HexDigitValue(s[1])
    ensures HexDigitValue(s[0]) * 16 + HexDigitValue(s[1]) == b as int
  {
    HexDigitsIndexed();
    [HexDigits[b as int / 16], HexDigits[b as int % 16]]
  }

  /** Every byte formatted, joined in order. */
  function HexEncode(bytes: seq<UInt8>): (hex: string)
    ensures |hex| == 2 * |bytes|
  {
    if bytes == [] then "" else FormatByte(bytes[0]) + HexEncode(bytes[1..])
  }

  /** Value of a lowercase hexadecimal digit; -1 for any other character. */
  function HexDigitValue(c: char): (v: int)
    ensures -1 <= v < 16
  {
    if '0' <= c <= '9' then c as int - '0' as int
    else if 'a' <= c <= 'f' then c as int - 'a' as int + 10
    else -1
  }

  /** Reads pairs of lowercase hex digits back into bytes; `None` for an odd length or a non-digit. */
  function HexDecode(s: string): Option<seq<UInt8>>
  {
    if s == [] then Some([])
    else if |s| < 2 || HexDigitValue(s[0]) < 0 || HexDigitValue(s[1]) < 0 then None
    else
      match HexDecode(s[2..])
      case None => None
      case Some(rest) => Some([(HexDigitValue(s[0]) * 16 + HexDigitValue(s[1])) as UInt8] + rest)
  }

  /** `HexDigitValue` undoes indexing into `HexDigits`. */
  lemma HexDigitsIndexed()
    ensures |HexDigits| == 16
    ensures forall k :: 0 <= k < 16 ==> HexDigitValue(HexDigits[k]) == k
  {
    assert forall k :: 0 <= k < 10 ==> HexDigitValue(HexDigits[k]) == k;
    assert forall k :: 10 <= k < 16 ==> HexDigitValue(HexDigits[k]) == k;
  }

  /** Byte `i` is written at positions `2i` (high nibble) and `2i + 1` (low nibble). */
  lemma {:induction false} HexEncodeAt(bytes: seq<UInt8>, i: int)
    requires 0 <= i < |bytes|
    ensures HexEncode(bytes)[2 * i] == HexDigits[bytes[i] as int / 16]
    ensures HexEncode(bytes)[2 * i + 1] == HexDigits[bytes[i] as int % 16]
  {
    if i > 0 {
      HexEncodeAt(bytes[1..], i - 1);
    }
  }

  /** Only lowercase hexadecimal digits appear. */
  lemma HexEncodeAlphabet(bytes: seq<UInt8>)
    ensures forall k :: 0 <= k < |HexEncode(bytes)| ==> HexEncode(bytes)[k] in HexDigits
  {
  }

  /** Reading the digits back gives the bytes. */
  lemma {:induction false} HexDecodeEncode(bytes: seq<UInt8>)
    ensures HexDecode(HexEncode(bytes)) == Some(bytes)
  {
    if bytes != [] {
      HexDigitsIndexed();
      var s := HexEncode(bytes);
      assert s[2..] == HexEncode(bytes[1..]);
      HexDecodeEncode(bytes[1..]);
      assert bytes == [bytes[0]] + bytes[1..];
    }
  }

  /** Different byte strings never format to the same text. */
  lemma HexEncodeInjective(a: seq<UInt8>, b: seq<UInt8>)
    requires HexEncode(a) == HexEncode(b)
    ensures a == b
  {
    HexDecodeEncode(a);
    HexDecodeEncode(b);
  }

  /** `sha256(input)`: the hex text of the digest of the input's UTF-8 bytes. */
  function Sha256Hex(input: string, sha256: Sha256Function): (hex: string)
    ensures |hex| == 64
    ensures forall k :: 0 <= k < |hex| ==> hex[k] in HexDigits
  {
    var digest := sha256(Utf8.Encode(input));
    HexEncodeAlphabet(digest);
    HexEncode(digest)
  }

  /** The hex text determines the digest: two inputs with the same text have the same digest. */
  lemma Sha256HexDeterminesDigest(a: string, b: string, sha256: Sha256Function)
    requires Sha256Hex(a, sha256) == Sha256Hex(b, sha256)
    ensures sha256(Utf8.Encode(a)) == sha256(Utf8.Encode(b))
  {
    HexEncodeInjective(sha256(Utf8.Encode(a)), sha256(Utf8.Encode(b)));
  }
}
