/**
  UTF-8, as Swift's `String.utf8` view produces it and as
  `String(data:encoding: .utf8)` reads it back. A Dafny `char` is a Unicode
  scalar value (never a surrogate), which is exactly what UTF-8 encodes.
*/
module Utf8 {
  import opened Wrappers
  import opened Bytes

  /** A continuation byte carrying the six bits `bits`. */
  function Continuation(bits: int): UInt8
    requires 0 <= bits < 64
  {
    (0x80 + bits) as UInt8
  }

  /** The one to four bytes of one scalar value. */
  function EncodeScalar(c: char): (bytes: seq<UInt8>)
    ensures 1 <= |bytes| <= 4
  {
    var n := c as int;
    if n < 0x80 then [n as UInt8]
    else if n < 0x800 then [(0xC0 + n / 64) as UInt8, Continuation(n % 64)]
    else if n < 0x1_0000 then [(0xE0 + n / 64 / 64) as UInt8, Continuation(n / 64 % 64), Continuation(n % 64)]
    else [(0xF0 + n / 64 / 64 / 64) as UInt8, Continuation(n / 64 / 64 % 64), Continuation(n / 64 % 64), Continuation(n % 64)]
  }

  /** The bytes of a whole string: each scalar's bytes, in order. */
  function Encode(s: string): (bytes: seq<UInt8>)
    ensures |s| <= |bytes| <= 4 * |s|
    ensures s == [] <==> bytes == []
  {
    if s == [] then [] else EncodeScalar(s[0]) + Encode(s[1..])
  }

  /** Whether `b` is a continuation byte (10xxxxxx). */
  predicate IsContinuation(b: UInt8)
  {
    0x80 <= b as int < 0xC0
  }

  /** Two-byte form 110xxxxx 10xxxxxx, for U+0080 to U+07FF. */
  function DecodeTwo(bytes: seq<UInt8>): Option<(char, nat)>
    requires |bytes| >= 1 && 0xC0 <= bytes[0] as int < 0xE0
  {
    if |bytes| < 2 || !IsContinuation(bytes[1]) then None
    else
      var n := (bytes[0] as int - 0xC0) * 64 + (bytes[1] as int - 0x80);
      if n < 0x80 then None else Some((n as char, 2))
  }

  /** Three-byte form 1110xxxx 10xxxxxx 10xxxxxx, for U+0800 to U+FFFF without the surrogates. */
  function DecodeThree(bytes: seq<UInt8>): Option<(char, nat)>
    requires |bytes| >= 1 && 0xE0 <= bytes[0] as int < 0xF0
  {
    if |bytes| < 3 || !IsContinuation(bytes[1]) || !IsContinuation(bytes[2]) then None
    else
      var n := ((bytes[0] as int - 0xE0) * 64 + (bytes[1] as int - 0x80)) * 64 + (bytes[2] as int - 0x80);
      if n < 0x800 || 0xD800 <= n < 0xE000 then None else Some((n as char, 3))
  }

  /** Four-byte form 11110xxx 10xxxxxx 10xxxxxx 10xxxxxx, for U+10000 to U+10FFFF. */
  function DecodeFour(bytes: seq<UInt8>): Option<(char, nat)>
    requires |bytes| >= 1 && 0xF0 <= bytes[0] as int < 0xF8
  {
    if |bytes| < 4 || !IsContinuation(bytes[1]) || !IsContinuation(bytes[2]) || !IsContinuation(bytes[3]) then None
    else
      var n := (((bytes[0] as int - 0xF0) * 64 + (bytes[1] as int - 0x80)) * 64 + (bytes[2] as int - 0x80)) * 64 + (bytes[3] as int - 0x80);
      if n < 0x1_0000 || n > 0x10_FFFF then None else Some((n as char, 4))
  }

  /**
    The scalar value at the front of `bytes` and how many bytes it takes, or
    `None` when the front is not a well-formed UTF-8 sequence: a stray
    continuation byte, a missing continuation, an overlong form, a surrogate,
    or a value above U+10FFFF.
  */
  function DecodeScalar(bytes: seq<UInt8>): Option<(char, nat)>
  {
    if bytes == [] then None
    else if bytes[0] as int < 0x80 then Some((bytes[0] as int as char, 1))
    else if 0xC0 <= bytes[0] as int < 0xE0 then DecodeTwo(bytes)
    else if 0xE0 <= bytes[0] as int < 0xF0 then DecodeThree(bytes)
    else if 0xF0 <= bytes[0] as int < 0xF8 then DecodeFour(bytes)
    else None
  }

  /**
    The string `bytes` spells, or `None` when they are not well-formed UTF-8.
    Whatever decodes is the encoding of what it decodes to, so `Decode`
    accepts exactly the encodings.
  */
  function Decode(bytes: seq<UInt8>): (s: Option<string>)
    ensures s.Some? ==> Encode(s.value) == bytes
    decreases |bytes|
  {
    if bytes == [] then Some("")
    else
      match DecodeScalar(bytes)
      case None => None
      case Some((c, k)) =>
        if k == 0 || k > |bytes| then None
        else
          match Decode(bytes[k..])
          case None => None
          case Some(rest) =>
            EncodeDecodeScalar(bytes);
            assert ([c] + rest)[0] == c && ([c] + rest)[1..] == rest;
            assert bytes == bytes[..k] + bytes[k..];
            Some([c] + rest)
  }

  /** Decoding a well-formed two-byte sequence carrying the bits `hi` and `lo`. */
  lemma DecodeTwoBytes(hi: int, lo: int, rest: seq<UInt8>)
    requires 0 <= hi < 32 && 0 <= lo < 64 && hi * 64 + lo >= 0x80
    ensures DecodeScalar([(0xC0 + hi) as UInt8, Continuation(lo)] + rest) == Some(((hi * 64 + lo) as char, 2))
  {}

  /** Decoding a well-formed three-byte sequence carrying the bits `hi`, `mid` and `lo`. */
  lemma DecodeThreeBytes(hi: int, mid: int, lo: int, rest: seq<UInt8>)
    requires 0 <= hi < 16 && 0 <= mid < 64 && 0 <= lo < 64
    requires 0x800 <= (hi * 64 + mid) * 64 + lo && !(0xD800 <= (hi * 64 + mid) * 64 + lo < 0xE000)
    ensures DecodeScalar([(0xE0 + hi) as UInt8, Continuation(mid), Continuation(lo)] + rest) == Some((((hi * 64 + mid) * 64 + lo) as char, 3))
  {}

  /** Decoding a well-formed four-byte sequence carrying the bits `top`, `hi`, `mid` and `lo`. */
  lemma DecodeFourBytes(top: int, hi: int, mid: int, lo: int, rest: seq<UInt8>)
    requires 0 <= top < 8 && 0 <= hi < 64 && 0 <= mid < 64 && 0 <= lo < 64
    requires 0x1_0000 <= ((top * 64 + hi) * 64 + mid) * 64 + lo <= 0x10_FFFF
    ensures DecodeScalar([(0xF0 + top) as UInt8, Continuation(hi), Continuation(mid), Continuation(lo)] + rest)
         == Some(((((top * 64 + hi) * 64 + mid) * 64 + lo) as char, 4))
  {}

  /** Decoding the bytes of one scalar, followed by anything, gives that scalar back with its length. */
  lemma DecodeScalarEncode(c: char, rest: seq<UInt8>)
    ensures DecodeScalar(EncodeScalar(c) + rest) == Some((c, |EncodeScalar(c)|))
  {
    var n := c as int;
    if 0x80 <= n < 0x800 {
      DecodeTwoBytes(n / 64, n % 64, rest);
    } else if 0x800 <= n < 0x1_0000 {
      DecodeThreeBytes(n / 64 / 64, n / 64 % 64, n % 64, rest);
    } else if 0x1_0000 <= n {
      DecodeFourBytes(n / 64 / 64 / 64, n / 64 / 64 % 64, n / 64 % 64, n % 64, rest);
    }
  }

  /** Decoding what `Encode` produced gives the string back. */
  lemma {:induction false} DecodeEncode(s: string)
    ensures Decode(Encode(s)) == Some(s)
  {
    if s != [] {
      var head := EncodeScalar(s[0]);
      DecodeScalarEncode(s[0], Encode(s[1..]));
      assert (head + Encode(s[1..]))[|head|..] == Encode(s[1..]);
      DecodeEncode(s[1..]);
      assert [s[0]] + s[1..] == s;
    }
  }

  /** A scalar that decodes from the front of `bytes` is encoded as exactly the bytes it was read from. */
  lemma EncodeDecodeScalar(bytes: seq<UInt8>)
    requires DecodeScalar(bytes).Some?
    ensures DecodeScalar(bytes).value.1 == |EncodeScalar(DecodeScalar(bytes).value.0)| <= |bytes|
    ensures EncodeScalar(DecodeScalar(bytes).value.0) == bytes[..DecodeScalar(bytes).value.1]
  {
    var b0 := bytes[0] as int;
    if 0xC0 <= b0 < 0xE0 {
      var n := (b0 - 0xC0) * 64 + (bytes[1] as int - 0x80);
      assert n / 64 == b0 - 0xC0 && n % 64 == bytes[1] as int - 0x80;
    } else if 0xE0 <= b0 < 0xF0 {
      var q := (b0 - 0xE0) * 64 + (bytes[1] as int - 0x80);
      var n := q * 64 + (bytes[2] as int - 0x80);
      assert n / 64 == q && n % 64 == bytes[2] as int - 0x80;
      assert q / 64 == b0 - 0xE0 && q % 64 == bytes[1] as int - 0x80;
    } else if 0xF0 <= b0 {
      var q := (b0 - 0xF0) * 64 + (bytes[1] as int - 0x80);
      var r := q * 64 + (bytes[2] as int - 0x80);
      var n := r * 64 + (bytes[3] as int - 0x80);
      assert n / 64 == r && n % 64 == bytes[3] as int - 0x80;
      assert r / 64 == q && r % 64 == bytes[2] as int - 0x80;
      assert q / 64 == b0 - 0xF0 && q % 64 == bytes[1] as int - 0x80;
    }
  }

  /** Characters below U+0080 are encoded as one byte each, of the same value. */
  lemma {:induction false} EncodeAscii(s: string)
    requires forall i :: 0 <= i < |s| ==> s[i] as int < 0x80
    ensures |Encode(s)| == |s|
    ensures forall i :: 0 <= i < |s| ==> Encode(s)[i] as int == s[i] as int
  {
    if s != [] {
      EncodeAscii(s[1..]);
      assert Encode(s) == [s[0] as int as UInt8] + Encode(s[1..]);
    }
  }
}
