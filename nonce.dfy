/**
  The nonce generator of the Apple sign-in flow (`randomNonceString`).

  The secure random source is an input: `random` is the stream of bytes that
  successive one-byte draws would return, in order. Bytes are drawn in
  batches of sixteen; a byte below 64 is kept and stands for the character
  at that position of the charset, any other byte is rejected.
*/
module Nonce {
  import opened Wrappers
  import opened Bytes

  /** Length used when the caller gives none. */
  const DefaultLength: int := 32

  /** Number of bytes drawn from the random source per round. */
  const BatchSize: nat := 16

  /**
    The 64 characters a nonce is drawn from, in the source's order: digits,
    the capital letters without 'W', the small letters, then '-', '.', '_'.
    Written as one piece per character class; the concatenation is the
    source's single literal.
  */
  const Digits: string := "0123456789"
  const CapitalsToV: string := "ABCDEFGHIJKLMNOPQRSTUV"
  const CapitalsFromX: string := "XYZ"
  const Smalls: string := "abcdefghijklmnopqrstuvwxyz"
  const Marks: string := "-._"
  const Charset: string := Digits + CapitalsToV + CapitalsFromX + Smalls + Marks

  /** Position of `c` in the charset, computed from its character class; -1 when absent. */
  function CharsetIndex(c: char): (i: int)
    ensures -1 <= i < 64
  {
    if '0' <= c <= '9' then c as int - '0' as int
    else if 'A' <= c <= 'V' then c as int - 'A' as int + 10
    else if 'X' <= c <= 'Z' then c as int - 'X' as int + 32
    else if 'a' <= c <= 'z' then c as int - 'a' as int + 35
    else if c == '-' then 61
    else if c == '.' then 62
    else if c == '_' then 63
    else -1
  }

  lemma DigitsIndexed()
    ensures forall k :: 0 <= k < 10 ==> CharsetIndex(Charset[k]) == k
  {}

  lemma CapitalsIndexed()
    ensures forall k :: 10 <= k < 35 ==> CharsetIndex(Charset[k]) == k
  {}

  lemma SmallsIndexed()
    ensures forall k :: 35 <= k < 61 ==> CharsetIndex(Charset[k]) == k
  {}

  lemma MarksIndexed()
    ensures forall k :: 61 <= k < 64 ==> CharsetIndex(Charset[k]) == k
  {}

  /**
    The charset has 64 characters and `CharsetIndex` undoes indexing into it,
    so its characters are pairwise distinct.
  */
  lemma CharsetIndexInverse()
    ensures |Charset| == 64
    ensures forall k :: 0 <= k < |Charset| ==> CharsetIndex(Charset[k]) == k
  {
    DigitsIndexed();
    CapitalsIndexed();
    SmallsIndexed();
    MarksIndexed();
  }

  /** `CharsetIndexInverse` at one position. */
  lemma CharsetIndexAt(k: int)
    requires 0 <= k < 64
    ensures |Charset| == 64 && CharsetIndex(Charset[k]) == k
  {
    CharsetIndexInverse();
  }

  /** 64 distinct characters, and 'W' is not one of them. */
  lemma CharsetDistinct()
    ensures |Charset| == 64
    ensures forall i, j :: 0 <= i < j < |Charset| ==> Charset[i] != Charset[j]
    ensures 'W' !in Charset
  {
    CharsetIndexInverse();
    assert CharsetIndex('W') == -1;
  }

  /** Every charset character is below U+0080, so its UTF-8 form is the single byte of its code. */
  lemma CharsetAscii()
    ensures forall c :: c in Charset ==> c as int < 0x80
  {
  }

  /** The character a random byte yields: one character when the byte is accepted, none when it is rejected. */
  function Image(b: UInt8): (c: seq<char>)
    ensures |c| == (if (b as int) < |Charset| then 1 else 0)
    ensures c != [] ==> CharsetIndex(c[0]) == b as int
  {
    if (b as int) < |Charset| then
      CharsetIndexAt(b as int);
      [Charset[b as int]]
    else []
  }

  /**
    Everything a byte stream yields when nothing stops the generator early:
    the image of every accepted byte, in stream order.
  */
  function Accepted(random: seq<UInt8>): seq<char>
  {
    if random == [] then [] else Accepted(random[..|random| - 1]) + Image(random[|random| - 1])
  }

  /** The accepted bytes themselves, in stream order. */
  function Kept(random: seq<UInt8>): seq<UInt8>
  {
    if random == [] then []
    else Kept(random[..|random| - 1]) + (if (random[|random| - 1] as int) < |Charset| then [random[|random| - 1]] else [])
  }

  /** Characters back to the bytes that produced them; characters outside the charset are skipped. */
  function Decode(s: string): seq<UInt8>
  {
    if s == [] then []
    else Decode(s[..|s| - 1]) + (if CharsetIndex(s[|s| - 1]) >= 0 then [CharsetIndex(s[|s| - 1]) as UInt8] else [])
  }

  /** What a stream yields is the concatenation of what its two parts yield. */
  lemma {:induction false} AcceptedAppend(a: seq<UInt8>, b: seq<UInt8>)
    ensures Accepted(a + b) == Accepted(a) + Accepted(b)
    decreases |b|
  {
    if b == [] {
      assert a + b == a;
    } else {
      var b' := b[..|b| - 1];
      assert (a + b)[..|a + b| - 1] == a + b';
      AcceptedAppend(a, b');
    }
  }

  /** One more byte adds its image. */
  lemma AcceptedSnoc(random: seq<UInt8>, b: UInt8)
    ensures Accepted(random + [b]) == Accepted(random) + Image(b)
  {
    assert (random + [b])[..|random|] == random;
  }

  /** A prefix of the stream yields a prefix of what the whole stream yields. */
  lemma AcceptedPrefix(random: seq<UInt8>, n: nat)
    requires n <= |random|
    ensures Accepted(random[..n]) <= Accepted(random)
  {
    assert random == random[..n] + random[n..];
    AcceptedAppend(random[..n], random[n..]);
  }

  /**
    Each output character is the charset image of the matching accepted byte,
    so output characters all come from the charset.
  */
  lemma {:induction false} AcceptedIsImageOfKept(random: seq<UInt8>)
    ensures |Accepted(random)| == |Kept(random)|
    ensures forall i :: 0 <= i < |Kept(random)| ==> Kept(random)[i] < 64 && Accepted(random)[i] == Charset[Kept(random)[i] as int]
  {
    CharsetIndexInverse();
    if random != [] {
      AcceptedIsImageOfKept(random[..|random| - 1]);
    }
  }

  /** Every character the generator can emit is a charset character. */
  lemma AcceptedInCharset(random: seq<UInt8>)
    ensures forall c :: c in Accepted(random) ==> c in Charset
  {
  }

  /** One more character adds its byte, if it has one. */
  lemma DecodeSnoc(s: string, c: char)
    ensures Decode(s + [c]) == Decode(s) + (if CharsetIndex(c) >= 0 then [CharsetIndex(c) as UInt8] else [])
  {
    assert (s + [c])[..|s|] == s;
  }

  /** Decoding what a stream yields gives back the accepted bytes. */
  lemma {:induction false} DecodeAccepted(random: seq<UInt8>)
    ensures Decode(Accepted(random)) == Kept(random)
  {
    if random != [] {
      var init, last := random[..|random| - 1], random[|random| - 1];
      DecodeAccepted(init);
      if (last as int) < |Charset| {
        CharsetIndexAt(last as int);
        var c := Charset[last as int];
        assert Accepted(random) == Accepted(init) + [c];
        DecodeSnoc(Accepted(init), c);
        assert CharsetIndex(c) as UInt8 == last;
      } else {
        assert Accepted(random) == Accepted(init) + [] == Accepted(init);
        assert Kept(random) == Kept(init) + [] == Kept(init);
      }
    }
  }

  /** Two streams that yield the same characters kept the same bytes: the byte-to-character map is injective. */
  lemma AcceptedInjective(r1: seq<UInt8>, r2: seq<UInt8>)
    requires Accepted(r1) == Accepted(r2)
    ensures Kept(r1) == Kept(r2)
  {
    DecodeAccepted(r1);
    DecodeAccepted(r2);
  }

  /** The number of bytes in the whole batches that fit in a stream of length `n`. */
  function WholeBatches(n: nat): (w: nat)
    ensures w <= n < w + BatchSize
  {
    n / BatchSize * BatchSize
  }

  /** A whole number of batches that fits in the stream lies within its whole batches, and is all of them when less than a batch is left. */
  lemma BatchBoundary(n: nat, k: nat)
    requires k * BatchSize <= n
    ensures k * BatchSize <= WholeBatches(n)
    ensures n - k * BatchSize < BatchSize ==> k * BatchSize == WholeBatches(n)
  {
  }

  /** Once whole batches have produced `result`, it is a prefix of what the stream yields, up to its last whole batch and in all. */
  lemma FinishedNonce(random: seq<UInt8>, k: nat, result: string)
    requires k * BatchSize <= |random|
    requires result <= Accepted(random[..k * BatchSize])
    ensures result <= Accepted(random[..WholeBatches(|random|)])
    ensures result <= Accepted(random)
  {
    var drawn, whole := k * BatchSize, WholeBatches(|random|);
    BatchBoundary(|random|, k);
    assert random[..whole][..drawn] == random[..drawn];
    AcceptedPrefix(random[..whole], drawn);
    AcceptedPrefix(random, whole);
  }

  /**
    One batch: examines its bytes in order and appends the image of each
    accepted byte while characters are still missing; the bytes after the
    last missing character is found are ignored.
  */
  method TakeFromBatch(randoms: seq<UInt8>, result: string, remainingLength: nat) returns (extended: string, remaining: nat)
    ensures remaining <= remainingLength && |extended| + remaining == |result| + remainingLength
    ensures result <= extended <= result + Accepted(randoms)
    ensures remaining > 0 ==> extended == result + Accepted(randoms)
  {
    extended, remaining := result, remainingLength;
    var i := 0;
    while i < |randoms|
      invariant 0 <= i <= |randoms|
      invariant remaining <= remainingLength && |extended| + remaining == |result| + remainingLength
      invariant result <= extended <= result + Accepted(randoms[..i])
      invariant remaining > 0 ==> extended == result + Accepted(randoms[..i])
    {
      var random := randoms[i];
      AcceptedSnoc(randoms[..i], random);
      assert randoms[..i + 1] == randoms[..i] + [random];
      if remaining != 0 {
        if (random as int) < |Charset| {
          extended := extended + [Charset[random as int]];
          remaining := remaining - 1;
        }
      }
      i := i + 1;
    }
    assert randoms[..i] == randoms;
  }

  /**
    Draws batches of `BatchSize` bytes from `random` until `length`
    characters have been produced. Yields `None` only when the stream holds
    no further full batch while characters are still missing (the app's
    source never runs dry).
  */
  method RandomNonceString(length: int, random: seq<UInt8>) returns (nonce: Option<string>)
    ensures length <= 0 ==> nonce == Some("")
    ensures length > 0 ==> (nonce.Some? <==> length <= |Accepted(random[..WholeBatches(|random|)])|)
    ensures nonce.Some? ==> |nonce.value| == (if length <= 0 then 0 else length) && nonce.value <= Accepted(random)
    ensures nonce.Some? ==> forall i :: 0 <= i < |nonce.value| ==> nonce.value[i] in Charset
  {
    var result: string := "";
    var remainingLength := length;
    var drawn := 0;
    ghost var batches := 0;
    while remainingLength > 0
      invariant 0 <= drawn <= |random| && drawn == batches * BatchSize
      invariant length <= 0 ==> remainingLength == length && result == "" && drawn == 0
      invariant length > 0 ==> 0 <= remainingLength && |result| + remainingLength == length
      invariant result <= Accepted(random[..drawn])
      invariant remainingLength > 0 ==> result == Accepted(random[..drawn])
      decreases |random| - drawn
    {
      if |random| - drawn < BatchSize {
        BatchBoundary(|random|, batches);
        return None;
      }
      var randoms := random[drawn..drawn + BatchSize];
      assert random[..drawn + BatchSize] == random[..drawn] + randoms;
      AcceptedAppend(random[..drawn], randoms);
      result, remainingLength := TakeFromBatch(randoms, result, remainingLength);
      drawn := drawn + BatchSize;
      batches := batches + 1;
    }
    FinishedNonce(random, batches, result);
    AcceptedInCharset(random);
    return Some(result);
  }
}
