# RoommateFinder authentication view model, in Dafny

This project models `AuthViewModel`, the object behind the RoommateFinder
sign-in screen. It signs a user in with a phone one-time password (OTP),
with Google, or with Apple, and the screen observes three of its fields:
`isLoggedIn`, `verificationID` and `currentNonce`.

The model has five modules:

- `Nonce`: `randomNonceString`, the rejection-sampling generator of the raw
  Apple nonce. Random bytes arrive in batches of 16. A byte below 64 stands
  for that position of a 64-character charset, and any other byte is
  dropped. The random source is an input byte stream.
- `Utf8`: the UTF-8 encoding that `String.utf8` produces, and the decoding
  that `String(data:encoding: .utf8)` performs, with round trips both ways.
- `Digest`: `sha256`, which hashes the UTF-8 bytes of a string and writes
  the 32-byte digest as lowercase hex, two digits per byte. SHA-256 itself
  is a parameter, any function from bytes to 32 bytes.
- `Auth`: the class `AuthViewModel`, with the three fields and one method
  per operation. Each identity SDK call becomes a `Completion` argument,
  which is the outcome the SDK would deliver. `SendOTP` returns the phone
  number it hands to phone verification. The sign-in methods return the
  credential or Apple ID request they hand to the SDK, or `None` when a
  guard stops them first.
- `Wrappers` and `Bytes`: `Option` (Swift's `T?`) and `UInt8`.

The charset is written as five literals, one per character class. Their
concatenation is exactly the source's single literal: 64 characters, with
no `'W'`.

## Model

| member | source | states |
|---|---|---|
| Nonce.CharsetIndexInverse | RoommateFinder/AuthViewModel.swift:113-114 | the charset has 64 characters, and reading a character's position back from its class recovers every index |
| Nonce.CharsetDistinct | RoommateFinder/AuthViewModel.swift:113-114 | the 64 charset characters are pairwise distinct, and `'W'` is not among them |
| Nonce.CharsetAscii | RoommateFinder/AuthViewModel.swift:114 | every charset character is below U+0080 |
| Nonce.AcceptedAppend | RoommateFinder/AuthViewModel.swift:118-131 | what a byte stream yields is what its first part yields followed by what its second part yields, so batches compose |
| Nonce.AcceptedPrefix | RoommateFinder/AuthViewModel.swift:118-131 | a prefix of the stream yields a prefix of the characters the whole stream yields |
| Nonce.Image | RoommateFinder/AuthViewModel.swift:127-128 | a byte below the charset size yields exactly one character, the one at that position of the charset, and any other byte yields none |
| Nonce.AcceptedIsImageOfKept | RoommateFinder/AuthViewModel.swift:127-128 | the i-th character yielded is `charset[b]` for the i-th byte `b` below 64, and there are as many characters as accepted bytes |
| Nonce.AcceptedInCharset | RoommateFinder/AuthViewModel.swift:127-128 | every yielded character is a charset character |
| Nonce.DecodeAccepted | RoommateFinder/AuthViewModel.swift:127-128 | mapping the yielded characters back through the charset gives exactly the accepted bytes, in order |
| Nonce.AcceptedInjective | RoommateFinder/AuthViewModel.swift:127-128 | two streams that yield the same characters accepted the same bytes, so byte-to-character is injective |
| Nonce.TakeFromBatch | RoommateFinder/AuthViewModel.swift:125-131 | one batch appends the images of its accepted bytes in order until no character is missing; the rest of the batch adds nothing |
| Nonce.RandomNonceString | RoommateFinder/AuthViewModel.swift:112-135 | `length <= 0` gives `""`; otherwise the result has exactly `length` characters, all from the charset, and is a prefix of the images of the accepted bytes, i.e. the images of the first `length` bytes below 64; the only failure is a stream whose whole batches accept fewer than `length` bytes |
| Utf8.Encode | RoommateFinder/AuthViewModel.swift:138 | a string of n scalars has between n and 4n UTF-8 bytes, and only the empty string has none |
| Utf8.DecodeScalarEncode | RoommateFinder/AuthViewModel.swift:138 | the one to four bytes of a scalar decode back to that scalar and their own length, whatever follows them |
| Utf8.DecodeEncode | RoommateFinder/AuthViewModel.swift:138 | decoding the UTF-8 bytes of any string gives that string back |
| Utf8.EncodeDecodeScalar | RoommateFinder/AuthViewModel.swift:156 | a scalar read from the front of a byte string re-encodes to exactly the bytes it was read from |
| Utf8.Decode | RoommateFinder/AuthViewModel.swift:156 | bytes that decode are the UTF-8 encoding of what they decode to, so decoding accepts exactly the UTF-8 encodings and rejects overlong forms, surrogates and values above U+10FFFF |
| Utf8.EncodeAscii | RoommateFinder/AuthViewModel.swift:138 | characters below U+0080 are encoded as one byte each, of the same value |
| Digest.FormatByte | RoommateFinder/AuthViewModel.swift:140 | `%02x` of a byte is two lowercase hex digits whose value, high digit times 16 plus low digit, is the byte |
| Digest.HexEncode | RoommateFinder/AuthViewModel.swift:140 | the joined hex text of n bytes has 2n characters |
| Digest.HexEncodeAt | RoommateFinder/AuthViewModel.swift:140 | byte i is written at positions 2i and 2i+1 as the digits of `b / 16` and `b % 16` |
| Digest.HexEncodeAlphabet | RoommateFinder/AuthViewModel.swift:140 | only the lowercase digits `0-9a-f` appear |
| Digest.HexDecodeEncode | RoommateFinder/AuthViewModel.swift:140 | reading the hex text back in pairs gives the bytes back |
| Digest.HexEncodeInjective | RoommateFinder/AuthViewModel.swift:140 | different byte strings never format to the same text |
| Digest.Sha256Hex | RoommateFinder/AuthViewModel.swift:137-141 | the digest text of any string has 64 characters, all lowercase hex digits |
| Digest.Sha256HexDeterminesDigest | RoommateFinder/AuthViewModel.swift:137-141 | equal digest texts mean equal SHA-256 digests of the inputs' UTF-8 bytes |
| Auth.NonceDigestInput | RoommateFinder/AuthViewModel.swift:105 | a charset nonce is hashed as one byte per character, each byte the character's code |
| Auth.AuthViewModel.constructor | RoommateFinder/AuthViewModel.swift:9-12 | a new view model is logged out and holds no verification ID and no nonce |
| Auth.AuthViewModel.SendOTP | RoommateFinder/AuthViewModel.swift:16-31 | the code is requested for exactly the given phone number; an error leaves `verificationID` unchanged; success stores the delivered ID, even an absent one; no other field changes |
| Auth.AuthViewModel.VerifyOTP | RoommateFinder/AuthViewModel.swift:34-55 | without a verification ID, no sign-in is attempted and nothing changes; otherwise it signs in with the stored ID and the typed code, and `isLoggedIn` becomes true exactly when that sign-in succeeds or it already was |
| Auth.AuthViewModel.SignInWithGoogle | RoommateFinder/AuthViewModel.swift:60-97 | Firebase is called exactly when the client ID, the view controller, Google's success, the user and its ID token are all present, and then with the ID and access tokens; `isLoggedIn` becomes true only when that call succeeds |
| Auth.AuthViewModel.SignInWithApple | RoommateFinder/AuthViewModel.swift:100-110 | stores a fresh 32-character charset nonce in `currentNonce` and requests full name and e-mail with the SHA-256 hex of that raw nonce |
| Auth.AuthViewModel.AuthorizationDidComplete | RoommateFinder/AuthViewModel.swift:146-174 | signs in only for an Apple ID credential with a stored nonce and a UTF-8 identity token, and then hands over the stored raw nonce, not its digest; every other path changes nothing |
| Auth.AuthViewModel.AuthorizationDidFail | RoommateFinder/AuthViewModel.swift:176-178 | the error callback changes no field |
| Auth.AuthViewModel.SignInWithAppleThenComplete | RoommateFinder/AuthViewModel.swift:103-109 | across request and callback, the raw nonce given to Firebase hashes to the nonce sent in the Apple request |

## Left out

- `SecRandomCopyBytes` is an input byte stream. Its ignored status at
  AuthViewModel.swift:121 needs no modelling: a failed draw leaves the byte 0,
  which is just another byte of the stream.
- Nonce.RandomNonceString: the stream is finite, so the model can run out
  of bytes and return `None`. The app's source never runs dry. The method
  returns `None` only when every whole batch has been used and fewer than
  `length` characters were accepted.
- Auth.AuthViewModel.SignInWithApple: when the byte stream runs out (the
  `None` case above), the model sends no request and changes nothing. The
  app has no such path.
- SHA-256 is the parameter `sha256` (CryptoKit is foreign code). Only its
  32-byte output length is assumed.
- The Firebase, Google and Apple SDK calls are outcome arguments: phone
  verification, Firebase `signIn(with:)`, Google's `signIn(withPresenting:)`
  and the authorization controller. This includes the credential
  constructors, which the model records as `Credential` values.
- The `DispatchQueue.main.async` hops are not modelled. Each completion is
  applied at once, inside the call that started it. Completions that
  arrive late or out of order are not modelled.
- `print` logging and the `isAppVerificationDisabledForTesting` setting
  (AuthViewModel.swift:19) have no effect on the model.
- The Firebase client-ID lookup and the window/root-view-controller lookup
  are guard arguments: an `Option` and a `bool`.
- `@Published` change notifications to the SwiftUI view are not modelled.
- Swift `String` is a sequence of grapheme clusters. The model uses Unicode
  scalars, which agree with it on the ASCII nonce and hex texts.
- Utf8.Decode: it rejects ill-formed UTF-8, as `String(data:encoding:)`
  does. Foundation's handling of a leading byte-order mark is not modelled.
- Some behaviour is not in the code, so it is not in the model: attempt
  limits, expiry of a verification ID, dropping of a superseded
  verification, phone-number format validation, and a minimum nonce length.
  `randomNonceString` accepts any length, and `verificationID` is
  overwritten rather than versioned.
- ContentView.swift is SwiftUI layout. Its only logic is the country-code
  split and the concatenation of the full phone number.
- RoommateFinderApp.swift is app bootstrap, and its
  `PersistenceController` is not part of this model.
