/**
  The authentication view model: the three fields the screen observes and
  the operations that change them.

  Each identity SDK call is replaced by the outcome it delivers, passed in as
  a `Completion`; an operation that would make the call returns what it hands
  to the SDK (a credential or a request), or `None` when a guard stops it
  first. Completions are applied in the same call, one after the other.
*/
module Auth {
  import opened Wrappers
  import opened Bytes
  import Nonce
  import Digest
  import Utf8

  /** How an SDK call completed: with its value, or with an error (only its description is kept). */
  datatype Completion<T> = Success(value: T) | Failure(description: string)

  /** The scopes an Apple ID request can ask for. */
  datatype Scope = FullName | Email

  /** The Apple ID request handed to the authorization controller. */
  datatype AppleIDRequest = AppleIDRequest(requestedScopes: seq<Scope>, nonce: string)

  /** The credential handed to Firebase's `signIn(with:)`. */
  datatype Credential =
    | PhoneCredential(verificationID: string, verificationCode: string)
    | GoogleCredential(idToken: string, accessToken: string)
    | OAuthCredential(providerID: string, idToken: string, rawNonce: string)

  /** The signed-in Google user, as far as it is read: an ID token, possibly absent, and an access token. */
  datatype GoogleUser = GoogleUser(idToken: Option<string>, accessToken: string)

  /** What the authorization controller delivers: an Apple ID credential carrying an identity token, possibly absent, or another kind of credential. */
  datatype Authorization = AppleIDCredential(identityToken: Option<seq<UInt8>>) | OtherCredential

  /** Provider identifier of the Apple OAuth credential. */
  const AppleProviderID: string := "apple.com"

  /** Scopes every Apple ID request asks for. */
  const AppleScopes: seq<Scope> := [FullName, Email]

  /**
    The bytes hashed for a nonce are its characters' codes, one byte per
    character: the digest commits to exactly the raw nonce.
  */
  lemma NonceDigestInput(nonce: string)
    requires forall i :: 0 <= i < |nonce| ==> nonce[i] in Nonce.Charset
    ensures |Utf8.Encode(nonce)| == |nonce|
    ensures forall i :: 0 <= i < |nonce| ==> Utf8.Encode(nonce)[i] as int == nonce[i] as int
  {
    Nonce.CharsetAscii();
    Utf8.EncodeAscii(nonce);
  }

  class AuthViewModel {
    var isLoggedIn: bool
    var verificationID: Option<string>
    var currentNonce: Option<string>

    /** The SHA-256 the digest of the Apple nonce is computed with. */
    const sha256: Digest.Sha256Function

    constructor (sha256: Digest.Sha256Function)
      ensures !isLoggedIn && verificationID == None && currentNonce == None
      ensures this.sha256 == sha256
    {
      isLoggedIn := false;
      verificationID := None;
      currentNonce := None;
      this.sha256 := sha256;
    }

    /**
      Asks for a one-time password to be sent to `phoneNumber`, and returns
      the number handed to phone verification. On an error nothing changes;
      otherwise the verification ID delivered (which may be absent) replaces
      the stored one.
    */
    method SendOTP(phoneNumber: string, completion: Completion<Option<string>>) returns (requested: string)
      modifies this`verificationID
      ensures requested == phoneNumber
      ensures completion.Failure? ==> verificationID == old(verificationID)
      ensures completion.Success? ==> verificationID == completion.value
      ensures isLoggedIn == old(isLoggedIn) && currentNonce == old(currentNonce)
    {
      requested := phoneNumber;
      if completion.Failure? {
        return;
      }
      verificationID := completion.value;
    }

    /**
      Signs in with the code the user typed, against the stored
      verification ID. Without a stored ID no sign-in is attempted and
      nothing changes.
    */
    method VerifyOTP(otpCode: string, completion: Completion<()>) returns (credential: Option<Credential>)
      modifies this`isLoggedIn
      ensures old(verificationID).None? ==> credential == None && isLoggedIn == old(isLoggedIn)
      ensures old(verificationID).Some? ==> credential == Some(PhoneCredential(old(verificationID).value, otpCode))
      ensures isLoggedIn == (old(isLoggedIn) || (credential.Some? && completion.Success?))
      ensures verificationID == old(verificationID) && currentNonce == old(currentNonce)
    {
      if verificationID.None? {
        return None;
      }
      credential := Some(PhoneCredential(verificationID.value, otpCode));
      // Firebase `signIn(with:)` completion: an error returns early, success logs in.
      if completion.Success? {
        isLoggedIn := true;
      }
    }

    /**
      Google sign-in. Stops without effect when the Firebase client ID or
      the presenting view controller is missing, when Google reports an
      error, or when the user or its ID token is missing; otherwise signs in
      to Firebase with the user's ID and access tokens.
    */
    method SignInWithGoogle(clientID: Option<string>, hasRootViewController: bool,
                            googleCompletion: Completion<Option<GoogleUser>>, completion: Completion<()>)
      returns (credential: Option<Credential>)
      modifies this`isLoggedIn
      ensures credential.Some? <==>
        clientID.Some? && hasRootViewController && googleCompletion.Success? &&
        googleCompletion.value.Some? && googleCompletion.value.value.idToken.Some?
      ensures credential.Some? ==>
        credential.value == GoogleCredential(googleCompletion.value.value.idToken.value, googleCompletion.value.value.accessToken)
      ensures isLoggedIn == (old(isLoggedIn) || (credential.Some? && completion.Success?))
      ensures verificationID == old(verificationID) && currentNonce == old(currentNonce)
    {
      if clientID.None? || !hasRootViewController {
        return None;
      }
      if googleCompletion.Failure? {
        return None;
      }
      var user := googleCompletion.value;
      if user.None? || user.value.idToken.None? {
        return None;
      }
      credential := Some(GoogleCredential(user.value.idToken.value, user.value.accessToken));
      // Firebase `signIn(with:)` completion: an error returns early, success logs in.
      if completion.Success? {
        isLoggedIn := true;
      }
    }

    /**
      Starts Apple sign-in: draws a fresh nonce of the default length from
      `random`, keeps the raw nonce, and asks Apple for the full name and
      e-mail with the nonce's digest. `None` only when `random` runs out
      before the nonce is complete, and then nothing changes.
    */
    method SignInWithApple(random: seq<UInt8>) returns (request: Option<AppleIDRequest>)
      modifies this`currentNonce
      ensures request.Some? <==> Nonce.DefaultLength <= |Nonce.Accepted(random[..Nonce.WholeBatches(|random|)])|
      ensures request.Some? ==> currentNonce.Some? && request.value == AppleIDRequest(AppleScopes, Digest.Sha256Hex(currentNonce.value, sha256))
      ensures request.Some? ==> |currentNonce.value| == Nonce.DefaultLength && currentNonce.value <= Nonce.Accepted(random)
      ensures request.Some? ==> forall i :: 0 <= i < |currentNonce.value| ==> currentNonce.value[i] in Nonce.Charset
      ensures request.None? ==> currentNonce == old(currentNonce)
      ensures isLoggedIn == old(isLoggedIn) && verificationID == old(verificationID)
    {
      var nonce := Nonce.RandomNonceString(Nonce.DefaultLength, random);
      if nonce.None? {
        return None;
      }
      currentNonce := nonce;
      request := Some(AppleIDRequest(AppleScopes, Digest.Sha256Hex(nonce.value, sha256)));
    }

    /**
      The controller's success callback. Acts only on an Apple ID
      credential, and stops without effect when no nonce is stored or the
      identity token is missing or not UTF-8; otherwise signs in to Firebase
      with the token text and the stored raw nonce.
    */
    method AuthorizationDidComplete(authorization: Authorization, completion: Completion<()>)
      returns (credential: Option<Credential>)
      modifies this`isLoggedIn
      ensures credential.Some? <==>
        authorization.AppleIDCredential? && currentNonce.Some? &&
        authorization.identityToken.Some? && Utf8.Decode(authorization.identityToken.value).Some?
      ensures credential.Some? ==>
        credential.value == OAuthCredential(AppleProviderID, Utf8.Decode(authorization.identityToken.value).value, currentNonce.value)
      ensures isLoggedIn == (old(isLoggedIn) || (credential.Some? && completion.Success?))
      ensures verificationID == old(verificationID) && currentNonce == old(currentNonce)
    {
      if authorization.OtherCredential? {
        return None;
      }
      if currentNonce.None? {
        return None;
      }
      var nonce := currentNonce.value;
      if authorization.identityToken.None? {
        return None;
      }
      var idTokenString := Utf8.Decode(authorization.identityToken.value);
      if idTokenString.None? {
        return None;
      }
      credential := Some(OAuthCredential(AppleProviderID, idTokenString.value, nonce));
      // Firebase `signIn(with:)` completion: an error returns early, success logs in.
      if completion.Success? {
        isLoggedIn := true;
      }
    }

    /** The controller's error callback: it only reports the error. */
    method AuthorizationDidFail(error: string)
      ensures isLoggedIn == old(isLoggedIn) && verificationID == old(verificationID) && currentNonce == old(currentNonce)
    {
    }

    /**
      The Apple flow end to end: the request is sent, and the controller
      answers through the success callback. The raw nonce handed to Firebase
      is the one whose digest went out in the request.
    */
    method SignInWithAppleThenComplete(random: seq<UInt8>, authorization: Authorization, completion: Completion<()>)
      returns (request: Option<AppleIDRequest>, credential: Option<Credential>)
      modifies this`currentNonce, this`isLoggedIn
      ensures request.Some? && credential.Some? ==>
        credential.value.OAuthCredential? && Digest.Sha256Hex(credential.value.rawNonce, sha256) == request.value.nonce
      ensures isLoggedIn == (old(isLoggedIn) || (credential.Some? && completion.Success?))
    {
      request := SignInWithApple(random);
      if request.None? {
        credential := None;
        return;
      }
      credential := AuthorizationDidComplete(authorization, completion);
    }
  }
}
