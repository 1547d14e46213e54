/**
 * The sign-in bridge of Photox/SocialLogins.swift: `googleSignIn`, which
 * turns a Google sign-in into an ID token or an `NSError` of domain
 * "SignInError", and `appleSignIn` with its `SignInWithAppleDelegator`,
 * which keep the raw nonce on the device, send only its SHA-256 commitment
 * with the request, and resume one checked continuation with the identity
 * token and the raw nonce, or with an error.
 *
 * Platform calls (the window list, `GIDSignIn`, the authorization
 * controller, `String(data:encoding: .utf8)`, SHA-256) are inputs or
 * function parameters.
 */
module SocialLogins {
  import opened Common
  import opened Nonce
  import opened DigestHex

  // ----------------------------------------------------------------- errors

  /** An `NSError`: its domain, its code and its `NSLocalizedDescriptionKey` text. */
  datatype Error = Error(domain: string, code: int, description: string)

  const SignInDomain: string := "SignInError"

  const NoRootViewController: Error := Error(SignInDomain, -1, "Could not find root view controller.")
  const NoGoogleIdToken: Error := Error(SignInDomain, -2, "Could not get ID token from Google sign in.")
  const NoAppleIdentityToken: Error := Error(SignInDomain, -3, "Could not get identity token from Apple sign in.")
  const TokenNotUtf8: Error := Error(SignInDomain, -4, "Could not convert identity token to string.")

  /** What an `async throws` call ends in: a value, or a thrown error. */
  datatype Result<T> = Success(value: T) | Failure(error: Error)

  // ------------------------------------------------------------ googleSignIn

  /** A window of the application, with its root view controller if it has one. */
  datatype Window<P> = Window(rootViewController: Option<P>)

  /** The part of a `GIDSignInResult` the source reads: `user.idToken?.tokenString`. */
  datatype GoogleUser = GoogleUser(idToken: Option<string>)

  /** A run of `googleSignIn`: the view controller handed to `GIDSignIn`, if any, and the result. */
  datatype GoogleAttempt<P> = GoogleAttempt(presented: Option<P>, result: Result<string>)

  /**
   * `googleSignIn()`: with the application's windows and `signIn` standing
   * for `GIDSignIn.sharedInstance.signIn(withPresenting:)`.
   */
  function GoogleSignIn<P>(windows: seq<Window<P>>, signIn: P -> Result<GoogleUser>): (a: GoogleAttempt<P>)
    // No presenter: -1, and Google sign-in never starts.
    ensures (windows == [] || windows[0].rootViewController.None?) <==> a.presented.None?
    ensures a.presented.None? ==> a.result == Failure(NoRootViewController)
    // The presenter is the first window's root view controller.
    ensures a.presented.Some? ==> windows != [] && windows[0].rootViewController == a.presented
    // A sign-in error is rethrown as it is.
    ensures a.presented.Some? && signIn(a.presented.value).Failure? ==> a.result == Failure(signIn(a.presented.value).error)
    // A signed-in user without an ID token: -2.
    ensures a.presented.Some? && signIn(a.presented.value) == Success(GoogleUser(None)) ==> a.result == Failure(NoGoogleIdToken)
    // Otherwise the ID token is returned.
    ensures a.result.Success? <==>
      a.presented.Some? && signIn(a.presented.value).Success? && signIn(a.presented.value).value.idToken.Some?
    ensures a.result.Success? ==> a.result.value == signIn(a.presented.value).value.idToken.value
  {
    if windows == [] || windows[0].rootViewController.None? then
      GoogleAttempt(None, Failure(NoRootViewController))
    else
      var presenter := windows[0].rootViewController.value;
      match signIn(presenter)
      case Failure(e) => GoogleAttempt(Some(presenter), Failure(e))
      case Success(user) =>
        match user.idToken
        case None => GoogleAttempt(Some(presenter), Failure(NoGoogleIdToken))
        case Some(token) => GoogleAttempt(Some(presenter), Success(token))
  }

  /** Only the first window matters: later windows and their controllers are never looked at. */
  lemma GoogleSignInFirstWindow<P>(windows: seq<Window<P>>, later: seq<Window<P>>, signIn: P -> Result<GoogleUser>)
    requires windows != []
    ensures GoogleSignIn(windows + later, signIn) == GoogleSignIn(windows, signIn)
  {
    assert (windows + later)[0] == windows[0];
  }

  // -------------------------------------------------- the checked continuation

  /** What the continuation of `appleSignIn` is resumed with. */
  datatype Outcome = Returning(token: string, nonce: string) | Throwing(error: Error)

  /** The state of a continuation: not yet resumed, or resumed with an outcome. */
  datatype Slot = Pending | Resumed(outcome: Outcome)

  /** A resumption: a pending continuation takes the outcome; a resumed one keeps its own. */
  function Settle(slot: Slot, outcome: Outcome): (s: Slot)
    ensures s.Resumed?
    ensures slot.Pending? ==> s == Resumed(outcome)
    ensures slot.Resumed? ==> s == slot
  {
    if slot.Pending? then Resumed(outcome) else slot
  }

  /** The state after resuming with each outcome in turn. */
  function ResumeAll(slot: Slot, outcomes: seq<Outcome>): (r: Slot)
    ensures outcomes == [] ==> r == slot
    ensures outcomes != [] ==> r.Resumed?
    decreases |outcomes|
  {
    if outcomes == [] then slot
    else ResumeAll(Settle(slot, outcomes[0]), outcomes[1..])
  }

  /** However often a continuation is resumed, it is resumed with the first outcome only. */
  lemma {:induction false} FirstResumeWins(outcomes: seq<Outcome>)
    ensures ResumeAll(Pending, outcomes) == if outcomes == [] then Pending else Resumed(outcomes[0])
  {
    if outcomes != [] {
      ResumedStays(Resumed(outcomes[0]), outcomes[1..]);
    }
  }

  lemma {:induction false} ResumedStays(slot: Slot, outcomes: seq<Outcome>)
    requires slot.Resumed?
    ensures ResumeAll(slot, outcomes) == slot
    decreases |outcomes|
  {
    if outcomes != [] {
      ResumedStays(Settle(slot, outcomes[0]), outcomes[1..]);
    }
  }

  /**
   * A `CheckedContinuation<(String, String), Error>`. Resuming it a second
   * time is a misuse that the Swift runtime traps on; here the second
   * resumption leaves the first outcome in place and is counted.
   */
  class Continuation {
    var slot: Slot
    var misuses: nat

    constructor ()
      ensures slot == Pending && misuses == 0
    {
      slot := Pending;
      misuses := 0;
    }

    /** `resume(returning:)` and `resume(throwing:)`. */
    method Resume(outcome: Outcome)
      modifies this
      ensures slot == Settle(old(slot), outcome)
      ensures misuses == old(misuses) + (if old(slot).Pending? then 0 else 1)
    {
      if slot.Pending? {
        slot := Resumed(outcome);
      } else {
        misuses := misuses + 1;
      }
    }
  }

  // --------------------------------------------------- the Apple delegator

  /** The credential an authorization carries: an Apple ID credential with its optional identity token, or another kind. */
  datatype Credential = AppleIdCredential(identityToken: Option<seq<Byte>>) | OtherCredential

  /**
   * What `authorizationController(controller:didCompleteWithAuthorization:)`
   * resumes with, for a delegator holding `nonce`; `None` when it resumes
   * nothing. `utf8` stands for `String(data:encoding: .utf8)`.
   */
  function AuthorizationOutcome(credential: Credential, utf8: seq<Byte> -> Option<string>, nonce: string): (r: Option<Outcome>)
    ensures r.None? <==> credential.OtherCredential?
    ensures r == Some(Throwing(NoAppleIdentityToken)) <==> credential == AppleIdCredential(None)
    ensures r == Some(Throwing(TokenNotUtf8)) <==>
      credential.AppleIdCredential? && credential.identityToken.Some? && utf8(credential.identityToken.value).None?
    ensures r.Some? && r.value.Returning? <==>
      credential.AppleIdCredential? && credential.identityToken.Some? && utf8(credential.identityToken.value).Some?
    ensures r.Some? && r.value.Returning? ==>
      r.value == Returning(utf8(credential.identityToken.value).value, nonce)
  {
    match credential
    case OtherCredential => None
    case AppleIdCredential(token) =>
      match token
      case None => Some(Throwing(NoAppleIdentityToken))
      case Some(bytes) =>
        match utf8(bytes)
        case None => Some(Throwing(TokenNotUtf8))
        case Some(text) => Some(Returning(text, nonce))
  }

  /** `SignInWithAppleDelegator`: the continuation to resume and the raw nonce of the request. */
  class SignInWithAppleDelegator {
    const continuation: Continuation
    const nonce: string

    constructor (continuation: Continuation, nonce: string)
      ensures this.continuation == continuation && this.nonce == nonce
    {
      this.continuation := continuation;
      this.nonce := nonce;
    }

    /** `authorizationController(controller:didCompleteWithAuthorization:)`. */
    method DidCompleteWithAuthorization(credential: Credential, utf8: seq<Byte> -> Option<string>)
      modifies continuation
      ensures AuthorizationOutcome(credential, utf8, nonce).None? ==>
        continuation.slot == old(continuation.slot) && continuation.misuses == old(continuation.misuses)
      ensures AuthorizationOutcome(credential, utf8, nonce).Some? ==>
        var outcome := AuthorizationOutcome(credential, utf8, nonce).value;
        && continuation.slot == Settle(old(continuation.slot), outcome)
        && continuation.misuses == old(continuation.misuses) + (if old(continuation.slot).Pending? then 0 else 1)
    {
      match credential
      case OtherCredential =>
      case AppleIdCredential(token) =>
        match token
        case None =>
          continuation.Resume(Throwing(NoAppleIdentityToken));
        case Some(bytes) =>
          match utf8(bytes)
          case None =>
            continuation.Resume(Throwing(TokenNotUtf8));
          case Some(text) =>
            continuation.Resume(Returning(text, nonce));
    }

    /** `authorizationController(controller:didCompleteWithError:)`: the error is passed on. */
    method DidCompleteWithError(error: Error)
      modifies continuation
      ensures continuation.slot == Settle(old(continuation.slot), Throwing(error))
      ensures continuation.misuses == old(continuation.misuses) + (if old(continuation.slot).Pending? then 0 else 1)
    {
      continuation.Resume(Throwing(error));
    }
  }

  // ------------------------------------------------------------ appleSignIn

  /** The scopes an Apple ID request asks for. */
  datatype Scope = FullName | Email

  /** The fields of the `ASAuthorizationAppleIDRequest` the source sets. */
  datatype AppleIdRequest = AppleIdRequest(requestedScopes: seq<Scope>, nonce: string)

  /**
   * `appleSignIn()` up to `performRequests()`: a fresh raw nonce, a request
   * for the full name and e-mail address carrying the nonce's SHA-256
   * commitment, and a delegator holding the raw nonce and a pending
   * continuation. When the random source fails there is no request and no
   * delegator (the source stops in `fatalError`).
   */
  method AppleSignIn(random: seq<Draw>, hash: seq<Byte> -> Digest)
    returns (request: Option<AppleIdRequest>, delegator: SignInWithAppleDelegator?)
    ensures Generate(DefaultLength, random).Nonce? <==> request.Some?
    ensures request.Some? <==> delegator != null
    ensures delegator != null ==>
      && fresh(delegator) && fresh(delegator.continuation)
      && delegator.nonce == Generate(DefaultLength, random).value
      && delegator.continuation.slot == Pending && delegator.continuation.misuses == 0
      && request == Some(AppleIdRequest([FullName, Email], Sha256(delegator.nonce, hash)))
  {
    var outcome := RandomNonceString(DefaultLength, random);
    if !outcome.Nonce? {
      return None, null;
    }
    var nonce := outcome.value;
    request := Some(AppleIdRequest([FullName, Email], Sha256(nonce, hash)));
    var continuation := new Continuation();
    delegator := new SignInWithAppleDelegator(continuation, nonce);
  }

  /**
   * `appleSignIn()` from start to finish, when the platform answers with an
   * authorization carrying `credential`: the value it returns is the
   * identity token together with the raw nonce, of which the request
   * carried exactly the SHA-256 commitment; the nonce is 32 characters of
   * the alphabet.
   */
  method AppleSignInAuthorized(random: seq<Draw>, hash: seq<Byte> -> Digest, credential: Credential, utf8: seq<Byte> -> Option<string>)
    returns (request: Option<AppleIdRequest>, slot: Slot)
    ensures request.Some? <==> Generate(DefaultLength, random).Nonce?
    ensures request.None? ==> slot == Pending
    ensures request.Some? ==> slot == (match AuthorizationOutcome(credential, utf8, Generate(DefaultLength, random).value)
      case None => Pending
      case Some(outcome) => Resumed(outcome))
    ensures slot.Resumed? && slot.outcome.Returning? ==>
      && request.Some? && request.value.nonce == Sha256(slot.outcome.nonce, hash)
      && |slot.outcome.nonce| == DefaultLength
      && (forall i :: 0 <= i < |slot.outcome.nonce| ==> slot.outcome.nonce[i] in Charset)
      && Unhex(request.value.nonce) == Some(hash(Utf8(slot.outcome.nonce)))
  {
    var delegator;
    request, delegator := AppleSignIn(random, hash);
    if delegator == null {
      return request, Pending;
    }
    delegator.DidCompleteWithAuthorization(credential, utf8);
    slot := delegator.continuation.slot;
    GenerateShape(DefaultLength, random);
    Sha256ReadsAsDigest(Generate(DefaultLength, random).value, hash);
  }

  /**
   * A single nonce answers a single commitment: a raw nonce other than the
   * delegator's one has the same commitment only through a SHA-256
   * collision between two different byte strings.
   */
  lemma NonceCommitmentBinds(raw: string, other: string, hash: seq<Byte> -> Digest)
    requires forall i :: 0 <= i < |raw| ==> raw[i] in Charset
    requires forall i :: 0 <= i < |other| ==> other[i] in Charset
    requires raw != other && Sha256(raw, hash) == Sha256(other, hash)
    ensures Utf8(raw) != Utf8(other) && hash(Utf8(raw)) == hash(Utf8(other))
  {
    CharsetIsAscii();
    assert forall i :: 0 <= i < |raw| ==> raw[i] as int < 0x80;
    assert forall i :: 0 <= i < |other| ==> other[i] as int < 0x80;
    CommitmentNeedsCollision(raw, other, hash);
  }
}
