# Photox sign-in helpers, modelled in Dafny

This project models `Photox/SocialLogins.swift`, the client-side helpers of the
Photox iOS app for signing in with Google and with Apple:

- **`randomNonceString(length:)`** generates the raw nonce of an Apple sign-in
  by rejection sampling. It draws sixteen secure random bytes per round. A byte
  `b` is kept only when `b < charset.count`, and a kept byte becomes
  `charset[b]`. It stops once `length` characters exist, and a failing draw
  ends in `fatalError`.
- **`sha256(_:)`** is the nonce's commitment. It is the SHA-256 digest of the
  input's UTF-8 bytes, written as two lower-case hexadecimal digits per byte.
- **`appleSignIn()`** and **`SignInWithAppleDelegator`** send only the commitment
  with the authorization request. Their delegate callbacks resume a single
  checked continuation:
  - with the identity token and the raw nonce on success;
  - with error -3 when the token is missing;
  - with error -4 when the token is not UTF-8;
  - with the platform's error on the error callback.
- **`googleSignIn()`** fails with -1 when there is no presenting view
  controller, rethrows a Google sign-in error, and fails with -2 when no ID
  token comes back.

The project has four modules, one file each:

- `common.dfy` (`Common`): the byte type and `Option`.
- `nonce.dfy` (`Nonce`): the generator as a specification function
  `Generate`, and the source's loop as the method `RandomNonceString`, which is
  proved equal to it. The round's `map` of sixteen draws and its `forEach` walk
  are the helper methods `DrawBatch` and `AppendAccepted`.
- `digest_hex.dfy` (`DigestHex`): UTF-8 encoding, hexadecimal serialisation and
  its decoder, and `Sha256` over an abstract hash.
- `social_logins.dfy` (`SocialLogins`): the errors, `GoogleSignIn`, the
  continuation and delegator classes, and `AppleSignIn`.

Inputs that come from the platform are modelled as follows:

- The secure random source is a finite stream of draws, each a byte or a
  failing `OSStatus` (type `FailureStatus`: any status other than
  `errSecSuccess`, which is 0). A stream that runs out gives `SourceExhausted`. That
  outcome belongs to the model only: the system source never runs out.
- SHA-256 is a function parameter from bytes to a 32-byte digest.
- `String(data:encoding: .utf8)` is a function parameter.
- `GIDSignIn` is a function parameter from presenter to result.
- The window list is an input.

### Notes on the code

- **Alphabet.** The literal at line 73 has 64 characters: its upper-case run
  goes `…UV` then `XYZ`, with no `W`. So bytes 0–63 are accepted and 64–255 are
  rejected.
- **Error shapes.** The code throws `NSError`s of domain "SignInError" with
  codes -1 to -4, and rethrows platform errors unchanged.
- **Unresolved requests.** When the credential is not an Apple ID credential,
  the authorization callback resumes nothing, so the continuation stays
  pending.
- **A second resumption.** Swift's checked continuation traps when it is
  resumed twice. The model keeps the first outcome and counts the misuse.
- **Google nonce.** `googleSignIn` generates a nonce at line 12, never uses
  it, and returns only the ID token.

## Model

| member | source | states |
|---|---|---|
| Nonce.CharsetIndexed | Photox/SocialLogins.swift:72-73 | the alphabet literal has 64 characters, and character `i` sits at position `i` by the range decoding 0-9, A-V, X-Z, a-z, `-._` |
| Nonce.CharsetInjective | Photox/SocialLogins.swift:72-73 | the alphabet's characters are pairwise distinct, so the byte-to-character map is injective |
| Nonce.CharsetIsAscii | Photox/SocialLogins.swift:72-73 | every alphabet character is ASCII, so a nonce's UTF-8 form is one byte per character |
| Nonce.SymbolDecodes | Photox/SocialLogins.swift:93 | the character appended for an accepted byte `b` sits at position `b` of the alphabet, so it reads back as `b` |
| Nonce.Admit | Photox/SocialLogins.swift:92-95 | one byte adds at most one character, and adds one exactly when `b < charset.count` |
| Nonce.Accept | Photox/SocialLogins.swift:87-96 | the characters accepted from a run of bytes are never more than the bytes |
| Nonce.Kept | Photox/SocialLogins.swift:92 | the bytes kept are as many as the characters accepted, and each is below the alphabet size |
| Nonce.AcceptDecodes | Photox/SocialLogins.swift:92-95 | decoding the accepted characters gives exactly the bytes below 64, in order; each contributes the character at its own value, with no modulo reduction |
| Nonce.AcceptInCharset | Photox/SocialLogins.swift:92-93 | every character an accepted byte contributes is a member of the alphabet literal |
| Nonce.Draws | Photox/SocialLogins.swift:78-85 | a round of `n` draws that succeeds used `n` entries of the stream and holds exactly `n` bytes |
| Nonce.DrawsSpec | Photox/SocialLogins.swift:78-85 | a round yields a batch exactly when all its draws succeed, and the batch holds the drawn bytes in order |
| Nonce.DrawsFailure | Photox/SocialLogins.swift:80-83 | a failed round reports the status of its first failing draw, after which nothing more is drawn |
| Nonce.Generate | Photox/SocialLogins.swift:71-99 | a nonce, when one is produced, has exactly the requested number of characters |
| Nonce.GenerateShape | Photox/SocialLogins.swift:71-99 | a nonce has exactly the requested length, and every character is in the alphabet |
| Nonce.GenerateIsFirstAccepted | Photox/SocialLogins.swift:77-97 | a nonce is the first `length` accepted bytes of the stream, in order, mapped through the alphabet. They are read in whole rounds of successful draws, ending at the first round boundary with enough accepted bytes |
| Nonce.FirstAcceptedIsGenerated | Photox/SocialLogins.swift:77-97 | conversely, any stream that begins with such whole rounds yields that nonce, whatever follows |
| Nonce.LaterDrawsIgnored | Photox/SocialLogins.swift:77-97 | draws appended after the stream do not change a nonce it yields: the loop stops at the round in which the last character is taken |
| Nonce.FirstAcceptedRest | Photox/SocialLogins.swift:87-96 | other successful bytes after the last needed one leave the rounds read, and the first `length` accepted characters, unchanged |
| Nonce.UnusedRestIgnored | Photox/SocialLogins.swift:87-91 | once the last character is taken, the rest of that round's batch is skipped: other successful bytes in its place give the same nonce |
| Nonce.RandomFailureIsFirstFailedDraw | Photox/SocialLogins.swift:80-83 | a failing source aborts the attempt with the status of the first failing draw; every earlier draw succeeded, and no nonce is produced |
| Nonce.WalkStep | Photox/SocialLogins.swift:87-96 | a byte extends the result by `charset[b]` and lowers the count exactly when characters are still needed and `b < 64`; otherwise it changes nothing |
| Nonce.DrawBatch | Photox/SocialLogins.swift:78-85 | the sixteen-draw loop returns the batch of the specification, or the failing status, or exhaustion, and advances the stream by one round |
| Nonce.AppendAccepted | Photox/SocialLogins.swift:87-96 | the `forEach` walk appends the first `remaining` accepted characters of the batch and lowers the count by their number |
| Nonce.RandomNonceString | Photox/SocialLogins.swift:70-100 | the loop computes `Generate(length, random)`; under `length > 0`, a nonce it returns has the requested length over the alphabet |
| DigestHex.HexDigit | Photox/SocialLogins.swift:106 | each printed digit is in `[0-9a-f]` |
| DigestHex.Hex2 | Photox/SocialLogins.swift:106 | `"%02x"` prints two lower-case digits, high nibble first, that read back as the byte |
| DigestHex.Hex2Digits | Photox/SocialLogins.swift:106 | two lower-case digits read as a byte print as the same two digits |
| DigestHex.Hex | Photox/SocialLogins.swift:105-107 | the joined `"%02x"` text of a digest has length 2 × its byte count, and only characters in `[0-9a-f]` |
| DigestHex.UnhexHex | Photox/SocialLogins.swift:105-107 | reading the hexadecimal text back gives the digest: the serialisation round-trips |
| DigestHex.HexUnhex | Photox/SocialLogins.swift:105-107 | every string that reads as bytes is the serialisation of those bytes, so serialisation is a bijection onto even-length lower-case hex |
| DigestHex.UnhexTotal | Photox/SocialLogins.swift:105-107 | every even-length string of lower-case hexadecimal digits reads as bytes; with `HexUnhex` and `UnhexHex`, serialisation is a bijection onto those strings |
| DigestHex.HexInjective | Photox/SocialLogins.swift:105-107 | distinct digests give distinct strings |
| DigestHex.Utf8Scalar | Photox/SocialLogins.swift:103 | a Unicode scalar encodes to one to four bytes |
| DigestHex.Utf8 | Photox/SocialLogins.swift:103 | a string of `k` characters encodes to between `k` and `4k` bytes |
| DigestHex.Utf8Ascii | Photox/SocialLogins.swift:103 | an ASCII string's UTF-8 bytes are its code points, one byte per character |
| DigestHex.Utf8AsciiInjective | Photox/SocialLogins.swift:103 | distinct ASCII strings have distinct UTF-8 bytes |
| DigestHex.Sha256 | Photox/SocialLogins.swift:102-110 | the commitment is 64 characters long, all lower-case hexadecimal |
| DigestHex.Sha256ReadsAsDigest | Photox/SocialLogins.swift:102-110 | the commitment reads back as exactly the SHA-256 digest of the input's UTF-8 bytes |
| DigestHex.CommitmentNeedsCollision | Photox/SocialLogins.swift:102-110 | two distinct ASCII inputs share a commitment only through a hash collision on two distinct byte strings |
| SocialLogins.GoogleSignIn | Photox/SocialLogins.swift:7-21 | no first window or no root view controller gives -1, and Google sign-in never starts. A sign-in error is rethrown. A user without an ID token gives -2. Otherwise the ID token is returned, and those are the only successes |
| SocialLogins.GoogleSignInFirstWindow | Photox/SocialLogins.swift:8 | only the first window is consulted; later windows never change the outcome |
| SocialLogins.Settle | Photox/SocialLogins.swift:33-37 | a resumption always leaves the continuation resumed: a pending one takes the outcome, and an already resumed one keeps its first outcome |
| SocialLogins.ResumeAll | Photox/SocialLogins.swift:33-37 | no resumption leaves the continuation as it was, and any resumption leaves it resumed |
| SocialLogins.FirstResumeWins | Photox/SocialLogins.swift:33-37 | over any sequence of resumptions, a continuation ends resumed with the first outcome only |
| SocialLogins.Continuation.constructor | Photox/SocialLogins.swift:33 | a new continuation is pending and has no misuse counted |
| SocialLogins.Continuation.Resume | Photox/SocialLogins.swift:41 | a pending continuation takes the outcome; a resumed one keeps its outcome and counts one misuse |
| SocialLogins.AuthorizationOutcome | Photox/SocialLogins.swift:49-62 | nothing is resumed for a credential that is not an Apple ID one. A missing token gives -3, and a token that is not UTF-8 gives -4; each holds exactly when its condition does. Success returns the decoded token with the delegator's raw nonce, and only then |
| SocialLogins.SignInWithAppleDelegator.constructor | Photox/SocialLogins.swift:44-47 | the delegator holds exactly the continuation and raw nonce it is given |
| SocialLogins.SignInWithAppleDelegator.DidCompleteWithAuthorization | Photox/SocialLogins.swift:49-63 | the continuation is resumed at most once, with `AuthorizationOutcome`; it is left untouched when that outcome is none |
| SocialLogins.SignInWithAppleDelegator.DidCompleteWithError | Photox/SocialLogins.swift:65-67 | the continuation is resumed with the platform's error, unchanged |
| SocialLogins.AppleSignIn | Photox/SocialLogins.swift:23-38 | a request exists exactly when a nonce was generated. It asks for full name and e-mail and carries `sha256` of the raw nonce, while a fresh delegator with a pending continuation keeps the raw nonce itself |
| SocialLogins.AppleSignInAuthorized | Photox/SocialLogins.swift:23-63 | when the flow returns, it returns the raw nonce: 32 alphabet characters whose SHA-256 commitment is the one the request carried, and that commitment reads back as the digest of the nonce's UTF-8 bytes |
| SocialLogins.NonceCommitmentBinds | Photox/SocialLogins.swift:24-29 | a different alphabet string has the same commitment as the raw nonce only through a SHA-256 collision |

## Left out

- SHA-256 itself is an abstract function parameter (`hash`), because CryptoKit's compression function is not part of this model.
- `SecRandomCopyBytes` is replaced by a finite input stream of draws. Uniformity of the random bytes is a property of the system source and is not stated.
- `String(data:encoding: .utf8)` is an abstract decoder parameter (`utf8`), so UTF-8 validation is not modelled. `DigestHex.Utf8` models only the encoder used by `sha256`.
- `GIDSignIn.sharedInstance.signIn(withPresenting:)` is a function parameter, and `UIApplication.shared.windows` is an input sequence.
- `ASAuthorizationController`, `performRequests()`, `controller.delegate` and the suspension inside `withCheckedThrowingContinuation` are platform UI and concurrency. Only the continuation's one-shot result slot is modelled.
- Continuation.Resume: does not trap on a second resumption as Swift's checked continuation does. It keeps the first outcome and counts the misuse instead.
- GoogleSignIn: does not model the `randomNonceString()` call at line 12. Its nonce is never used, but the call runs before `GIDSignIn` is asked and, on a failing random source, ends the process in `fatalError`; `GoogleSignIn` does not capture that outcome.
- `fatalError` is modelled as the outcome `RandomFailure` carrying the `OSStatus`, not as process termination.
- Photox/SignUpView.swift, Photox/TopNavbar.swift, Photox/ClerkiOSApp.swift and Photox/ContentView.swift are SwiftUI layout, app bootstrap and view routing, and are not part of this model.
