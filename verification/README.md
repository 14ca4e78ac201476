# Verified model of the R2PS service

This project models the stateful and byte-level core of `go-r2ps-service` in Dafny
and proves what it guarantees over all inputs and all runs. One module stands for one
component:

- `Cbor`, `Attestation`, `AuthData`, `WebAuthn`: the hand-written CBOR, COSE and
  authenticator-data parsers, with their loops and recursion, proved against a printer
  for RFC 8949 section 3, Web Authentication Level 2 sections 6.1, 6.5.1 and 6.5.4, and
  RFC 9053 section 7.1.1. The printer may use any argument width, not only the shortest.
- `EcPoint`, `Jwk`: point compression (SEC 1 sections 2.3.3 and 2.3.4) over any odd
  prime, and the published JWK coordinates.
- `Sessions`, `Attempts`, `Tokens`, `Stores`, `StoreKeys`: the mutable stores as
  classes, each with its pure specification and the laws of that specification.
- `Protocol` (handlers as functions of state, request, clock and random draws),
  `Dispatcher` (the same handlers as methods with effects in the order of the code, each
  proved to compute its function), `Replies` (an independent account of every reply: where
  a request goes, and the first check that fails), and over whole runs of requests and
  cleanup ticks `Runs`, `Authentication`, `Records`, `Lockout`, `AttemptHistory`,
  `SignCounts`, `Replay`.
- `Interleaving`: the session store at lock granularity, with shared session pointers.
  `CountRace`: FIDO2 finalizes split at the store's mutex, in every interleaving.
- `StatusList`, `Lifecycle`, `Revocation`: status bits, index allocation, revoke and
  suspend, the latter also one store call at a time beside other handlers.
- `Counterexamples`, `DuplicateCredentials`, `LockedLogin`: concrete runs of the handlers
  from start-up.
- `Sad`, `KdfInfo`: signing-task parsing and key-derivation inputs.
- `HsmPool`, `KeyPublication`: the PKCS#11 session pool and key generation.

Conventions. Time is in nanoseconds. A Go panic is an explicit outcome (`Panic`,
`Panicked`, `Crash`, `Crashed`). A Go slice is its bytes plus `spare`, the bytes between
length and capacity, because a slice expression is bounded by the capacity. JSON, base64,
SHA-256, ECDSA, OPAQUE and `ModSqrt` are arbitrary functions or answers that meet only the
stated conditions; AES-GCM is an ideal cipher that opens exactly what it has sealed.
Integers are unbounded where nothing can reach the 64-bit limit (`Cbor.SkipBounded` shows
it for offsets); the wrap-arounds that can be reached are written out: the uint16 slice
bound, the int64 session duration and the uint32 length prefix.

Findings, each with its exact condition and, where a law fails, an input:

- Parsing authenticator data panics exactly for an announced and present credential ID
  of more than 65480 bytes (`AuthData.PanicsIff`).
- Extracting the authenticator data panics exactly when a pair that the scan comes to has
  a truncated head or an "authData" key with nothing after it
  (`Attestation.ExtractPanicsIff`, over `Cbor.SkipPanicsIff`; `Attestation.MissingValuePanics`).
- Skipping a CBOR value takes one call for each head read, at most one a byte, and one for
  each value that is announced and wanting when the bytes run out (`Cbor.CallsExact`): five
  bytes can take any number up to 2^32 (`Cbor.ManyCalls`).
- `DecompressPublicKey` accepts an x of p or more, and y = p for the odd root of zero
  (`EcPoint.AcceptedIsReduced`, `EcPoint.NonReducedAccepted`). On P-256 itself 02 followed
  by p is accepted (`EcPoint.NonReducedOnP256`). The odd root of zero is shown on a small
  curve (`EcPoint.OddRootOfZeroWitness`); it cannot come up on the NIST curves, whose order is
  odd, so that they have no point with y = 0.
- Joined string keys behave like pairs exactly for unambiguous sets of contexts
  (`StoreKeys.RefinesIffUnambiguous`), and lockout keys are injective exactly when no
  context, doubled, ends in a bar and another one doubled (`StoreKeys.CounterKeyInjectiveIff`,
  `StoreKeys.CounterKeysCollide`).
- Key-derivation info is injective on fields of fewer than n bytes exactly for n up to
  2^32 (`KdfInfo.InjectiveIffBelow`). The failing side is about the function alone: the
  server's dst is a constant, its direction is "c2s" or "s2c"
  (internal/crypto/jwe.go:72-76), and bodies end at 1 MB (cmd/server/main.go:368).
- The sign-count laws hold in every interleaving in which the accepted finalizes of a
  credential take turns (`CountRace.CountsNeverDecrease`, `CountRace.NoCountTwice`). Two
  whose windows from read to write overlap are both accepted, whatever their counts and
  whatever runs in between, while the second would be judged against the first's count had
  it waited
  (`CountRace.OverlapAcceptsBoth`, `CountRace.TurnsJudgeAgain`); a run from start-up for
  all counts stored < other <= one is `Counterexamples.RaceFromStart`.
- A FIDO2 credential is used from its registration on exactly when its ID was not
  registered before; otherwise the older one stays in use (`Records.RegisteredKeyIsUsed`;
  a run with two keys under one ID: `DuplicateCredentials.SecondKeyIsNeverUsed`).
- An accepted FIDO2 registration answers a challenge issued by the run, to the same client
  and context, exactly when it names a token; without one the empty challenge is accepted
  (`Records.RegistrationAnswersIff`, `DuplicateCredentials.NothingWasIssued`).
- An entry holds the status last written to it, so a suspension replaces a revocation,
  which stands exactly until the next write of another status (`Revocation.StatusIsLastSet`,
  `Revocation.RevocationStands`, `Revocation.SuspensionReplacesRevocation`).
- A revoke misses exactly the indices that were not yet recorded when it read the list
  (`Revocation.RevokeMisses`, `Revocation.RevokeMissesPending`).
- The session gate matches the context, not the client: only the owners of sessions pass
  it exactly when nobody can (`Authentication.OnlyOwnersPassIff`; a signature in another
  client's session: `Counterexamples.BorrowedSessionSigns`).
- A locked client can start a login: of the requests with which logins start, the lock
  refuses exactly those that ask the counter, and the FIDO2 registration challenge does not
  ask (`Lockout.LockoutHolds`), though its token serves a login as well as any other
  (`Lockout.RegistrationChallengeServesLogin`). A locked client logs in on its token in
  `LockedLogin.LockedClientLogsIn`; a finalize inside the lockout answers such a challenge
  or one issued before the lock (`Lockout.LockedLoginComesFrom`).
- A lockout changes the reply to exactly the requests that ask the counter
  (`Lockout.LockStopsExactlyAsking`), so a finalize goes on
  (`Counterexamples.FinalizePassesLockout`). A lock ends early exactly with a request that
  names that client and context and brings a live session's matching KE3, or an accepted
  assertion with a client key and a free session id (`Lockout.LockEndsIff`); a KE3 finalize
  does not look at whose session it names (`Lockout.FinalizeIgnoresClient`).
- A FIDO2 finalize that opened a session opens another one when it is sent again, exactly
  when its count is zero, the stored count still is, and its token has not run out
  (`Replay.ReplayOpensIff`; one finalize, two sessions: `Counterexamples.ReplayOpensTwo`).
- A request in flight when its session is removed is still let through exactly when the
  flag was set by then and the context is the session's; later requests are not
  (`Interleaving.LatePassIff`, `Interleaving.LatePassWasFetchedBefore`,
  `Interleaving.PassAfterCleaning`).

Where code and comment differ the model follows the code: internal/service/fido2.go:250
says that an empty expected challenge skips the challenge check, but the code compares it
all the same (internal/webauthn/verify.go:140).

## Model

| member | source | states |
|---|---|---|
| Cbor.Skip | internal/webauthn/verify.go:277-320 | on every input that does not panic the skip never moves back, and advances strictly inside the buffer |
| Cbor.SkipCBORValue | internal/webauthn/verify.go:277-320 | the recursive skipper with its array and map loops computes `Skip`, in exactly `Calls` calls of itself, and terminates by remaining length |
| Cbor.ReadPrintedHead | internal/webauthn/verify.go:282-299 | a printed head of any width reads back as its major type and argument |
| Cbor.SkipPrinted | internal/webauthn/verify.go:277-320 | from any offset holding a printed value, nested to any depth, the skip moves by exactly its length |
| Cbor.SkipManyPrinted | internal/webauthn/verify.go:306-316 | the same for any list of printed values |
| Cbor.SkipBounded | internal/webauthn/verify.go:277-320 | on every input the offset stays within 2^32+3 of the end, so `int` never wraps |
| Cbor.SkipPanicsIff | internal/webauthn/verify.go:277-320 | on arbitrary bytes, skipping panics exactly when one of the heads it comes to is truncated: its one-byte argument beyond the length, its two- or four-byte one beyond the capacity |
| Cbor.CallsExact | internal/webauthn/verify.go:301-316 | on arbitrary bytes the number of calls is that of the heads read, at most one a byte, plus that of the values announced and wanting when the bytes run out |
| Cbor.ManyCalls | internal/webauthn/verify.go:288-310 | five bytes take 1 + n calls, for every n below 2^32 |
| Attestation.ExtractAuthData | internal/webauthn/verify.go:194-273 | the scanning loop, with its panics and its six errors, computes `Extract` |
| Attestation.AuthDataIsText | internal/webauthn/verify.go:241 | the key that the scan looks for is the text "authData", byte by byte |
| Attestation.ScanPrintedPair | internal/webauthn/verify.go:217-270 | what one iteration does to a printed pair with a text or other key |
| Attestation.ExtractPrinted | internal/webauthn/verify.go:194-273 | for every printed attestation map of at most 255 pairs, any key order and any trailing bytes: exactly the payload of the first authData entry, or which error; never a panic |
| Attestation.ExtractPanicsIff | internal/webauthn/verify.go:194-273 | on arbitrary bytes, the exact condition of every panic of the scanner, pair by pair |
| Attestation.MissingValuePanics | internal/webauthn/verify.go:238-242 | a map that ends after its only key "authData" panics |
| AuthData.DecodeCborInt | internal/webauthn/types.go:235-271 | the integer decoder reads one head of at most three bytes, negative for major type 1 |
| AuthData.DecodeCborValue | internal/webauthn/types.go:183-229 | the value switch: byte strings stored, integers stepped over, anything else stops |
| AuthData.DecodeCborMap | internal/webauthn/types.go:145-233 | the decoding loop computes `DecodeMap`; no input makes it panic |
| AuthData.DecodePrintedMap | internal/webauthn/types.go:145-233 | any printed COSE map of at most 255 pairs, followed by any bytes, decodes to exactly its byte-string entries, last duplicate winning |
| AuthData.ParseAuthenticatorData | internal/webauthn/types.go:61-96 | the field-by-field parser computes `Parse` |
| AuthData.ParsePrinted | internal/webauthn/types.go:61-141 | any printed report parses back to its own fields and its key, extension bytes ignored; it panics exactly above 65480 bytes of credential ID |
| AuthData.ParsedIff | internal/webauthn/types.go:61-141 | on arbitrary bytes, when they parse and to what: every field at its offset, big-endian count, credential only with AT, key only of the curve |
| AuthData.IntIff | internal/webauthn/types.go:235-271 | on arbitrary bytes, the value and length of the integer head |
| AuthData.ValueIff | internal/webauthn/types.go:183-229 | on arbitrary bytes, what is stored, stepped over or stops the decoding |
| AuthData.KeyIff | internal/webauthn/types.go:107-141 | a key is read exactly from a map with 32-byte entries -2 and -3 that are a point of the curve |
| AuthData.PanicsIff | internal/webauthn/types.go:79-87 | on arbitrary bytes, the exact condition of the panic caused by uint16 arithmetic |
| WebAuthn.OriginAllowed | internal/webauthn/verify.go:53-60 | the flag loop decides membership in the allowed origins |
| WebAuthn.VerifyAssertion | internal/webauthn/verify.go:30-104 | the check sequence computes `JudgeAssertion`, which `AssertionIff` characterises on the raw bytes |
| WebAuthn.VerifyRegistration | internal/webauthn/verify.go:121-190 | the check sequence computes `JudgeRegistration`, which `RegistrationIff` characterises on the raw bytes |
| WebAuthn.AssertionIff | internal/webauthn/verify.go:30-104 | on arbitrary bytes an assertion is verified if and only if its client data parse with type "webauthn.get", the expected challenge and an allowed origin, its first 32 bytes are the hash of the RP ID, UP and UV are set, the count passes the rule, the key has signed both, and the report parses |
| WebAuthn.RegistrationIff | internal/webauthn/verify.go:121-190 | on arbitrary bytes a registration is verified if and only if its client data parse with type "webauthn.create", the expected challenge and an allowed origin, and its authenticator data parse with the hash of the RP ID, UP, UV and AT set and a key |
| WebAuthn.PrintedAssertion | internal/webauthn/verify.go:30-104 | on printed authenticator data, with or without a credential in it, accepted if and only if type, challenge and origin of the client data, RP ID hash, UP, UV, signature and sign-count rule hold of the report itself and its credential, if any, parses; it crashes exactly for an overlong credential ID |
| WebAuthn.PrintedRegistration | internal/webauthn/verify.go:121-190 | end to end, extraction and both parsers: a printed attestation is accepted if and only if type, challenge and origin of the client data, RP ID hash, UP, UV and AT hold and its credential parses to a key of the curve, and then registers exactly the fields and key of its report; it crashes exactly for an overlong credential ID |
| WebAuthn.RegisteredKeyOnCurve | internal/webauthn/types.go:127-140 | only points of the curve are ever registered |
| EcPoint.MarshalCompressedPublicKey | internal/crypto/ecdh.go:80-94 | the buffer-filling encoder yields parity byte and fixed-width x |
| EcPoint.DecompressY | internal/crypto/ecdh.go:122-148 | the in-place big-integer steps compute the chosen root of x^3-3x+b mod p |
| EcPoint.DecompressPublicKey | internal/crypto/ecdh.go:97-120 | dispatch on the format byte computes `Decompress`, for 04 (`DecompressUncompressed`) as for 02 and 03 (`AcceptedIffOnCurve`) |
| EcPoint.TwoRoots | internal/crypto/ecdh.go:138-145 | over a prime, two square roots of a residue are equal or sum to p |
| EcPoint.DecompressCompressed | internal/crypto/ecdh.go:80-148 | decompressing the compressed form of any point on the curve returns it, whichever root is picked |
| EcPoint.CompressDecompressed | internal/crypto/ecdh.go:97-148 | recompressing any accepted 02/03 encoding gives the same bytes, and the pair satisfies the curve equation mod p |
| EcPoint.AcceptedIffOnCurve | internal/crypto/ecdh.go:107-148 | a compressed encoding is accepted exactly when its length is right and its x belongs to some point |
| EcPoint.AcceptedIsReduced | internal/crypto/ecdh.go:107-148 | the exact condition for accepted coordinates to be reduced |
| EcPoint.NonReducedAccepted | internal/crypto/ecdh.go:107-148 | every accepted x with room has a second accepted encoding x+p with the same y |
| EcPoint.NonReducedOnP256 | internal/crypto/ecdh.go:107-148 | on P-256, whatever roots are picked, 02 followed by p is accepted with the same y as 02 followed by zeros, and is no point |
| EcPoint.NonReducedWitness | internal/crypto/ecdh.go:107-148 | over p = 3 the encodings of 0 and 3 are both accepted with the same y |
| EcPoint.OddRootOfZeroWitness | internal/crypto/ecdh.go:138-145 | over p = 3 the odd root of zero is 3 |
| EcPoint.UnmarshalMarshalled | internal/crypto/ecdh.go:61-77 | the uncompressed encoding round-trips on all curve points |
| EcPoint.UnmarshalIff | internal/crypto/ecdh.go:61-77 | for every input: unmarshalled to a point exactly when that is a point of the curve and the input its uncompressed encoding |
| EcPoint.DecompressUncompressed | internal/crypto/ecdh.go:105-106 | of the inputs that begin with 04 exactly the encodings of points of the curve are accepted |
| EcPoint.RejectedIff | internal/crypto/ecdh.go:97-148 | for every input, which error, and when |
| Jwk.Pad | internal/service/eudiw_handlers.go:306-314 | the padding loop yields the fixed-width coordinate |
| Jwk.PubKeyToJwk | internal/service/eudiw_handlers.go:270-326 | every branch of the conversion, the panic on an empty point included |
| Jwk.ConvertIff | internal/service/eudiw_handlers.go:270-326 | for every input: which coordinates are published, compressed bytes only as a point of the curve, and when it fails or panics |
| Jwk.PublishedCoordinates | internal/service/eudiw_handlers.go:291-314 | a point compressed for the store is published with exactly the coordinates the HSM reported |
| Sessions.SessionStore.Create | internal/pake/session.go:35-45 | refuses a present id, else adds exactly that session |
| Sessions.SessionStore.Get | internal/pake/session.go:48-62 | the shared object exactly when present and unexpired |
| Sessions.SessionStore.MarkVerified | internal/pake/session.go:65-76 | sets the flag of that session's object and nothing else |
| Sessions.SessionStore.Delete | internal/pake/session.go:79-84 | removes exactly that session |
| Sessions.SessionStore.CleanExpired | internal/pake/session.go:87-100 | removes exactly the expired sessions and returns how far the count dropped, for every iteration order |
| Sessions.CleaningInvisible | internal/pake/session.go:35-100 | on every run with monotone clock and fresh ids, `Get` answers as in a store that never cleans |
| Attempts.AttemptCounter.Check | internal/pake/counter.go:37-56 | refuses exactly while locked, forgets a lock that ran out |
| Attempts.AttemptCounter.RecordFailure | internal/pake/counter.go:59-77 | counts, and moves the lock once full |
| Attempts.AttemptCounter.RecordSuccess | internal/pake/counter.go:80-85 | wipes exactly that key |
| Attempts.TableIsHistory | internal/pake/counter.go:37-85 | after every history: a record exactly for keys that failed since their last reset, with that number of failures and, once full, the last failure's time |
| Attempts.LockoutHolds | internal/pake/counter.go:37-85 | after a locking failure at t every check before t plus the lockout is refused unless a success intervenes |
| Tokens.TokenEncryptor.Encrypt | internal/webauthn/token.go:51-65 | remembers what it sealed |
| Tokens.TokenEncryptor.Decrypt | internal/webauthn/token.go:68-95 | opens exactly sealed tokens whose age, from the rounded-down issue second, is within the lifetime |
| Stores.MemoryStore.AllocateIndex | internal/store/memory.go:33-43 | hands out the counter and adds a valid entry |
| Stores.MemoryStore.GetStatus | internal/store/memory.go:45-56 | the status, or not found |
| Stores.MemoryStore.SetStatus | internal/store/memory.go:58-69 | changes only an entry that exists |
| Stores.MemoryStore.GetAllStatuses | internal/store/memory.go:71-83 | a copy of the category's entries |
| Stores.MemoryStore.RecordWUA | internal/store/memory.go:85-91 | appends to the list under the joined key |
| Stores.MemoryStore.GetClientIndices | internal/store/memory.go:93-101 | the list under the joined key |
| Stores.MemoryStore.RecordUsage | internal/store/memory.go:103-109 | marks one usage key |
| Stores.MemoryStore.IsUsed | internal/store/memory.go:111-116 | whether that key was marked |
| Stores.MemoryStore.PutRecordFor | internal/store/memory.go:147-154 | replaces the record under the joined key |
| Stores.MemoryStore.GetRecordOf | internal/store/memory.go:156-167 | the record under the joined key |
| Stores.MemoryStore.PutWebAuthnCredential | internal/store/memory.go:169-175 | appends the credential |
| Stores.MemoryStore.GetWebAuthnCredential | internal/store/memory.go:177-189 | the credentials, or missing when there are none |
| Stores.MemoryStore.UpdateWebAuthnSignCount | internal/store/memory.go:191-202 | the loop changes the count of the first credential with the id |
| Stores.StepLaws | internal/store/memory.go:85-202 | what every operation of the keyed store answers and leaves, under its key and under every other |
| Stores.FirstMatch | internal/store/memory.go:195-200 | the first position with the id: none before it matches |
| StoreKeys.InjectiveIffUnambiguous | internal/store/memory.go:88 | joined keys are injective over a set of contexts exactly when none is a string, a bar and another of them |
| StoreKeys.RefinesIffUnambiguous | internal/store/memory.go:85-202 | the string-keyed store answers every call of every run like the pair-keyed one, if and only if the contexts are unambiguous |
| StoreKeys.RunsAgreeUpTo | internal/store/mongodb.go:308-465 | the simulation relation between both stores holds after every prefix |
| StoreKeys.AmbiguousRun | internal/store/memory.go:147-167 | an ambiguous pair of contexts has a two-call run with different answers |
| StoreKeys.UsageKeyInjective | internal/store/memory.go:103-116 | usage keys never collide, whatever the category |
| StoreKeys.CounterKeyInjectiveIff | internal/pake/counter.go:32-34 | lockout keys are injective over a set of contexts exactly when no context, doubled, is a string, a bar and another one doubled; contexts without a bar always are |
| StoreKeys.CounterKeysCollide | internal/pake/counter.go:32-34 | any context and its doubling share lockout keys of different clients |
| Sad.ParseSADTask | internal/service/sad.go:20-48 | the splitting loop keeps exactly the elements that trim and decode to a 32, 48 or 64 byte hash |
| Sad.ListsIff | internal/service/sad.go:20-48 | the parser finds in any task exactly the hashes of 32, 48 or 64 bytes that an element after "sign:" spells in hexadecimal of either case, between white space |
| Sad.AllowsIff | internal/service/sad.go:52-77 | a hash may be signed exactly when the task lists it, or its SHA-256, or nothing |
| Sad.ParsePrintedTask | internal/service/sad.go:20-48 | parsing the printed task of any non-empty list of such hashes gives it back |
| Sad.BytesEqualConstant | internal/service/sad.go:80-89 | the xor/or loop decides equality |
| Sad.ValidateSAD | internal/service/sad.go:52-77 | accepts exactly a listed hash, one whose SHA-256 is listed, or an unbound session |
| Dispatcher.Dispatcher.constructor | internal/service/dispatcher.go:120-165 | starts empty, with defaults for values left at zero |
| Dispatcher.Dispatcher.RegFinalizeStep | internal/service/dispatcher.go:295-316 | stores the record that the message deserialises to, with no session needed, and refuses one that does not |
| Dispatcher.Dispatcher.AuthEvaluateStep | internal/service/dispatcher.go:318-366 | lockout check, record or fake record, session of the lifetime that `Runs.LifetimeExact` gives |
| Dispatcher.Dispatcher.AuthFinalizeStep | internal/service/dispatcher.go:368-396 | a matching KE3 verifies the session and resets the counter, any other counts a failure and removes it |
| Dispatcher.Dispatcher.Handle2FAChangeStep | internal/service/dispatcher.go:399-414 | the gate, then the credential operations |
| Dispatcher.Dispatcher.GateStep | internal/service/dispatcher.go:427-438 | a live, verified session of the same context |
| Dispatcher.Dispatcher.HandleServiceStep | internal/service/dispatcher.go:416-459 | the gate, the SAD check, then the handler, which decodes the data again |
| Dispatcher.Dispatcher.ProcessStep | internal/service/dispatcher.go:229-278 | routing by type, protocol and state computes `Process` on the whole state |
| Dispatcher.Dispatcher.CleanupTick | internal/service/dispatcher.go:168-180 | a tick removes the expired sessions and touches nothing else |
| Dispatcher.Dispatcher.FidoAuthChallengeStep | internal/service/fido2.go:282-310 | lockout check, then a token bound to client and context |
| Dispatcher.Dispatcher.FidoRegisterStep | internal/service/fido2.go:154-278 | a registration on its reachable type appends the verified credential |
| Dispatcher.Dispatcher.FindCredential | internal/service/fido2.go:363-380 | the search loop finds the first credential with the id |
| Dispatcher.Dispatcher.FidoAuthFinalizeStep | internal/service/fido2.go:314-421 | token, credential and assertion in order, a failure counted exactly for those of `AttemptHistory.FailsFido` |
| Dispatcher.Dispatcher.FidoOpenSessionStep | internal/service/fido2.go:417-498 | the count is stored even if the rest fails; then a verified session bound to the task |
| Replies.Routed | internal/service/dispatcher.go:229-278 | every request goes to the operation of its type, protocol and state, a change only through the gate, anything else to its handler |
| Replies.ServiceReplies | internal/service/dispatcher.go:416-459 | a service request gets the code of the first check that fails, and a signing request that passes them all gets exactly the hash it sent signed |
| Replies.PasswordReplies | internal/service/dispatcher.go:281-396 | the first failing check of each OPAQUE operation |
| Replies.ChallengeReplies | internal/service/fido2.go:282-310 | a challenge is refused only to a locked login |
| Replies.RegistrationReplies | internal/service/fido2.go:154-278 | the first failing check of a FIDO2 registration, and the challenge it is judged on |
| Replies.FinalizeReplies | internal/service/fido2.go:314-498 | the first failing check of a FIDO2 finalize, in order |
| Replies.DefaultsAre | internal/service/dispatcher.go:130-145 | the defaults in failures and nanoseconds |
| Runs.ProcessStep | internal/service/dispatcher.go:229-459 | every request changes the session map in one of four ways, each with its full cause |
| Runs.SessionTtlBound | internal/service/dispatcher.go:336-342 | the lifetime never exceeds the server's, even if the product wraps |
| Runs.LifetimeExact | internal/service/dispatcher.go:335-342 | the lifetime is the smaller of the requested one and the server's, the server's when none is requested, and exactly that of the wrapped int64 product beyond |
| Runs.ProcessSeals | internal/service/fido2.go:127-150 | only challenge replies seal a token |
| Runs.TokensWereIssued | internal/service/fido2.go:334-342 | a token that opens was carried by an earlier reply of the run, to that client and context |
| Runs.FailureDrops | internal/service/dispatcher.go:374-379 | a failed finalize removes its session |
| Authentication.EverySessionHasOrigin | internal/service/dispatcher.go:344-356 | each stored session stems from one creation event; its flag from creation or a KE3 matching its own MAC; no finalize of it failed since |
| Authentication.GateImpliesAuthenticated | internal/service/dispatcher.go:318-437 | in every run a request passing the gate names a session authenticated in that run by OPAQUE or by a FIDO2 finalize whose very token an earlier event issued, to the same client and context and within the token lifetime; its client data carry the very challenge of that event, and a registered key of the curve signed them; unexpired, with exactly the expiry that its creation set, in its creating context |
| Authentication.AcceptedIsSigned | internal/webauthn/verify.go:30-104 | an accepted finalize, on its raw bytes: client data, RP ID hash, flags, count, stored key and signature |
| Authentication.GateIsNecessary | internal/service/dispatcher.go:399-438 | without the gate a protected request fails and changes nothing |
| Authentication.ServiceIgnoresClient | internal/service/dispatcher.go:416-459 | a service request is answered alike for every client that names the session |
| Authentication.OnlyOwnersPassIff | internal/service/dispatcher.go:427-438 | only the owners of sessions pass the gate exactly when no session is live and verified |
| Counterexamples.BorrowedSessionSigns | internal/service/dispatcher.go:416-459 | a valid run in which the HSM signs for one client in the session that another has opened |
| Authentication.FailedNeverReturns | internal/service/dispatcher.go:374-379 | with fresh ids a session whose finalize failed is never stored again |
| Authentication.SignsOnlyAllowed | internal/service/handlers.go:45-76 | the HSM signs only in an authenticated session and only a hash that its task allows |
| Authentication.SignedPassesGate | internal/service/dispatcher.go:440-455 | gate and handler decode the same data the same way, so no signature avoids the SAD check |
| Records.RecordIsLastRegistered | internal/service/dispatcher.go:295-328 | the record a login is evaluated against is the last one registered for the key |
| Records.LoginUsesLastRegistered | internal/service/dispatcher.go:318-331 | every login that is answered was evaluated against the record last registered for its client and context, or a fake one when none ever was |
| Records.ChangeIsAuthenticated | internal/service/dispatcher.go:399-414 | a changed record implies an authenticated session |
| Records.RegistrationStores | internal/service/fido2.go:198-278 | a FIDO2 registration appends one credential with the ID, AAGUID and count of the verified attestation and the time in seconds, whose key unmarshals to the attested point |
| Records.AttestsMeans | internal/service/fido2.go:198-258 | what the verified attestation is, on the raw bytes: client data with the challenge, RP ID hash, UP, UV and AT, a key of the curve |
| Records.RegisteredKeyIsUsed | internal/service/fido2.go:154-278 | at every later moment of every run a finalize asserting its ID is verified against the attested key, with a count at least the attested one, if and only if the ID was not registered before |
| Records.RegistrationAnswersIff | internal/service/fido2.go:198-258 | over runs, the challenge that an accepted registration answers, and that its client data carry, was issued to the same client and context within the token lifetime if and only if the request names a token (drawn challenges are never empty) |
| DuplicateCredentials.SecondKeyIsNeverUsed | internal/service/fido2.go:154-421 | a valid run that registers two keys under one ID, both accepted, after which the second key's finalize fails and the first one's succeeds |
| DuplicateCredentials.NothingWasIssued | internal/service/fido2.go:198-258 | a run whose accepted registrations answer no issued challenge |
| Lockout.ProcessAttempts | internal/service/dispatcher.go:318-387 | every change a request can make to the attempt table |
| AttemptHistory.AttemptsExact | internal/service/dispatcher.go:318-387 | the exact effect of every request on the attempt table, by a condition on request and state: a failure, a success, a check, or nothing |
| AttemptHistory.FinalizeEffect | internal/service/fido2.go:363-414 | a FIDO2 finalize with a bound token that decodes counts a failure exactly when no credential has its ID or its assertion is refused |
| AttemptHistory.RunIsHistory | internal/pake/counter.go:37-85 | the attempt table of every run is that of the history of its failures, successes and checks, so that `Attempts.TableIsHistory` describes it |
| AttemptHistory.FailuresLock | internal/service/fido2.go:411-414 | over runs, as many failed finalizes of either kind as the limit, with no success or check of the key between them, leave it locked for the whole lockout |
| Lockout.ClientKeyIff | internal/service/fido2.go:423-431 | the client key of a finalize is accepted exactly when it encodes a point of the curve |
| Lockout.LockoutHolds | internal/service/dispatcher.go:319-322 | over whole runs, a request that starts a login for a locked key before the lockout ends, with no login succeeded in between, is refused if and only if it asks the counter; a FIDO2 registration challenge does not and gets its challenge |
| Lockout.EveryLoginWasStarted | internal/service/fido2.go:324-342 | every FIDO2 session answers the challenge of an earlier request of those kinds, registration challenges included |
| Lockout.LockedLoginComesFrom | internal/service/fido2.go:127-150 | a finalize inside the lockout answers a challenge from before the lock or one of the registration kind |
| Lockout.RegistrationChallengeServesLogin | internal/service/fido2.go:127-310 | in every state, locked or not, a registration challenge has the reply of an authentication challenge without failures, and so have all later requests that do not ask the counter |
| LockedLogin.LockedClientLogsIn | internal/service/fido2.go:127-342 | a valid run in which a locked client gets a registration challenge and opens a session with its token while still locked |
| Lockout.RepliesIgnoreAttempts | internal/service/dispatcher.go:368-396 | the reply to any request that does not ask the counter, a finalize included, is the same whatever the attempt table holds |
| Lockout.LockStopsExactlyAsking | internal/pake/counter.go:37-56 | of the requests of a locked key, the lock changes the reply to exactly those that ask the counter |
| Lockout.CompletesIff | internal/service/dispatcher.go:368-396 | a password login completes exactly with a live session's matching KE3, a FIDO2 login exactly with an accepted assertion, a client key and a free id |
| Lockout.LockEndsIff | internal/pake/counter.go:59-85 | of the requests served while a key is locked exactly those that name its client and context and complete a login, by a condition on request and state, end the lock; all others leave it or move it to the present |
| Lockout.FinalizeIgnoresClient | internal/service/dispatcher.go:368-396 | the reply to a finalize and its effect on sessions are the same for every client, and its effect on the counter goes to the client that is named |
| Counterexamples.FinalizePassesLockout | internal/service/dispatcher.go:368-396 | a valid run, for any opener of the session, in which a finalize is let through while the named client is locked out, and wipes the lock |
| SignCounts.ProcessCounts | internal/service/fido2.go:369-421 | an accepted assertion sets exactly one count that passed the rule, all else only appends |
| SignCounts.CountsNeverDecrease | internal/store/memory.go:191-202 | over every run a credential keeps place and identity and its count never decreases |
| SignCounts.NoCountTwice | internal/webauthn/verify.go:95-101 | over every run no non-zero count is accepted twice for a credential |
| SignCounts.MatchStaysOverRun | internal/service/fido2.go:369-376 | the credential that an ID selects stays the same one over every run |
| Replay.SealedStays | internal/webauthn/token.go:51-95 | with fresh ciphertexts a sealed token is never replaced |
| Replay.ReplayAcceptedIff | internal/service/fido2.go:334-421 | over runs, an accepted finalize sent again is accepted again exactly when its count and the stored one are zero and its token has not run out |
| Replay.ReplayOpensIff | internal/service/fido2.go:334-498 | and it then opens another session, under the same conditions |
| Counterexamples.ReplayOpensTwo | internal/service/fido2.go:334-498 | a valid run in which the very same finalize opens two sessions |
| CountRace.SplitIsProcess | internal/service/fido2.go:314-421 | the read-and-judge step followed at once by the write step is the whole request |
| CountRace.EveryPendingWasRead | internal/service/fido2.go:363-418 | whatever is written was read and judged by one earlier event of the same request |
| CountRace.CountsNeverDecrease | internal/store/memory.go:177-202 | in every interleaving in which accepted finalizes of a credential take turns its stored count never decreases |
| CountRace.NoCountTwice | internal/webauthn/verify.go:95-101 | and no non-zero count is accepted twice for it |
| CountRace.StaysOpen | internal/service/fido2.go:363-418 | whatever other requests do, an accepted finalize stays pending until its own write |
| CountRace.OverlapAcceptsBoth | internal/service/fido2.go:363-421 | after every run, with any events in between and either write first, two finalizes whose windows overlap both write, each its own count, whatever the counts |
| CountRace.TurnsJudgeAgain | internal/service/fido2.go:363-421 | had the second read waited for the first write, it would be accepted exactly when its count passes the rule against the first's |
| Counterexamples.RaceFromStart | internal/service/fido2.go:363-421 | for all counts stored < other <= one a run from start-up accepts both and ends at the smaller |
| Interleaving.StepIsStoreOperation | internal/pake/session.go:35-100 | each lock-level step changes the stored contents as one call of the session store |
| Interleaving.LiveIsGet | internal/pake/session.go:48-62 | the pointers that requests fetch are those `Get` returns |
| Interleaving.EveryRun | internal/service/dispatcher.go:368-387 | in every interleaving created ids are the disjoint union of stored, failed and expired ids |
| Interleaving.RemovedForever | internal/pake/session.go:65-100 | a removed session is never retrievable again and its object never becomes verified |
| Interleaving.FlagHasCause | internal/service/dispatcher.go:374-385 | a flag is set only by FIDO2 creation or by a KE3 for that object while it is stored |
| Interleaving.PassImpliesAuthenticated | internal/service/dispatcher.go:427-438 | in every interleaving a request let through holds such a session, unexpired when fetched |
| Interleaving.LatePassWasFetchedBefore | internal/service/dispatcher.go:427-438 | a request let through in a session already removed had fetched it before |
| Interleaving.LatePassIff | internal/service/dispatcher.go:427-438 | of the requests in flight at a removal exactly those pass whose context is the session's, when its flag was set by then |
| Interleaving.PassAfterCleaning | internal/pake/session.go:85-100 | a session is cleaned away while a request holds it, which passes |
| StatusList.MaxIndex | internal/statuslist/statuslist.go:72-77 | the loop finds the largest index, at least 0 |
| StatusList.PlaceField | internal/statuslist/statuslist.go:89-92 | OR-ing a status into an empty slot stores its low two bits there and nowhere else |
| StatusList.ByteLayout | internal/statuslist/statuslist.go:89-92 | a byte is its four entries, the first in the lowest bits |
| StatusList.Merge | internal/statuslist/statuslist.go:87-93 | one iteration in place changes one entry of the list |
| StatusList.Pack | internal/statuslist/statuslist.go:69-93 | for every map and iteration order each entry reads back as stored, absent and padding entries as 0, in maxIdx/4+1 bytes |
| StatusList.OrderIsInvisible | internal/statuslist/statuslist.go:87-93 | bytes are determined by what they publish |
| Lifecycle.HandleWKA | internal/service/eudiw_handlers.go:72-156 | exactly the keys of `AttestIs` are attested, and one index is allocated and recorded only if there is one; the list number is the index divided by 1000 |
| Lifecycle.HandleWIA | internal/service/eudiw_handlers.go:181-258 | the same for the first key |
| Lifecycle.AttestIs | internal/service/eudiw_handlers.go:86-96 | the k-th attested key is that of the k-th resolvable kid in request order, each once; or the first kid that ends the request decides how |
| Lifecycle.IssueIsEvents | internal/service/eudiw_handlers.go:111-117 | the allocation of a handler is two store events of the interleaved model |
| Lifecycle.LoopIsSetAll | internal/service/eudiw_handlers.go:370-382 | the loop of a handler is the events of the interleaved model, when nothing comes between them |
| Lifecycle.SetClientStatus | internal/service/eudiw_handlers.go:367-418 | the nested loops of revoke and suspend set the recorded indices and count the successes |
| Lifecycle.SetsExactlyOwn | internal/service/eudiw_handlers.go:367-418 | in every reachable state an uninterrupted revoke changes exactly the caller's entries, all of them, and counts them |
| Lifecycle.EveryRun | internal/store/memory.go:33-91 | in every interleaving indices are exactly 0..counter-1 and each recorded one belongs to one client, once |
| Lifecycle.ReferenceStays | internal/service/eudiw_handlers.go:128-136 | an issued reference keeps its entry, which only a write to it changes |
| Lifecycle.Serve | internal/statuslist/statuslist.go:53-93 | every list published for a category, whatever its number, gives each entry the low two bits of its current status |
| Revocation.StatusInRange | internal/admin/admin.go:181-189 | in every run stored statuses are 0, 1 or 2, so the published bits are the whole status |
| Revocation.StatusIsLastSet | internal/store/memory.go:58-69 | in every interleaving an entry holds the status last written to it, and is valid if none was |
| Revocation.RevocationStands | internal/service/eudiw_handlers.go:367-418 | a revocation stands exactly when nothing is written afterwards, or the last thing written is a revocation |
| Revocation.SuspensionReplacesRevocation | internal/service/eudiw_handlers.go:389-418 | a run in which a revoked client's entry ends suspended |
| Revocation.LoopWrites | internal/service/eudiw_handlers.go:370-382 | one store call at a time beside other handlers, the loop writes exactly the entries of the list as it was fetched |
| Revocation.RevokeMisses | internal/service/eudiw_handlers.go:367-385 | of the indices recorded at its end a revoke has written exactly those recorded when it fetched the list; the others were pending or not yet allocated then |
| Revocation.RevokeMissesPending | internal/service/eudiw_handlers.go:128-136 | a run in which an index recorded just afterwards stays valid |
| HsmPool.NewPool | internal/hsm/pkcs11.go:68-110 | construction fills the pool, with distinct sessions if the token opens such, or closes every session it opened, each once |
| HsmPool.EveryRun | internal/hsm/pkcs11.go:113-125 | pooled and held handles stay a disjoint split of the opened ones, and release never blocks |
| HsmPool.FirstInFirstOut | internal/hsm/pkcs11.go:113-125 | over every run sessions are taken in exactly the order in which the pool held and got them |
| HsmPool.NoDeadlock | internal/hsm/pkcs11.go:113-125 | from every state a waiting operation has a continuation in which it gets a session |
| HsmPool.PoolServesEveryWaiter | internal/hsm/pkcs11.go:68-125 | from construction on, after every run, every waiting operation has such a continuation, by the calls and release of one holder |
| KeyPublication.NextInvariant | internal/hsm/pkcs11.go:165-223 | each PKCS#11 call of any generation keeps temporary ids unique and public ids ahead of private ones |
| KeyPublication.FoundKeyIsPublished | internal/hsm/pkcs11.go:165-223 | from an empty token, under every interleaving, a private key found under any id is that kid's own pair, already published, or the one key that still has this 16-byte temporary id |
| KeyPublication.GeneratedStaysUsable | internal/hsm/pkcs11.go:205-223 | a generation that ran to its end is found under its kid, published, after every continuation |
| KdfInfo.HkdfInfo | internal/crypto/jwe.go:87-101 | the appends build the three length-prefixed fields |
| KdfInfo.InfoParses | internal/crypto/jwe.go:87-101 | the encoding parses back for all fields below 2^32 bytes |
| KdfInfo.ParsedIsInfo | internal/crypto/jwe.go:87-101 | whatever parses is the encoding of what it parses to |
| KdfInfo.InfoInjective | internal/crypto/jwe.go:87-101 | different fields, different info |
| KdfInfo.LongFieldsCollide | internal/crypto/jwe.go:95-101 | two different triples with a field of 2^32 bytes or more share their info, since the prefix truncates |
| KdfInfo.InjectiveIffBelow | internal/crypto/jwe.go:87-101 | for every n, info is injective on fields of fewer than n bytes exactly when n is at most 2^32 |
| KdfInfo.TranscriptParts | internal/service/fido2.go:454-460 | the transcript is the text "fido2", the client's key, the server's key and the task, each at its place |
| KdfInfo.TranscriptInjective | internal/service/fido2.go:423-462 | the unprefixed transcript binds both keys and the task |

## Left out

- HTTP servers, the admin API's handlers (but for its allocations and status writes, as events of `Lifecycle`), authentication middleware, configuration, logging, metrics and audit.
- The checks before routing in `Process` (JWS, version, nonce length, issue time) and the signing of responses.
- OPAQUE, AES-GCM, SHA-256, HKDF, ECDSA and elliptic-curve arithmetic: libraries, taken as functions or ideal operations.
- JSON, base64, PEM and DEFLATE: the status list is modelled before compression.
- MongoDB input and output: only its pair-keyed filters, as reference semantics.
- Handlers other than signing and attestation issue: they appear only as "served after the gate".
- Failures of JWT signing after an index has been recorded, and of the HSM inside `backend.Sign`.
- The records of the attempt counter are values in its map, not objects: their pointers never leave the lock.
- The change and update branches inside `fido2RegRegister`: `handleFIDO2` never routes those types there.
- `rawSigToASN1`, key listing and the ECDH operation's own calls.
- `Close` of the pool while operations are in flight.
- The public-key table of the store appears only in attestation issue; its put and list operations are not modelled.
- HsmPool.PoolServesEveryWaiter: gives a continuation in which the operation is served; it does not say that a scheduler picks it.
- SignCounts.NoCountTwice: for one request at a time; CountRace.NoCountTwice has concurrent ones, for finalizes of a credential that take turns, because overlapping ones break it (CountRace.OverlapAcceptsBoth).
