/** A run from start-up in which two authenticators register under one credential ID. */
module DuplicateCredentials {
  import opened Bytes
  import opened Cbor
  import opened Tokens
  import opened Protocol
  import opened Records
  import opened Counterexamples
  import Runs
  import Attempts
  import Attestation
  import AuthData
  import EcPoint
  import Stores
  import WebAuthn

  // ---------- two attestations ----------

  /** The COSE key of the point (0, y). */
  function CoseOf(y: byte): Item {
    Map(W0, [Integer(true, W0, 1), ByteString(W1, Zeros(32)), Integer(true, W0, 2), ByteString(W1, Zeros(31) + [y])])
  }

  /** A user-verified report with an empty credential ID and that key. */
  function ReportOf(y: byte): AuthData.Report {
    AuthData.Report(HASH, 0x45, 0, Some(AuthData.Attested(Zeros(16), [], CoseOf(y))))
  }

  lemma {:induction false} ZerosAreZero(n: nat)
    ensures FromBE(Zeros(n)) == 0
  {
    if n > 0 {
      assert Zeros(n)[..n - 1] == Zeros(n - 1);
      ZerosAreZero(n - 1);
    }
  }

  lemma CoseItems(y: byte)
    ensures var items := CoseOf(y).items;
            && items[2..] == [Integer(true, W0, 2), ByteString(W1, Zeros(31) + [y])] && items[2..][2..] == []
            && items[1..][1..] == items[2..] && items[2..][1..][1..] == []
  {
  }

  lemma CoseIsMap(y: byte)
    ensures WellFormed(CoseOf(y)) && AuthData.CoseMapItem(CoseOf(y))
    ensures |Print(CoseOf(y))| == 71
  {
    var items := CoseOf(y).items;
    CoseItems(y);
    assert AuthData.CosePairs(items[2..]);
    assert AllWellFormed(items[2..][1..]);
    assert AllWellFormed(items[2..]);
    assert AllWellFormed(items[1..]);
    PrintPair(items);
    PrintPair(items[2..]);
  }

  lemma CoseKey(y: byte)
    requires 1 <= y <= 2
    ensures AuthData.KeyOfEntries(SMALL_CURVE, AuthData.ByteEntries(CoseOf(y).items, map[]))
         == AuthData.KeyRead(EcPoint.Point(0, y))
  {
    CoseItems(y);
    ZerosAreZero(32);
    ZerosAreZero(31);
    assert (Zeros(31) + [y])[..31] == Zeros(31);
    var items := CoseOf(y).items;
    var x: AuthData.CoseMap := map[-2 := Zeros(32)];
    var xy := x[-3 := Zeros(31) + [y]];
    assert AuthData.ByteEntries(items, map[]) == AuthData.ByteEntries(items[2..], x);
    assert AuthData.ByteEntries(items[2..], x) == AuthData.ByteEntries([], xy) == xy;
  }

  lemma ReportIsWellFormed(y: byte)
    ensures AuthData.WellFormedReport(ReportOf(y))
    ensures |AuthData.PrintReport(ReportOf(y))| == 126
  {
    CoseIsMap(y);
  }

  /** The attestation object with that report. */
  function ObjectOf(y: byte): (obj: Item)
    ensures WellFormed(obj)
  {
    ReportIsWellFormed(y);
    var items := [TextString(W0, Attestation.AUTH_DATA), ByteString(W1, AuthData.PrintReport(ReportOf(y)))];
    assert AllWellFormed(items[1..][1..]);
    assert AllWellFormed(items[1..]);
    Map(W0, items)
  }

  // ---------- the run ----------

  /** Libraries under which a signature [y] verifies for the key (0, y). Request [1]
      registers the key (0, 1), [2] the key (0, 2), [0] asks for a challenge, and [3]
      and [4] are finalizes signed with the first and the second key. */
  function Libraries(): Codec {
    Codec(
      tfa := data =>
        Some(if data == [0] then TFA("fido2", "challenge", "", "", 0)
             else if data == [1] then TFA("fido2", "register", "first", "", 0)
             else if data == [2] then TFA("fido2", "register", "second", "", 0)
             else if data == [3] then TFA("fido2", "finalize", "by first", "", 0)
             else TFA("fido2", "finalize", "by second", "", 0)),
      sign := _ => None,
      fidoFinalize := pData => Some(FidoFinalize("epub", "token", "", "id", "data", "get", pData)),
      fidoRegister := pData => Some(FidoRegister(pData, "create")),
      base64 := encoded =>
        Some(if encoded == "first" then Print(ObjectOf(1)) else if encoded == "second" then Print(ObjectOf(2))
             else if encoded == "by first" || encoded == "create" then [1]
             else if encoded == "by second" || encoded == "get" then [2]
             else if encoded == "data" then DataWith(1) else if encoded == "token" then [3]
             else if encoded == "epub" then [4, 0, 1] else []),
      spare := _ => [],
      record := _ => None,
      registrationResponse := (_, _) => false,
      evaluate := (_, _, _, _) => None,
      finish := (_, _) => false,
      webauthn := WebAuthn.Primitives(
        _ => HASH,
        raw => Some(if raw == [1] then WebAuthn.ClientData("webauthn.create", "", "")
                    else WebAuthn.ClientData("webauthn.get", "c", "")),
        (key: EcPoint.Point, _: seq<byte>, signature: seq<byte>) => signature == [if key.y == 1 then 1 else 2]))
  }

  function Settings(): (cfg: Config)
    ensures ValidConfig(cfg)
  {
    Config(Libraries(), Attempts.Policy(5, 900 * SECOND), 300 * SECOND, 60 * SECOND, true,
           WebAuthn.RelyingParty([], [""], SMALL_CURVE), map[])
  }

  function Registering(y: byte): Request {
    Request("alice", "hsm", "2fa_registration", "", [y])
  }

  function LoggingIn(data: seq<byte>): Request {
    Request("alice", "hsm", "2fa_authenticate", "", data)
  }

  /** Two registrations, a challenge, and a finalize with each key. */
  function TwoKeys(): (r: Runs.Run)
    ensures ValidConfig(r.cfg)
  {
    Runs.Run(Settings(), Stores.Empty(), [
      Runs.Serve(0, Registering(1), DrawOf("s1", [1])),
      Runs.Serve(0, Registering(2), DrawOf("s2", [2])),
      Runs.Serve(0, LoggingIn([0]), DrawOf("s3", [3])),
      Runs.Serve(0, LoggingIn([4]), DrawOf("s4", [4])),
      Runs.Serve(0, LoggingIn([3]), DrawOf("s5", [5]))])
  }

  /** Either attestation verifies. */
  lemma AttestationVerifies(y: byte)
    requires 1 <= y <= 2
    ensures var cfg := Settings();
            WebAuthn.JudgeRegistration(cfg.codec.webauthn, cfg.rp, Print(ObjectOf(y)), [], [1], "")
            == WebAuthn.Verified(AuthData.AuthenticatorData(HASH, 0x45, 0, Zeros(16), [], Some(EcPoint.Point(0, y))))
  {
    hide WebAuthn.JudgeRegistration, Print, AuthData.PrintReport, AuthData.KeyOfEntries, AuthData.ByteEntries,
         AuthData.CoseMapItem;
    var cfg, obj := Settings(), ObjectOf(y);
    ReportIsWellFormed(y);
    CoseKey(y);
    assert AuthData.HasFlag(0x45, AuthData.FLAG_UP) && AuthData.HasFlag(0x45, AuthData.FLAG_UV);
    assert Print(obj) + [] == Print(obj);
    assert AuthData.PrintReport(ReportOf(y)) + [] == AuthData.PrintReport(ReportOf(y));
    WebAuthn.PrintedRegistration(cfg.codec.webauthn, cfg.rp, obj, ReportOf(y), [], [], [], [1], "");
  }

  /** What registering the key (0, y) stores. */
  function CredentialOf(y: byte): Stores.Credential {
    Stores.Credential([], EcPoint.MarshalUncompressed(SMALL_CURVE, EcPoint.Point(0, y)), 0, Zeros(16), 0)
  }

  function WithCredentials(creds: seq<Stores.Credential>): State {
    State(map[], map[], Stores.Keyed(map[], if creds == [] then map[] else map["alice|hsm" := creds], map[]), map[])
  }

  function RegisterOf(y: byte): TFA {
    TFA("fido2", "register", if y == 1 then "first" else "second", "", 0)
  }

  lemma AliceKey()
    ensures StoreKeyOf(Registering(1)) == StoreKeyOf(Registering(2)) == "alice|hsm"
  {
  }

  lemma NoToken(y: byte)
    ensures RegisterOf(y).authorization == "" && RegisterOf(y).protocol == "fido2" && RegisterOf(y).state == "register"
  {
  }

  lemma RegistrationInputs(y: byte)
    requires 1 <= y <= 2
    ensures var (codec, pData) := (Settings().codec, RegisterOf(y).pData);
            && codec.tfa([y]) == Some(RegisterOf(y)) && codec.fidoRegister(pData) == Some(FidoRegister(pData, "create"))
            && codec.base64(pData) == Some(Print(ObjectOf(y))) && codec.base64("create") == Some([1])
            && codec.spare(pData) == [] && Settings().rp.curve == SMALL_CURVE && Settings().fido2
  {
    hide ObjectOf, Print, DataWith, HASH;
  }

  lemma AppendsKey(creds: seq<Stores.Credential>, y: byte)
    requires 1 <= y <= 2
    ensures FidoRegisterCredential(Settings(), WithCredentials(creds), Registering(y), RegisterOf(y), 0)
         == (WithCredentials(creds + [CredentialOf(y)]), Registered)
  {
    hide WebAuthn.JudgeRegistration, ObjectOf, Print, EcPoint.MarshalUncompressed, Zeros, BoundToken, StoreKeyOf,
         Settings, HASH, RegisterOf;
    RegistrationInputs(y);
    AttestationVerifies(y);
    assert RegisterOf(y).authorization == "" by { NoToken(y); }
    AliceKey();
    assert StoreKeyOf(Registering(y)) == "alice|hsm";
    var s, cfg := WithCredentials(creds), Settings();
    var (t, reply) := FidoRegisterCredential(cfg, s, Registering(y), RegisterOf(y), 0);
    assert reply == Registered;
    assert Stores.At(s.store.credentials, "alice|hsm") == creds;
    assert t.store.credentials == map["alice|hsm" := creds + [CredentialOf(y)]];
  }

  lemma RegistersKey(creds: seq<Stores.Credential>, y: byte, draw: Draw)
    requires 1 <= y <= 2
    ensures Runs.Next(Settings(), WithCredentials(creds), Runs.Serve(0, Registering(y), draw))
         == (WithCredentials(creds + [CredentialOf(y)]), Registered)
  {
    hide FidoRegisterCredential, WithCredentials, CredentialOf, HandleOpaque, HandleService, Handle2FAChange, ObjectOf,
         Zeros, Settings, Print, FidoAuthFinalize, FidoAuthChallenge, HASH, IssueToken, RegisterOf;
    RegistrationInputs(y);
    NoToken(y);
    AppendsKey(creds, y);
  }

  lemma StartsEmpty()
    ensures Runs.After(TwoKeys(), 0) == WithCredentials([])
  {
    hide Settings;
  }

  lemma BothRegister()
    ensures var r := TwoKeys();
            && Runs.ReplyTo(r, 0) == Registered && Runs.ReplyTo(r, 1) == Registered
            && Runs.After(r, 2) == WithCredentials([CredentialOf(1), CredentialOf(2)])
  {
    hide Runs.Next, Runs.After, Runs.ReplyTo, Settings, WithCredentials, CredentialOf, HASH;
    var r := TwoKeys();
    StartsEmpty();
    RegistersKey([], 1, DrawOf("s1", [1]));
    RegistersKey([CredentialOf(1)], 2, DrawOf("s2", [2]));
    AfterStep(r, 0);
    AfterStep(r, 1);
    assert [] + [CredentialOf(1)] == [CredentialOf(1)];
    assert [CredentialOf(1)] + [CredentialOf(2)] == [CredentialOf(1), CredentialOf(2)];
  }

  /** Alice's challenge is sealed, whatever failures are counted. */
  function Ready(attempts: Attempts.Table): State {
    WithCredentials([CredentialOf(1), CredentialOf(2)]).(
      sealed := map[[3] := ChallengeToken(0, "alice", "hsm", "c")], attempts := attempts)
  }

  /** A request of Alice's that logs in is handled by its FIDO2 handler. */
  lemma Routed(s: State, data: seq<byte>, draw: Draw)
    requires data == [0] || data == [3] || data == [4]
    ensures var (cfg, req, tfa) := (Settings(), LoggingIn(data), Libraries().tfa(data).value);
            Runs.Next(cfg, s, Runs.Serve(0, req, draw)) ==
              if data == [0] then FidoAuthChallenge(cfg, s, req, 0, draw)
              else FidoAuthFinalize(cfg, s, req, tfa, 0, draw)
  {
    hide FidoAuthChallenge, FidoAuthFinalize, HandleOpaque, HandleService, Handle2FAChange, ObjectOf, Zeros, DataWith;
  }

  lemma ChallengeIssued()
    ensures Runs.ReplyTo(TwoKeys(), 2) == Challenge("c", [3])
    ensures Runs.After(TwoKeys(), 3) == Ready(map[])
  {
    hide Runs.After, Runs.Next, Zeros, ObjectOf, CredentialOf, Print, Attempts.CounterKey;
    BothRegister();
    AfterStep(TwoKeys(), 2);
    Routed(WithCredentials([CredentialOf(1), CredentialOf(2)]), [0], DrawOf("s3", [3]));
  }

  /** The id that both keys share selects the first. */
  lemma FirstIsMatched(attempts: Attempts.Table, data: seq<byte>)
    ensures MatchedCredential(Ready(attempts), LoggingIn(data), []) == Some(CredentialOf(1))
    ensures EcPoint.Unmarshal(SMALL_CURVE, CredentialOf(1).publicKey) == Some(EcPoint.Point(0, 1))
  {
    hide EcPoint.MarshalUncompressed, EcPoint.Unmarshal, Zeros;
    AliceKey();
    SmallIsValid();
    EcPoint.UnmarshalMarshalled(SMALL_CURVE, EcPoint.Point(0, 1));
  }

  lemma SmallIsValid()
    ensures EcPoint.ValidCurve(SMALL_CURVE) && EcPoint.OnCurve(SMALL_CURVE, EcPoint.Point(0, 1))
  {
    assert Pow256(0) == 1 && Pow256(1) == 256;
  }

  lemma SignatureDecides(signature: seq<byte>)
    ensures var cfg := Settings();
            var v := JudgeFinalize(cfg, CredentialOf(1), EcPoint.Point(0, 1),
                                   WebAuthn.Assertion(DataWith(1), [2], signature), "c");
            if signature == [1] then v.Verified? else v.Refused?
  {
    hide WebAuthn.JudgeAssertion, AuthData.PrintReport, Zeros;
    var cfg := Settings();
    assert AuthData.HasFlag(5, AuthData.FLAG_UP) && AuthData.HasFlag(5, AuthData.FLAG_UV);
    assert !AuthData.HasFlag(5, AuthData.FLAG_AT);
    assert DataWith(1) + [] == DataWith(1);
    WebAuthn.PrintedAssertion(
      cfg.codec.webauthn, cfg.rp, AuthData.Report(HASH, 5, 1, None), [], [2], signature, EcPoint.Point(0, 1), 0, "c");
  }

  lemma TokenOpens(attempts: Attempts.Table, data: seq<byte>)
    ensures BoundToken(Settings(), Ready(attempts), LoggingIn(data), "token", 0)
         == (Some(ChallengeToken(0, "alice", "hsm", "c")), ServerError)
  {
    hide WithCredentials, ObjectOf, Print, DataWith, Zeros;
  }

  /** A finalize signed with the second key fails. */
  lemma SecondFails(attempts: Attempts.Table, draw: Draw)
    ensures var (t, reply) := Runs.Next(Settings(), Ready(attempts), Runs.Serve(0, LoggingIn([4]), draw));
            reply == Fail(Unauthorized) && t == Ready(t.attempts)
  {
    hide Runs.Next, BoundToken, JudgeFinalize, EcPoint.Unmarshal, CredentialOf, Zeros, ObjectOf, DataWith, Print,
         MatchedCredential, FidoOpenSession, Attempts.Failed, Attempts.CounterKey, StoreKeyOf;
    Routed(Ready(attempts), [4], draw);
    TokenOpens(attempts, [4]);
    FirstIsMatched(attempts, [4]);
    SignatureDecides([2]);
  }

  /** A finalize signed with the first key opens a session. */
  lemma FirstSucceeds(attempts: Attempts.Table, draw: Draw)
    ensures Runs.Next(Settings(), Ready(attempts), Runs.Serve(0, LoggingIn([3]), draw)).1.FidoSession?
  {
    hide Runs.Next, BoundToken, JudgeFinalize, EcPoint.Unmarshal, CredentialOf, Zeros, ObjectOf, DataWith, Print,
         MatchedCredential, WithFailure, Stores.Step, Attempts.CounterKey, StoreKeyOf;
    Routed(Ready(attempts), [3], draw);
    TokenOpens(attempts, [3]);
    FirstIsMatched(attempts, [3]);
    SignatureDecides([1]);
    SmallPoint();
  }

  lemma TwoKeysIsValid()
    ensures Runs.ValidRun(TwoKeys()) && ChallengesDrawn(TwoKeys())
  {
    hide Settings;
    var events := TwoKeys().events;
    assert forall i | 0 <= i < 5 ::
        events[i].draw.ciphertext == [i + 1] && events[i].draw.sessionId[1] as int == i + 49
        && events[i].draw.challenge == "c" && events[i].now == 0;
    hide TwoKeys;
  }

  lemma AcceptedRegistration(y: byte)
    requires 1 <= y <= 2
    ensures CredentialRegisteredAt(TwoKeys(), (y - 1) as nat, RegisterOf(y))
  {
    hide Runs.ReplyTo, Runs.After, ObjectOf, DataWith, HASH, WithCredentials, CredentialOf;
    BothRegister();
  }

  /** Main result: a valid run in which two keys are registered under one credential ID,
      both accepted, and every finalize asserting the ID is matched to the first: one that
      the second key has signed fails, one that the first has signed opens a session. */
  lemma SecondKeyIsNeverUsed()
    ensures var r := TwoKeys();
            && Runs.ValidRun(r) && EcPoint.ValidCurve(r.cfg.rp.curve)
            && CredentialRegisteredAt(r, 0, RegisterOf(1)) && CredentialRegisteredAt(r, 1, RegisterOf(2))
            && Runs.After(r, 3) == Ready(map[])
            && Runs.ReplyTo(r, 3) == Fail(Unauthorized) && Runs.ReplyTo(r, 4).FidoSession?
    ensures MatchedCredential(Ready(map[]), LoggingIn([4]), []) == Some(CredentialOf(1))
    ensures EcPoint.Unmarshal(SMALL_CURVE, CredentialOf(1).publicKey) == Some(EcPoint.Point(0, 1))
  {
    hide Runs.After, Runs.Next, Runs.ReplyTo, Runs.ValidRun, CredentialRegisteredAt, MatchedCredential, CredentialOf,
         EcPoint.Unmarshal, EcPoint.ValidCurve, EcPoint.OnCurve, Ready, ObjectOf, Zeros;
    var r := TwoKeys();
    TwoKeysIsValid();
    SmallIsValid();
    AcceptedRegistration(1);
    AcceptedRegistration(2);
    ChallengeIssued();
    FirstIsMatched(map[], [4]);
    AfterStep(r, 3);
    SecondFails(map[], DrawOf("s4", [4]));
    AfterStep(r, 4);
    FirstSucceeds(Runs.After(r, 4).attempts, DrawOf("s5", [5]));
  }

  /** Neither registration answers a challenge of this run. */
  lemma NothingWasIssued()
    ensures var r := TwoKeys();
            && CredentialRegisteredAt(r, 1, RegisterOf(2)) && ChallengesDrawn(r)
            && forall h: nat, bytes, challenge :: !AnswersIssued(r, h, 1, bytes, challenge)
  {
    hide Runs.ReplyTo, Settings, CredentialRegisteredAt, ChallengesDrawn, Runs.ValidRun, WithCredentials, CredentialOf;
    TwoKeysIsValid();
    AcceptedRegistration(2);
    BothRegister();
  }
}
