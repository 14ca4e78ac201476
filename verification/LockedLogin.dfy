/** A run from start-up in which a client that is locked out logs in with FIDO2, on the
    token of a registration challenge. */
module LockedLogin {
  import opened Bytes
  import opened Tokens
  import opened Protocol
  import opened SignCounts
  import opened Lockout
  import opened Counterexamples
  import Runs
  import Attempts
  import AuthData
  import EcPoint
  import Stores
  import WebAuthn

  /** Libraries under which every signature verifies. The data [0] asks for a challenge;
      [1] is a finalize with the first token and an unknown credential ID, and any other
      data one with the third token and the registered ID. */
  function Libraries(): Codec {
    Codec(
      tfa := data =>
        Some(if data == [0] then TFA("fido2", "challenge", "", "", 0)
             else TFA("fido2", "finalize", if data == [1] then "unknown" else "known", "", 0)),
      sign := _ => None,
      fidoFinalize := pData =>
        Some(FidoFinalize("epub", if pData == "unknown" then "first" else "third", "", pData, "data", "", "")),
      fidoRegister := _ => None,
      base64 := encoded =>
        Some(if encoded == "unknown" then [9] else if encoded == "first" then [1] else if encoded == "third" then [3]
             else if encoded == "data" then DataWith(1) else if encoded == "epub" then [4, 0, 1] else []),
      spare := _ => [],
      record := _ => None,
      registrationResponse := (_, _) => false,
      evaluate := (_, _, _, _) => None,
      finish := (_, _) => false,
      webauthn := WebAuthn.Primitives(
        _ => HASH, _ => Some(WebAuthn.ClientData("webauthn.get", "c", "")), (_, _, _) => true))
  }

  function Settings(): (cfg: Config)
    ensures ValidConfig(cfg)
  {
    Config(Libraries(), Attempts.Policy(1, 900 * SECOND), 300 * SECOND, 60 * SECOND, true,
           WebAuthn.RelyingParty([], [""], SMALL_CURVE), map[])
  }

  function Sending(typ: string, data: seq<byte>): Request {
    Request("alice", "hsm", typ, "", data)
  }

  const STORED := Stores.Credential([], [4, 0, 1], 0, [], 0)

  /** Alice fails a login, which locks her out, asks for a registration challenge, and
      finalizes a login on its token. */
  function Run(): (r: Runs.Run)
    ensures ValidConfig(r.cfg)
  {
    Runs.Run(Settings(), Stores.Keyed(map[], map["alice|hsm" := [STORED]], map[]), [
      Runs.Serve(0, Sending("2fa_authenticate", [0]), DrawOf("s1", [1])),
      Runs.Serve(0, Sending("2fa_authenticate", [1]), DrawOf("s2", [2])),
      Runs.Serve(0, Sending("2fa_registration", [0]), DrawOf("s3", [3])),
      Runs.Serve(0, Sending("2fa_authenticate", [2]), DrawOf("s4", [4]))])
  }

  const TOKEN := ChallengeToken(0, "alice", "hsm", "c")

  function AliceCounter(): string {
    Attempts.CounterKey("alice", "hsm", "hsm")
  }

  /** Alice's state with these tokens sealed and these failures. */
  function Reached(attempts: Attempts.Table, sealed: Sealed): State {
    State(map[], attempts, Stores.Keyed(map[], map["alice|hsm" := [STORED]], map[]), sealed)
  }

  lemma RunIsValid()
    ensures Runs.ValidRun(Run())
  {
    hide Settings;
    var events := Run().events;
    assert forall i | 0 <= i < 4 ::
        events[i].draw.ciphertext == [i + 1] && events[i].draw.sessionId[1] as int == i + 49 && events[i].now == 0;
    hide Run;
  }

  lemma AliceKey(typ: string, data: seq<byte>)
    ensures StoreKeyOf(Sending(typ, data)) == "alice|hsm"
  {
  }

  lemma Challenged()
    ensures Runs.After(Run(), 1) == Reached(map[], map[[1] := TOKEN])
  {
    AfterStep(Run(), 0);
    hide DataWith, HASH, Attempts.CounterKey;
  }

  lemma Routed(s: State)
    ensures var req := Sending("2fa_authenticate", [1]);
            Runs.Next(Settings(), s, Runs.Serve(0, req, DrawOf("s2", [2]))) ==
              FidoAuthFinalize(Settings(), s, req, TFA("fido2", "finalize", "unknown", "", 0), 0, DrawOf("s2", [2]))
  {
    hide FidoAuthFinalize, HandleOpaque, HandleService, Handle2FAChange, DataWith, HASH;
  }

  lemma Fails()
    ensures Runs.ReplyTo(Run(), 1) == Fail(Unauthorized)
    ensures Runs.After(Run(), 2) == Reached(map[AliceCounter() := Attempts.Attempt(1, 0)], map[[1] := TOKEN])
  {
    hide Runs.After, Runs.Next, DataWith, HASH, Attempts.CounterKey, FidoOpenSession, JudgeFinalize, StoreKeyOf,
         EcPoint.Unmarshal;
    Challenged();
    AfterStep(Run(), 1);
    AliceKey("2fa_authenticate", [1]);
    Routed(Reached(map[], map[[1] := TOKEN]));
  }

  lemma GetsChallenge()
    ensures Runs.ReplyTo(Run(), 2) == Challenge("c", [3])
    ensures Runs.After(Run(), 3)
         == Reached(map[AliceCounter() := Attempts.Attempt(1, 0)], map[[1] := TOKEN, [3] := TOKEN])
  {
    hide Runs.After, DataWith, HASH, Attempts.CounterKey;
    Fails();
    AfterStep(Run(), 2);
    RegistrationIssues(Settings(), Runs.After(Run(), 2), Sending("2fa_registration", [0]), 0, DrawOf("s3", [3]));
  }

  /** The registered authenticator's assertion verifies. */
  lemma AssertionVerifies()
    ensures var cfg := Settings();
            JudgeFinalize(cfg, STORED, EcPoint.Point(0, 1), WebAuthn.Assertion(DataWith(1), [], []), "c").Verified?
  {
    hide WebAuthn.JudgeAssertion, AuthData.PrintReport, Zeros;
    var cfg := Settings();
    assert AuthData.HasFlag(5, AuthData.FLAG_UP) && AuthData.HasFlag(5, AuthData.FLAG_UV);
    assert !AuthData.HasFlag(5, AuthData.FLAG_AT);
    assert DataWith(1) + [] == DataWith(1);
    WebAuthn.PrintedAssertion(
      cfg.codec.webauthn, cfg.rp, AuthData.Report(HASH, 5, 1, None), [], [], [], EcPoint.Point(0, 1), 0, "c");
  }

  lemma Accepts()
    ensures AcceptedBy(Settings(), Runs.After(Run(), 3), Sending("2fa_authenticate", [2]), 0).Some?
  {
    hide Runs.After, JudgeFinalize, EcPoint.Unmarshal, DataWith, HASH, StoreKeyOf, Attempts.CounterKey;
    GetsChallenge();
    SmallPoint();
    AssertionVerifies();
    AliceKey("2fa_authenticate", [2]);
  }

  lemma ClientKey()
    ensures ClientKeyOf(Settings(), Sending("2fa_authenticate", [2])).Some?
  {
    hide EcPoint.Unmarshal, DataWith, HASH;
    SmallPoint();
  }

  lemma Replies()
    ensures Runs.ReplyTo(Run(), 3)
         == Process(Settings(), Runs.After(Run(), 3), Sending("2fa_authenticate", [2]), 0, DrawOf("s4", [4])).1
  {
    hide Process;
  }

  /** Main result: a valid run in which Alice, locked out by event 1, gets a challenge at
      event 2 and, while she is still locked out, opens a session with its token. */
  lemma LockedClientLogsIn()
    ensures var r := Run();
            && Runs.ValidRun(r)
            && Runs.ReplyTo(r, 1) == Fail(Unauthorized)
            && LockedSince(r.cfg, Runs.After(r, 2), AliceCounter(), 0)
            && Runs.ReplyTo(r, 2) == Challenge("c", [3])
            && Attempts.Locked(r.cfg.policy, Runs.After(r, 3).attempts, AliceCounter(), 0)
            && Runs.ReplyTo(r, 3).FidoSession?
  {
    hide Runs.After, AcceptedBy, CompletesPassword, ClientKeyOf, EcPoint.Unmarshal, DataWith, HASH, Attempts.CounterKey,
         Runs.Next, Runs.ValidRun, Runs.ReplyTo, Libraries;
    RunIsValid();
    Fails();
    GetsChallenge();
    Accepts();
    ClientKey();
    Replies();
    CompletesIff(Settings(), Runs.After(Run(), 3), Sending("2fa_authenticate", [2]), 0, DrawOf("s4", [4]));
  }
}
