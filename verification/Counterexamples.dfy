/** Concrete runs of the handlers in which a law that a reader may expect does not hold. */
module Counterexamples {
  import opened Bytes
  import opened Tokens
  import opened Protocol
  import opened SignCounts
  import opened CountRace
  import Runs
  import Sessions
  import Attempts
  import Stores
  import EcPoint
  import WebAuthn
  import AuthData
  import Lockout
  import Replay

  // ---------- a race from start-up ----------

  const SMALL_CURVE := EcPoint.Curve(3, 1, 1)
  const HASH: seq<byte> := Zeros(32)

  /** Authenticator data of a verified user with this count. */
  function DataWith(count: nat): seq<byte>
    requires count < 0x1_0000_0000
  {
    assert !AuthData.HasFlag(5, AuthData.FLAG_AT);
    AuthData.PrintReport(AuthData.Report(HASH, 5, count, None))
  }

  /** Libraries under which every signature verifies: request [0] asks for a challenge,
      [1] asserts the count `one` and any other data the count `other`. */
  function Libraries(one: nat, other: nat): Codec
    requires one < 0x1_0000_0000 && other < 0x1_0000_0000
  {
    Codec(
      tfa := data =>
        var (state, pData) := (if data == [0] then "challenge" else "finalize", if data == [1] then "one" else "other");
        Some(TFA("fido2", state, pData, "", 0)),
      sign := _ => None,
      fidoFinalize := pData => Some(FidoFinalize("epub", "token", "", "", pData, "", "")),
      fidoRegister := _ => None,
      base64 := encoded =>
        Some(if encoded == "one" then DataWith(one) else if encoded == "other" then DataWith(other)
             else if encoded == "token" then [7] else if encoded == "epub" then [4, 0, 1] else []),
      spare := _ => [],
      record := _ => None,
      registrationResponse := (_, _) => false,
      evaluate := (_, _, _, _) => None,
      finish := (_, _) => false,
      webauthn := WebAuthn.Primitives(
        _ => HASH, _ => Some(WebAuthn.ClientData("webauthn.get", "c", "")), (_, _, _) => true))
  }

  function Settings(one: nat, other: nat): (cfg: Config)
    requires one < 0x1_0000_0000 && other < 0x1_0000_0000
    ensures ValidConfig(cfg)
  {
    Config(Libraries(one, other), Attempts.Policy(5, 900 * SECOND), 300 * SECOND, 60 * SECOND, true,
           WebAuthn.RelyingParty([], [""], SMALL_CURVE), map[])
  }

  function Asking(data: seq<byte>): Request {
    Request("alice", "hsm", "2fa_authenticate", "", data)
  }

  function DrawOf(sessionId: string, ciphertext: seq<byte>): Draw {
    Draw(sessionId, [], "c", ciphertext, [])
  }

  /** Alice has one credential with a stored count and has asked for a challenge. */
  function Challenged(stored: nat, one: nat, other: nat): (r: Race)
    requires one < 0x1_0000_0000 && other < 0x1_0000_0000
    ensures ValidConfig(r.cfg)
  {
    Race(Settings(one, other),
         Stores.Keyed(map[], map[StoreKeyOf(Asking([])) := [Stores.Credential([], [4, 0, 1], stored, [], 0)]], map[]),
         [Begin(0, Asking([0]), 0, DrawOf("s0", [7]))])
  }

  function Accepts(one: nat, other: nat, data: seq<byte>): Pending
    requires one < 0x1_0000_0000 && other < 0x1_0000_0000
  {
    var pData := if data == [1] then "one" else "other";
    Pending(Asking(data), FidoFinalize("epub", "token", "", "", pData, "", ""), [],
            Accepted(0, if data == [1] then one else other))
  }

  lemma ChallengedState(stored: nat, one: nat, other: nat)
    requires one < 0x1_0000_0000 && other < 0x1_0000_0000
    ensures var r := Challenged(stored, one, other);
            var sealed := map[[7] := ChallengeToken(0, "alice", "hsm", "c")];
            Reached(r, 1) == RaceState(State(map[], map[], r.store, sealed), map[])
  {
  }

  lemma SmallPoint()
    ensures EcPoint.Unmarshal(SMALL_CURVE, [4, 0, 1]) == Some(EcPoint.Point(0, 1))
  {
    assert [4, 0, 1][1..2] == [0] && [4, 0, 1][2..] == [1];
    assert FromBE([0]) == 0 && FromBE([1]) == 1 by { assert [0][..0] == [] && [1][..0] == []; }
  }

  /** Every assertion whose count passes the rule is accepted. */
  lemma CountJudged(stored: nat, one: nat, other: nat, count: nat, key: EcPoint.Point)
    requires one < 0x1_0000_0000 && other < 0x1_0000_0000 && count < 0x1_0000_0000
    requires WebAuthn.CountAccepted(count, stored)
    ensures var cfg := Settings(one, other);
            var v := WebAuthn.JudgeAssertion(
              cfg.codec.webauthn, cfg.rp, WebAuthn.Assertion(DataWith(count), [], []), key, stored, "c");
            v.Verified? && v.authData.signCount == count
  {
    hide WebAuthn.JudgeAssertion, AuthData.PrintReport;
    var cfg := Settings(one, other);
    assert AuthData.HasFlag(5, AuthData.FLAG_UP) && AuthData.HasFlag(5, AuthData.FLAG_UV);
    assert !AuthData.HasFlag(5, AuthData.FLAG_AT);
    assert DataWith(count) + [] == DataWith(count);
    WebAuthn.PrintedAssertion(
      cfg.codec.webauthn, cfg.rp, AuthData.Report(HASH, 5, count, None), [], [], [], key, stored, "c");
  }

  /** Both of Alice's finalizes would be accepted after the challenge. */
  lemma BothReady(stored: nat, one: nat, other: nat, data: seq<byte>)
    requires one < 0x1_0000_0000 && other < 0x1_0000_0000
    requires WebAuthn.CountAccepted(one, stored) && WebAuthn.CountAccepted(other, stored)
    requires data == [1] || data == [2]
    ensures var r := Challenged(stored, one, other);
            Judged(r.cfg, Reached(r, 1).state, Asking(data), 0) == Some(Accepts(one, other, data))
  {
    hide Reached, WebAuthn.JudgeAssertion, EcPoint.Unmarshal, DataWith, EcPoint.OnCurve, Zeros;
    var r := Challenged(stored, one, other);
    ChallengedState(stored, one, other);
    SmallPoint();
    CountJudged(stored, one, other, if data == [1] then one else other, EcPoint.Point(0, 1));
  }

  const BEGIN_ONE := Begin(1, Asking([1]), 0, DrawOf("s1", [1]))
  const BEGIN_OTHER := Begin(2, Asking([2]), 0, DrawOf("s2", [2]))
  const WRITE_ONE := Write(1, 0, DrawOf("s1", [1]))
  const WRITE_OTHER := Write(2, 0, DrawOf("s2", [2]))

  /** The second finalize would still be accepted once the first is pending. */
  lemma SecondReady(stored: nat, one: nat, other: nat)
    requires stored < other <= one < 0x1_0000_0000
    ensures var s := Then(Challenged(stored, one, other), [BEGIN_ONE]);
            && 2 !in Reached(s, 2).pending
            && Judged(s.cfg, Reached(s, 2).state, BEGIN_OTHER.req, BEGIN_OTHER.now) == Some(Accepts(one, other, [2]))
  {
    hide Reached, Judged, Next;
    var r := Challenged(stored, one, other);
    ChallengedState(stored, one, other);
    BothReady(stored, one, other, [1]);
    BothReady(stored, one, other, [2]);
    PrefixReached(r, [BEGIN_ONE], 1);
    ThenReached(r, [BEGIN_ONE], 0);
    BeginPends(r.cfg, Reached(r, 1), BEGIN_ONE, Accepts(one, other, [1]));
  }

  /** Main result: for all counts stored < other <= one there is a run of the handlers in
      which finalizes with both counts are accepted and the stored count ends at the
      smaller one; had the second read waited for the first write, it would be refused. */
  lemma RaceFromStart(stored: nat, one: nat, other: nat)
    requires stored < other <= one < 0x1_0000_0000
    ensures var race := Then(Challenged(stored, one, other), [BEGIN_ONE, BEGIN_OTHER, WRITE_ONE, WRITE_OTHER]);
            var p, q := Accepts(one, other, [1]), Accepts(one, other, [2]);
            && Window(race, 1, 3, p) && Window(race, 2, 4, q)
            && CountIs(race, 4, p, one) && CountIs(race, 5, p, other)
    ensures 2 !in Reached(Then(Challenged(stored, one, other), [BEGIN_ONE, WRITE_ONE, BEGIN_OTHER]), 4).pending
  {
    hide Reached, Judged;
    var r, p, q := Challenged(stored, one, other), Accepts(one, other, [1]), Accepts(one, other, [2]);
    ChallengedState(stored, one, other);
    BothReady(stored, one, other, [1]);
    BothReady(stored, one, other, [2]);
    BeginOpens(r, BEGIN_ONE, p);
    var s := Then(r, [BEGIN_ONE]);
    SecondReady(stored, one, other);
    ThenThen(r, BEGIN_ONE, [BEGIN_OTHER, WRITE_ONE, WRITE_OTHER]);
    assert [BEGIN_OTHER] + [WRITE_ONE, WRITE_OTHER] == [BEGIN_OTHER, WRITE_ONE, WRITE_OTHER];
    assert [BEGIN_ONE] + [BEGIN_OTHER, WRITE_ONE, WRITE_OTHER] == [BEGIN_ONE, BEGIN_OTHER, WRITE_ONE, WRITE_OTHER];
    OverlapAcceptsBoth(s, 1, 1, p, BEGIN_OTHER, q, [WRITE_ONE, WRITE_OTHER], 0, 1);
    TurnsJudgeAgain(r, BEGIN_ONE, WRITE_ONE, BEGIN_OTHER, p, q);
  }

  // ---------- a finalize sent twice ----------

  /** A challenge and one finalize, sent twice, of an authenticator that does not count. */
  function SentTwice(): (r: Runs.Run)
    ensures ValidConfig(r.cfg)
  {
    Runs.Run(Settings(0, 0), Challenged(0, 0, 0).store, [
      Runs.Serve(0, Asking([0]), DrawOf("s0", [7])),
      Runs.Serve(0, Asking([1]), DrawOf("s1", [1])),
      Runs.Serve(0, Asking([1]), DrawOf("s2", [2]))])
  }

  lemma SentTwiceIsValid()
    ensures Runs.ValidRun(SentTwice())
  {
    hide Settings, Challenged, Asking;
    var events := SentTwice().events;
    assert forall i | 0 <= i < 3 :: events[i].draw.sessionId[1] as int == i + 48;
    hide SentTwice;
  }

  lemma FirstIsAccepted()
    ensures var r := SentTwice();
            && AcceptedBy(r.cfg, Runs.After(r, 1), Asking([1]), 0) == Some(Accepted(0, 0))
            && Runs.ReplyTo(r, 1).FidoSession?
  {
    hide Runs.After, Reached, Judged, AcceptedBy, EcPoint.Unmarshal, Lockout.CompletesPassword;
    var r := SentTwice();
    AfterStep(r, 0);
    assert Runs.After(r, 1) == Reached(Challenged(0, 0, 0), 1).state by { SentTwiceStarts(); }
    BothReady(0, 0, 0, [1]);
    JudgedMeans(r.cfg, Runs.After(r, 1), Asking([1]), 0);
    AfterStep(r, 1);
    SmallPoint();
    SentTwiceStarts();
    Lockout.CompletesIff(r.cfg, Runs.After(r, 1), Asking([1]), 0, DrawOf("s1", [1]));
  }

  lemma SentTwiceStarts()
    ensures Runs.After(SentTwice(), 1) == Reached(Challenged(0, 0, 0), 1).state
    ensures Runs.After(SentTwice(), 1).sessions == map[]
  {
    ChallengedState(0, 0, 0);
    hide Reached, BoundToken;
  }

  /** Main result: a valid run in which the very same finalize opens two sessions. */
  lemma ReplayOpensTwo()
    ensures var r := SentTwice();
            && Runs.ValidRun(r) && r.events[2].req == r.events[1].req
            && Runs.ReplyTo(r, 1).FidoSession? && Runs.ReplyTo(r, 2).FidoSession?
  {
    hide Runs.After, Runs.ReplyTo, AcceptedBy, CredentialsOf, StoreKeyOf, Settings, Replay.TokenIn;
    var r := SentTwice();
    SentTwiceIsValid();
    FirstIsAccepted();
    SignCounts.NextCounts(r, 1, StoreKeyOf(Asking([1])));
    Replay.ReplayOpensIff(r, 1, 2);
    Replay.AcceptedTokenOpens(r.cfg, Runs.After(r, 1), Asking([1]), 0);
  }

  // ---------- another client's session ----------

  /** Libraries under which every signing request and every evaluation succeeds, and a
      finalize exactly with the data [1]. */
  function Obliging(): Codec {
    Codec(
      tfa := data =>
        var (state, pData) := (if data == [0] then "evaluate" else "finalize", if data == [1] then "good" else "bad");
        Some(TFA("opaque", state, pData, "", 0)),
      sign := _ => Some(SignRequest("kid", "hash")),
      fidoFinalize := _ => None,
      fidoRegister := _ => None,
      base64 := encoded => Some(if encoded == "hash" then HASH else if encoded == "good" then [1] else []),
      spare := _ => [],
      record := _ => None,
      registrationResponse := (_, _) => false,
      evaluate := (_, _, _, _) => Some(Login([], [])),
      finish := (ke3, _) => ke3 == [1],
      webauthn := WebAuthn.Primitives(_ => HASH, _ => None, (_, _, _) => false))
  }

  function Signing(maxFails: int): (cfg: Config)
    ensures ValidConfig(cfg)
  {
    Config(Obliging(), Attempts.Policy(maxFails, 900 * SECOND), 300 * SECOND, 60 * SECOND, false,
           WebAuthn.RelyingParty([], [], SMALL_CURVE), map[SIGN_ECDSA := EcdsaHandler])
  }

  function Login2FA(client: string, sessionId: string, data: seq<byte>, draw: Draw): Runs.Event {
    Runs.Serve(0, Request(client, "hsm", "2fa_authenticate", sessionId, data), draw)
  }

  /** Alice logs in with OPAQUE, and Bob names her session in a signing request. */
  function Borrowing(): (r: Runs.Run)
    ensures ValidConfig(r.cfg)
  {
    Runs.Run(Signing(5), Stores.Empty(), [
      Login2FA("alice", "", [0], DrawOf("s1", [1])),
      Login2FA("alice", "s1", [1], DrawOf("s2", [2])),
      Runs.Serve(0, Request("bob", "hsm", SIGN_ECDSA, "s1", []), DrawOf("s3", [3]))])
  }

  lemma AliceLogsIn()
    ensures Runs.ReplyTo(Borrowing(), 0) == Ke2("s1")
    ensures Runs.ReplyTo(Borrowing(), 1).Authenticated?
    ensures Runs.After(Borrowing(), 2).sessions
         == map["s1" := Sessions.SessionData("s1", "alice", "hsm", [], [], 300 * SECOND, true, "")]
  {
    var r := Borrowing();
    assert Runs.After(r, 1) == Runs.Next(r.cfg, Runs.After(r, 0), r.events[0]).0;
    assert Runs.After(r, 2) == Runs.Next(r.cfg, Runs.After(r, 1), r.events[1]).0;
  }

  /** The HSM signs for Bob in a session that Alice has opened. */
  lemma BorrowedSessionSigns()
    ensures Runs.ValidRun(Borrowing())
    ensures Runs.After(Borrowing(), 2).sessions.Keys == {"s1"}
    ensures Runs.After(Borrowing(), 2).sessions["s1"].clientId == "alice"
    ensures Runs.ReplyTo(Borrowing(), 2) == Signed("kid", HASH)
  {
    hide Runs.After, Handle2FA, Handle2FAChange, Zeros;
    AliceLogsIn();
  }

  // ---------- a finalize during a lockout ----------

  /** The opener and Alice each begin a login, Alice's fails and locks her out, and then
      she finalizes the opener's. */
  function LockedOut(opener: string): (r: Runs.Run)
    ensures ValidConfig(r.cfg)
  {
    Runs.Run(Signing(1), Stores.Empty(), [
      Login2FA(opener, "", [0], DrawOf("s1", [1])),
      Login2FA("alice", "", [0], DrawOf("s2", [2])),
      Login2FA("alice", "s2", [2], DrawOf("s3", [3])),
      Login2FA("alice", "s1", [1], DrawOf("s4", [4]))])
  }

  function Opened(client: string, id: string): Sessions.SessionData {
    Sessions.SessionData(id, client, "hsm", [], [], 300 * SECOND, false, "")
  }

  lemma BothBegin(opener: string)
    ensures var s := Runs.After(LockedOut(opener), 2);
            s == State(map["s1" := Opened(opener, "s1"), "s2" := Opened("alice", "s2")], map[], Stores.Empty(), map[])
  {
    var r := LockedOut(opener);
    assert Runs.After(r, 1) == Runs.Next(r.cfg, Runs.After(r, 0), r.events[0]).0;
    assert Runs.After(r, 2) == Runs.Next(r.cfg, Runs.After(r, 1), r.events[1]).0;
  }

  lemma AfterStep(r: Runs.Run, n: nat)
    requires ValidConfig(r.cfg) && n < |r.events|
    ensures Runs.After(r, n + 1) == Runs.Next(r.cfg, Runs.After(r, n), r.events[n]).0
    ensures Runs.ReplyTo(r, n) == Runs.Next(r.cfg, Runs.After(r, n), r.events[n]).1
  {
  }

  lemma LockedOutIsValid(opener: string)
    ensures Runs.ValidRun(LockedOut(opener))
  {
  }

  lemma AliceFails(opener: string)
    ensures Runs.ReplyTo(LockedOut(opener), 2) == Fail(Unauthorized)
    ensures var s, key := Runs.After(LockedOut(opener), 3), Attempts.CounterKey("alice", "hsm", "hsm");
            s.sessions == map["s1" := Opened(opener, "s1")] && s.attempts == map[key := Attempts.Attempt(1, 0)]
  {
    hide Runs.After, Attempts.CounterKey, HandleService, Handle2FAChange, HandleFido, AuthEvaluate, RegEvaluate,
         RegFinalize, Zeros;
    BothBegin(opener);
    AfterStep(LockedOut(opener), 2);
  }

  /** Main result: whoever opened the session, its finalize is let through while the named
      client is locked out, and wipes the lock. */
  lemma FinalizePassesLockout(opener: string)
    ensures Runs.ValidRun(LockedOut(opener))
    ensures var r, key := LockedOut(opener), Attempts.CounterKey("alice", "hsm", "hsm");
            && Runs.ReplyTo(r, 2) == Fail(Unauthorized)
            && Attempts.Locked(r.cfg.policy, Runs.After(r, 3).attempts, key, 0)
            && Runs.After(r, 3).sessions == map["s1" := Opened(opener, "s1")]
            && Runs.ReplyTo(r, 3).Authenticated?
            && key !in Runs.After(r, 4).attempts
  {
    hide Runs.After, Attempts.CounterKey, Attempts.Failed, HandleService, Handle2FAChange, HandleFido, AuthEvaluate,
         RegEvaluate, RegFinalize, Zeros;
    var r := LockedOut(opener);
    LockedOutIsValid(opener);
    AliceFails(opener);
    AfterStep(r, 3);
    hide Runs.ValidRun;
  }
}
