/** Safety of the session gate over whole runs. */
module Authentication {
  import opened Bytes
  import opened Protocol
  import opened Runs
  import Sessions
  import Attempts
  import Stores
  import Sad
  import EcPoint
  import WebAuthn

  // ---------- every stored session has an origin ----------

  lemma OriginSurvives(
      r: Run, n: nat, i: nat, was: Sessions.SessionData, d: Sessions.SessionData, current: Sessions.SessionData)
    requires ValidConfig(r.cfg) && 0 < n <= |r.events|
    requires Origin(r, n - 1, was, i, d)
    requires current == was || (current == was.(verified := true) && VerifiedAt(r, n - 1, d))
    requires !FailedAt(r, n - 1, d.id)
    ensures Origin(r, n, current, i, d)
  {
    hide VerifiedAt, FailedAt, CreatedAt;
  }

  lemma NewOrigin(r: Run, n: nat, d: Sessions.SessionData)
    requires ValidConfig(r.cfg) && 0 < n <= |r.events| && CreatedAt(r, n - 1, d)
    ensures Origin(r, n, d, n - 1, d)
  {
    hide EvaluateCreates, FinalizeCreates, IsKe3, Ke3Matches;
    assert !Sessions.Live(After(r, n - 1).sessions, d.id, r.events[n - 1].now);
  }

  lemma {:induction false} EverySessionHasOrigin(r: Run, n: nat, id: string)
    requires ValidConfig(r.cfg) && n <= |r.events|
    requires id in After(r, n).sessions
    ensures After(r, n).sessions[id].id == id
    ensures exists i: nat, d :: Origin(r, n, After(r, n).sessions[id], i, d)
  {
    hide Process, Origin, FailedAt, VerifiedAt, CreatedAt, EvaluateCreates, FinalizeCreates, Ke3Matches, IsKe3;
    var s, t, e := After(r, n - 1), After(r, n), r.events[n - 1];
    if e.Serve? {
      ProcessStep(r.cfg, s, e.req, e.now, e.draw);
      var change := ChangeOf(s, ReplyTo(r, n - 1), t, e.req);
      if change.Created? && id == e.draw.sessionId {
        CreationIs(r, n - 1, change.d);
        NewOrigin(r, n, change.d);
        return;
      }
    }
    EverySessionHasOrigin(r, n - 1, id);
    var i: nat, d :| Origin(r, n - 1, s.sessions[id], i, d);
    if FailedAt(r, n - 1, id) {
      FailureDrops(r, n - 1, id);
    }
    OriginId(r, n - 1, s.sessions[id], i, d);
    if t.sessions[id] != s.sessions[id] {
      VerificationIs(r, n - 1, s.sessions[id], d);
    }
    OriginSurvives(r, n, i, s.sessions[id], d, t.sessions[id]);
  }

  lemma OriginId(r: Run, n: nat, current: Sessions.SessionData, i: nat, d: Sessions.SessionData)
    requires ValidConfig(r.cfg) && Origin(r, n, current, i, d)
    ensures d.id == current.id && d.mac == current.mac && d.expiresAt == current.expiresAt && d.ctx == current.ctx
    ensures d.task == current.task
  {
  }

  /** A creating change is a creation event. */
  lemma CreationIs(r: Run, i: nat, d: Sessions.SessionData)
    requires ValidConfig(r.cfg) && i < |r.events| && r.events[i].Serve?
    requires ChangeOf(After(r, i), ReplyTo(r, i), After(r, i + 1), r.events[i].req) == Created(d)
    ensures CreatedAt(r, i, d) && d.id == r.events[i].draw.sessionId
  {
    var e := r.events[i];
    ProcessStep(r.cfg, After(r, i), e.req, e.now, e.draw);
    hide Process;
  }

  /** A change to a kept session is the acceptance of a KE3 matching its MAC. */
  lemma VerificationIs(r: Run, j: nat, was: Sessions.SessionData, d: Sessions.SessionData)
    requires ValidConfig(r.cfg) && j < |r.events|
    requires was.id in After(r, j).sessions && After(r, j).sessions[was.id] == was
    requires was.id in After(r, j + 1).sessions && After(r, j + 1).sessions[was.id] != was
    requires r.events[j].Serve? ==> was.id != r.events[j].draw.sessionId
                                    || !ChangeOf(After(r, j), ReplyTo(r, j), After(r, j + 1), r.events[j].req).Created?
    requires d.id == was.id && d.mac == was.mac && d.expiresAt == was.expiresAt
    ensures VerifiedAt(r, j, d) && After(r, j + 1).sessions[was.id] == was.(verified := true)
  {
    hide Process, EvaluateCreates, FinalizeCreates, Ke3Matches, IsKe3;
    var e := r.events[j];
    if e.Serve? {
      var s := After(r, j);
      ProcessStep(r.cfg, s, e.req, e.now, e.draw);
      var change := ChangeOf(s, ReplyTo(r, j), After(r, j + 1), e.req);
      assert change == Verified(was.id);
      AcceptanceReply(r.cfg, s, e.req, e.now, e.draw, was.id);
    }
  }

  // ---------- a failed session is gone ----------

  lemma DrawnBefore(r: Run, n: nat, id: string)
    requires ValidConfig(r.cfg) && n <= |r.events| && id in After(r, n).sessions
    ensures exists i | 0 <= i < n :: r.events[i].Serve? && r.events[i].draw.sessionId == id
  {
    EverySessionHasOrigin(r, n, id);
    var i: nat, d :| Origin(r, n, After(r, n).sessions[id], i, d);
    CreationFacts(r, i, d);
    OriginId(r, n, After(r, n).sessions[id], i, d);
  }

  /** Only a creation puts an id into the store. */
  lemma Appears(r: Run, n: nat, id: string)
    requires ValidConfig(r.cfg) && n < |r.events|
    requires id !in After(r, n).sessions && id in After(r, n + 1).sessions
    ensures r.events[n].Serve? && r.events[n].draw.sessionId == id
  {
    hide Process, EvaluateCreates, FinalizeCreates, Ke3Matches, IsKe3;
    var e := r.events[n];
    if e.Serve? {
      ProcessStep(r.cfg, After(r, n), e.req, e.now, e.draw);
    }
  }

  /** With fresh session ids, a session whose finalize has failed is never stored again,
      so it can be neither verified nor used by any later request. */
  lemma {:induction false} FailedNeverReturns(r: Run, m: nat, n: nat, id: string)
    requires ValidRun(r) && m < n <= |r.events| && FailedAt(r, m, id)
    ensures id !in After(r, n).sessions
  {
    hide Next, IsKe3, Ke3Matches;
    if n == m + 1 {
      FailureDrops(r, m, id);
    } else {
      FailedNeverReturns(r, m, n - 1, id);
      if id in After(r, n).sessions {
        Appears(r, n - 1, id);
        DrawnBefore(r, m, id);
        assert false;
      }
    }
  }

  // ---------- what passing the gate implies ----------

  /** An assertion, on the raw bytes: its client data carry the challenge, with the right
      type and an allowed origin; its authenticator data are for this RP, of a user
      present and verified, with a count that passes the rule; and the key, a point of the
      curve, has signed both. */
  ghost predicate SignedFor(
      cfg: Config, a: WebAuthn.Assertion, cred: Stores.Credential, key: EcPoint.Point, challenge: string)
    requires ValidConfig(cfg)
  {
    var prims, cd, d := cfg.codec.webauthn, cfg.codec.webauthn.parseClientData(a.clientData), a.authData;
    && cd.Some? && cd.value.typ == "webauthn.get"
    && cd.value.challenge == challenge && cd.value.origin in cfg.rp.origins
    && |d| >= 37 && d[..32] == prims.sha256(cfg.rp.id) && d[32] % 2 == 1 && d[32] / 4 % 2 == 1
    && (FromBE(d[33..37]) > cred.signCount || FromBE(d[33..37]) == cred.signCount == 0)
    && |cred.publicKey| == 1 + 2 * cfg.rp.curve.byteLen && cred.publicKey[0] == 4
    && key.x == FromBE(cred.publicKey[1..1 + cfg.rp.curve.byteLen])
    && key.y == FromBE(cred.publicKey[1 + cfg.rp.curve.byteLen..])
    && key.x < cfg.rp.curve.p && key.y < cfg.rp.curve.p && EcPoint.SolvesCurve(cfg.rp.curve, key.x, key.y)
    && prims.verifySignature(key, prims.sha256(d + prims.sha256(a.clientData)), a.signature)
  }

  lemma AcceptedIsSigned(
      cfg: Config, s: State, req: Request, now: int,
      bytes: seq<byte>, a: DecodedAssertion, cred: Stores.Credential, key: EcPoint.Point)
    requires ValidConfig(cfg) && FinalizeAccepts(cfg, s, req, now, bytes, a, cred, key)
    ensures SignedFor(cfg, a.assertion, cred, key, s.sealed[bytes].challenge)
  {
    hide WebAuthn.JudgeAssertion, EcPoint.Unmarshal, EcPoint.SolvesCurve, FromBE, MatchedCredential;
    WebAuthn.AssertionIff(
      cfg.codec.webauthn, cfg.rp, a.assertion, key, cred.signCount, s.sealed[bytes].challenge);
    EcPoint.UnmarshalBytes(cfg.rp.curve, cred.publicKey, key);
  }

  /** Event h issued, to this client and context, the very token that the finalize at
      event i opens, no older than its lifetime; on the very challenge that event h
      replied with, the credential `cred` with the asserted id signed with its key. */
  ghost predicate AnswersChallenge(
      r: Run, h: nat, i: nat, bytes: seq<byte>, a: DecodedAssertion, cred: Stores.Credential, key: EcPoint.Point)
    requires ValidConfig(r.cfg)
  {
    && h < i < |r.events| && r.events[i].Serve? && bytes in After(r, i).sealed
    && IssuedAt(r, h, bytes, After(r, i).sealed[bytes])
    && FinalizeAccepts(r.cfg, After(r, i), r.events[i].req, r.events[i].now, bytes, a, cred, key)
    && SignedFor(r.cfg, a.assertion, cred, key, ReplyTo(r, h).challenge)
    && r.events[h].req.clientId == r.events[i].req.clientId
    && r.events[h].req.ctx == r.events[i].req.ctx
    && r.events[i].now - r.events[h].now <= r.cfg.tokenTTL
  }

  /** Session d was opened at event i by OPAQUE, and its KE3 came at event j. */
  ghost predicate ByPassword(r: Run, i: nat, j: nat, d: Sessions.SessionData)
    requires ValidConfig(r.cfg)
  {
    && i < j && CreatedAt(r, i, d) && !d.verified && VerifiedAt(r, j, d)
    && var e := r.events[i]; EvaluateCreates(r.cfg, After(r, i), e.req, e.now, e.draw, d)
  }

  /** Session d was opened at event i by FIDO2, by answering the challenge of event h. */
  ghost predicate ByFido(r: Run, h: nat, i: nat, d: Sessions.SessionData)
    requires ValidConfig(r.cfg)
  {
    && CreatedAt(r, i, d) && d.verified
    && (exists bytes, a, cred, key :: AnswersChallenge(r, h, i, bytes, a, cred, key))
    && var e := r.events[i]; FinalizeCreates(r.cfg, After(r, i), e.req, e.now, e.draw, d)
  }

  /** What the gate relies on: the session was opened at event i, before n, and proved
      by one of the two factors before n; no finalize of it has failed; it is still
      unexpired and its context is the creating request's and this request's. */
  ghost predicate AuthenticatedSession(r: Run, n: nat, i: nat, d: Sessions.SessionData)
    requires ValidConfig(r.cfg)
  {
    && i < n < |r.events| && r.events[n].Serve? && r.events[i].Serve?
    && d.id == r.events[n].req.sessionId == r.events[i].draw.sessionId
    && ((exists j | i < j < n :: ByPassword(r, i, j, d)) || (exists h | 0 <= h < i :: ByFido(r, h, i, d)))
    && (forall m | i <= m < n :: !FailedAt(r, m, d.id))
    && r.events[n].now <= d.expiresAt <= r.events[i].now + r.cfg.sessionTTL
    && (if d.verified then d.expiresAt == r.events[i].now + r.cfg.sessionTTL
        else IsLifetime(r.cfg.sessionTTL, DurationIn(r.cfg, r.events[i].req), d.expiresAt - r.events[i].now))
    && r.events[n].req.ctx == d.ctx == r.events[i].req.ctx
  }

  lemma ChallengeOf(r: Run, i: nat, d: Sessions.SessionData)
    requires ValidConfig(r.cfg) && CreatedAt(r, i, d)
    requires var e := r.events[i]; FinalizeCreates(r.cfg, After(r, i), e.req, e.now, e.draw, d)
    ensures exists h | 0 <= h < i :: ByFido(r, h, i, d)
  {
    hide JudgeFinalize, MatchedCredential, Process, EvaluateCreates, SignedFor;
    var e, s := r.events[i], After(r, i);
    var bytes, a, cred, key :| FinalizeAccepts(r.cfg, s, e.req, e.now, bytes, a, cred, key);
    TokensWereIssued(r, i, bytes);
    var h :| 0 <= h < i && IssuedAt(r, h, bytes, s.sealed[bytes]);
    AcceptedIsSigned(r.cfg, s, e.req, e.now, bytes, a, cred, key);
    assert AnswersChallenge(r, h, i, bytes, a, cred, key);
    assert ByFido(r, h, i, d);
  }

  /** A verified session was proved by one of the two factors. */
  lemma OriginProof(r: Run, n: nat, current: Sessions.SessionData, i: nat, d: Sessions.SessionData)
    requires ValidConfig(r.cfg) && n <= |r.events|
    requires Origin(r, n, current, i, d) && current.verified
    ensures (exists j | i < j < n :: ByPassword(r, i, j, d)) || (exists h | 0 <= h < i :: ByFido(r, h, i, d))
  {
    hide Process, EvaluateCreates, FinalizeCreates, VerifiedAt, FailedAt;
    CreationFacts(r, i, d);
    var e := r.events[i];
    if EvaluateCreates(r.cfg, After(r, i), e.req, e.now, e.draw, d) {
      var j :| i < j < n && VerifiedAt(r, j, d);
      assert ByPassword(r, i, j, d);
    } else {
      ChallengeOf(r, i, d);
    }
  }

  /** Main result: in every run, a request that passes the session gate names a session
      that was authenticated in this very run, by an OPAQUE evaluation whose own MAC a
      later KE3 matched, or by a FIDO2 finalize that answered a challenge issued to the
      same client and context within the token lifetime. */
  lemma GateImpliesAuthenticated(r: Run, n: nat)
    requires ValidConfig(r.cfg) && n < |r.events| && r.events[n].Serve?
    requires Gate(After(r, n), r.events[n].req, r.events[n].now).0.Some?
    ensures exists i: nat, d :: AuthenticatedSession(r, n, i, d)
              && d.task == Gate(After(r, n), r.events[n].req, r.events[n].now).0.value.task
  {
    hide Gate, Process, EvaluateCreates, FinalizeCreates, VerifiedAt, FailedAt, CreatedAt, ByPassword, ByFido;
    var id := r.events[n].req.sessionId;
    var current := After(r, n).sessions[id];
    EverySessionHasOrigin(r, n, id);
    var i: nat, d :| Origin(r, n, current, i, d);
    OriginProof(r, n, current, i, d);
    OriginId(r, n, current, i, d);
    CreationFacts(r, i, d);
    assert AuthenticatedSession(r, n, i, d);
  }

  lemma CreationFacts(r: Run, i: nat, d: Sessions.SessionData)
    requires ValidConfig(r.cfg) && CreatedAt(r, i, d)
    ensures i < |r.events| && r.events[i].Serve?
    ensures d.id == r.events[i].draw.sessionId && d.ctx == r.events[i].req.ctx
    ensures d.expiresAt <= r.events[i].now + r.cfg.sessionTTL
    ensures if d.verified then d.expiresAt == r.events[i].now + r.cfg.sessionTTL
            else IsLifetime(r.cfg.sessionTTL, DurationIn(r.cfg, r.events[i].req), d.expiresAt - r.events[i].now)
    ensures var e := r.events[i];
            EvaluateCreates(r.cfg, After(r, i), e.req, e.now, e.draw, d) ==> !d.verified && d.task == ""
    ensures var e := r.events[i];
            FinalizeCreates(r.cfg, After(r, i), e.req, e.now, e.draw, d) ==> TaskIn(r.cfg, e.req) == Some(d.task)
  {
  }

  // ---------- what needs the gate ----------

  /** Requests for a handler that needs a session, and credential changes. */
  predicate NeedsSession(cfg: Config, req: Request) {
    IsChange(req.typ)
    || (!IsRegistration(req.typ) && !IsAuthenticate(req.typ)
        && req.typ in cfg.handlers && cfg.handlers[req.typ] != OtherHandler(false))
  }

  /** The gate does not look at the client: whoever names the session passes it. */
  lemma GateIgnoresClient(s: State, req: Request, other: string, now: int)
    ensures Gate(s, req.(clientId := other), now) == Gate(s, req, now)
  {
  }

  /** A service request is answered alike for every client. */
  lemma ServiceIgnoresClient(cfg: Config, s: State, req: Request, other: string, now: int, draw: Draw)
    requires ValidConfig(cfg) && !IsRegistration(req.typ) && !IsAuthenticate(req.typ) && !IsChange(req.typ)
    ensures Process(cfg, s, req.(clientId := other), now, draw) == Process(cfg, s, req, now, draw)
  {
    hide Gate, SadRefuses, EcdsaHandle;
    GateIgnoresClient(s, req, other, now);
    SadIgnoresClient(cfg, req, other);
  }

  lemma SadIgnoresClient(cfg: Config, req: Request, other: string)
    ensures forall sess :: SadRefuses(cfg, sess, req.(clientId := other)) == SadRefuses(cfg, sess, req)
  {
  }

  /** Every request that passes the gate comes from its session's client. */
  ghost predicate OnlyOwnersPass(s: State, now: int) {
    forall req | Gate(s, req, now).0.Some? :: Gate(s, req, now).0.value.clientId == req.clientId
  }

  /** Main result: only the owners of sessions pass the gate exactly when nobody can, for
      want of a verified session that is still live. */
  lemma OnlyOwnersPassIff(s: State, now: int)
    ensures OnlyOwnersPass(s, now)
            <==> forall id :: !(Sessions.Live(s.sessions, id, now) && s.sessions[id].verified)
  {
    forall id | Sessions.Live(s.sessions, id, now) && s.sessions[id].verified ensures !OnlyOwnersPass(s, now) {
      var d := s.sessions[id];
      var stranger := Request(d.clientId + "'", d.ctx, "", id, []);
      assert Gate(s, stranger, now).0 == Some(d);
    }
  }

  /** Without the gate such a request fails and changes nothing. */
  lemma GateIsNecessary(cfg: Config, s: State, req: Request, now: int, draw: Draw)
    requires ValidConfig(cfg) && NeedsSession(cfg, req)
    requires Gate(s, req, now).0.None?
    ensures Process(cfg, s, req, now, draw) == (s, Fail(Gate(s, req, now).1))
  {
    hide Handle2FA, SadRefuses, EcdsaHandle, Gate;
  }

  /** Main result: the HSM is asked to sign only in an authenticated session, and then
      only a hash of an accepted length that the task of that session allows. The task
      is the one the creating FIDO2 finalize asked for; OPAQUE sessions have none. */
  lemma SignsOnlyAllowed(r: Run, n: nat, kid: string, hash: seq<byte>)
    requires ValidConfig(r.cfg) && n < |r.events| && r.events[n].Serve?
    requires ReplyTo(r, n) == Signed(kid, hash)
    ensures Sad.HashLength(|hash|)
    ensures exists i: nat, d :: AuthenticatedSession(r, n, i, d)
              && Sad.Allows(r.cfg.codec.webauthn.sha256, d.task, hash)
              && (d.task == "" || TaskIn(r.cfg, r.events[i].req) == Some(d.task))
  {
    var e := r.events[n];
    SignedPassesGate(r.cfg, After(r, n), e.req, e.now, e.draw);
    hide Process, Gate, Sad.Allows;
    GateImpliesAuthenticated(r, n);
    var i: nat, d :| AuthenticatedSession(r, n, i, d) && d.task == Gate(After(r, n), e.req, e.now).0.value.task;
    assert CreatedAt(r, i, d);
    CreationFacts(r, i, d);
  }

  lemma SignedPassesGate(cfg: Config, s: State, req: Request, now: int, draw: Draw)
    requires ValidConfig(cfg) && Process(cfg, s, req, now, draw).1.Signed?
    ensures Gate(s, req, now).0.Some?
    ensures var hash := Process(cfg, s, req, now, draw).1.hash;
            Sad.HashLength(|hash|) && Sad.Allows(cfg.codec.webauthn.sha256, Gate(s, req, now).0.value.task, hash)
  {
    hide Gate, Sad.Allows, HandleOpaque, HandleFido;
    assert Process(cfg, s, req, now, draw).1 == HandleService(cfg, s, req, now).1 by {
      forall tfa { NoSigning(cfg, s, req, tfa, now, draw); }
    }
    if Gate(s, req, now).0.Some? && Gate(s, req, now).0.value.task == "" {
      EmptyTaskAllows(cfg.codec.webauthn.sha256, HandleService(cfg, s, req, now).1.hash);
    }
  }

  lemma EmptyTaskAllows(sha256: seq<byte> -> seq<byte>, hash: seq<byte>)
    ensures Sad.Allows(sha256, "", hash)
  {
  }

  lemma NoSigning(cfg: Config, s: State, req: Request, tfa: TFA, now: int, draw: Draw)
    requires ValidConfig(cfg)
    ensures !HandleFido(cfg, s, req, tfa, now, draw).1.Signed? && !HandleOpaque(cfg, s, req, tfa, now, draw).1.Signed?
  {
    hide Stores.Step, Attempts.Checked, Attempts.Failed, Attempts.Locked, BoundToken, JudgeFinalize, DecodeAssertion,
         MatchedCredential, WebAuthn.JudgeRegistration;
  }
}
