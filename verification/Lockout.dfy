/** Lockout over whole runs: what a locking failure does to later logins. */
module Lockout {
  import opened Bytes
  import opened Protocol
  import opened Runs
  import opened Authentication
  import Attempts
  import Sessions
  import SignCounts
  import Stores
  import EcPoint
  import WebAuthn

  /** Every change that a request can make to the attempt table. */
  ghost predicate AttemptsStep(cfg: Config, s: State, t: State, reply: Reply, req: Request, now: int) {
    var key := CounterKeyOf(req);
    || t.attempts == s.attempts
    || t.attempts == Attempts.Checked(cfg.policy, s.attempts, key, now)
    || t.attempts == Attempts.Failed(cfg.policy, s.attempts, key, now)
    || (t.attempts == s.attempts - {key} && (reply.Authenticated? || reply.FidoSession?))
  }

  lemma OpaqueAttempts(cfg: Config, s: State, req: Request, tfa: TFA, now: int, draw: Draw)
    ensures var (t, reply) := HandleOpaque(cfg, s, req, tfa, now, draw);
            AttemptsStep(cfg, s, t, reply, req, now)
  {
    hide Attempts.Checked, Attempts.Failed, Attempts.Locked, Attempts.CounterKey, SessionTtl, Stores.Step;
  }

  lemma FinalizeAttempts(cfg: Config, s: State, req: Request, tfa: TFA, now: int, draw: Draw)
    requires ValidConfig(cfg)
    ensures var (t, reply) := FidoAuthFinalize(cfg, s, req, tfa, now, draw);
            AttemptsStep(cfg, s, t, reply, req, now)
  {
    hide Attempts.Checked, Attempts.Failed, CounterKeyOf, Stores.Step, BoundToken, JudgeFinalize, DecodeAssertion,
         MatchedCredential, EcPoint.Unmarshal;
  }

  lemma RegisterAttempts(cfg: Config, s: State, req: Request, tfa: TFA, now: int)
    requires ValidConfig(cfg)
    ensures FidoRegisterCredential(cfg, s, req, tfa, now).0.attempts == s.attempts
  {
    hide BoundToken, WebAuthn.JudgeRegistration, Stores.Step;
  }

  lemma FidoAttempts(cfg: Config, s: State, req: Request, tfa: TFA, now: int, draw: Draw)
    requires ValidConfig(cfg)
    ensures var (t, reply) := HandleFido(cfg, s, req, tfa, now, draw);
            AttemptsStep(cfg, s, t, reply, req, now)
  {
    hide Attempts.Checked, Attempts.Failed, Attempts.Locked, CounterKeyOf, FidoAuthFinalize, FidoRegisterCredential;
    FinalizeAttempts(cfg, s, req, tfa, now, draw);
    RegisterAttempts(cfg, s, req, tfa, now);
  }

  lemma ProcessAttempts(cfg: Config, s: State, req: Request, now: int, draw: Draw)
    requires ValidConfig(cfg)
    ensures var (t, reply) := Process(cfg, s, req, now, draw);
            AttemptsStep(cfg, s, t, reply, req, now)
  {
    hide HandleOpaque, HandleFido, Gate, SadRefuses, SignData, AttemptsStep;
    var tfa := cfg.codec.tfa(req.data);
    if tfa.Some? {
      OpaqueAttempts(cfg, s, req, tfa.value, now, draw);
      FidoAttempts(cfg, s, req, tfa.value, now, draw);
    }
    SameAttempts(cfg, s, Process(cfg, s, req, now, draw).1, req, now);
  }

  lemma SameAttempts(cfg: Config, s: State, reply: Reply, req: Request, now: int)
    ensures AttemptsStep(cfg, s, s, reply, req, now)
  {
  }

  /** The key is locked until at least `since` plus the lockout. */
  ghost predicate LockedSince(cfg: Config, s: State, key: string, since: int) {
    Attempts.Full(cfg.policy, s.attempts, key) && s.attempts[key].lockedAt >= since
  }

  /** The requests that ask the counter first: `authEvaluate` and `fido2AuthChallenge`. */
  predicate AsksCounter(cfg: Config, req: Request) {
    && IsAuthenticate(req.typ)
    && var tfa := cfg.codec.tfa(req.data);
       && tfa.Some?
       && ((tfa.value.protocol == "opaque" && OpaqueData(cfg, req).Some? && tfa.value.state == "evaluate")
           || (tfa.value.protocol == "fido2" && cfg.fido2 && tfa.value.state == "challenge"))
  }

  /** `fido2RegChallenge`, which seals the same kind of token without asking. */
  predicate AsksRegistrationChallenge(cfg: Config, req: Request) {
    && IsRegistration(req.typ) && cfg.fido2
    && var tfa := cfg.codec.tfa(req.data);
       tfa.Some? && tfa.value.protocol == "fido2" && tfa.value.state == "challenge"
  }

  /** All requests with which a login can start: every session stems from the reply to one
      of them (`EveryLoginWasStarted`). */
  predicate StartsLogin(cfg: Config, req: Request) {
    AsksCounter(cfg, req) || AsksRegistrationChallenge(cfg, req)
  }

  lemma LockedRefuses(cfg: Config, s: State, req: Request, now: int, draw: Draw)
    requires ValidConfig(cfg) && AsksCounter(cfg, req)
    requires Attempts.Locked(cfg.policy, s.attempts, CounterKeyOf(req), now)
    ensures Process(cfg, s, req, now, draw) == (s, Fail(AccessDenied))
  {
    hide Attempts.Locked, Attempts.CounterKey;
  }

  lemma RegistrationIssues(cfg: Config, s: State, req: Request, now: int, draw: Draw)
    requires ValidConfig(cfg) && AsksRegistrationChallenge(cfg, req)
    ensures Process(cfg, s, req, now, draw) == IssueToken(s, req, now, draw)
  {
  }

  /** A challenge or a KE2 answers a request of one of those kinds. */
  lemma RepliesThatStart(cfg: Config, s: State, req: Request, now: int, draw: Draw)
    requires ValidConfig(cfg)
    ensures var reply := Process(cfg, s, req, now, draw).1;
            && (reply.Challenge? ==> StartsLogin(cfg, req))
            && (reply.Ke2? ==> AsksCounter(cfg, req))
  {
    hide Gate, SadRefuses, SignData, BoundToken, JudgeFinalize, DecodeAssertion, MatchedCredential, Stores.Step,
         WebAuthn.JudgeRegistration, EcPoint.Unmarshal, Attempts.Checked, Attempts.Failed, Attempts.Locked, SessionTtl;
  }

  ghost predicate SucceedsFor(r: Run, n: nat, key: string)
    requires ValidConfig(r.cfg)
  {
    && n < |r.events| && r.events[n].Serve?
    && (ReplyTo(r, n).Authenticated? || ReplyTo(r, n).FidoSession?)
    && CounterKeyOf(r.events[n].req) == key
  }

  lemma {:induction false} LockPersists(r: Run, i: nat, n: nat, key: string)
    requires ValidConfig(r.cfg) && i < n <= |r.events|
    requires LockedSince(r.cfg, After(r, i + 1), key, r.events[i].now)
    requires forall k | i < k < n :: r.events[i].now <= r.events[k].now < r.events[i].now + r.cfg.policy.lockout
    requires forall k | i < k < n :: !SucceedsFor(r, k, key)
    ensures LockedSince(r.cfg, After(r, n), key, r.events[i].now)
  {
    hide Process, Attempts.CounterKey;
    if n > i + 1 {
      LockPersists(r, i, n - 1, key);
      var e := r.events[n - 1];
      if e.Serve? {
        ProcessAttempts(r.cfg, After(r, n - 1), e.req, e.now, e.draw);
        assert !SucceedsFor(r, n - 1, key);
      }
    }
  }

  /** Main result: once a request at time t has left a key locked at t, and before t plus
      the lockout, unless a login for the key has succeeded in between, a request that
      starts a login for that key is refused, changing nothing, if and only if it asks the
      counter. The registration challenge does not ask: it gets its challenge. */
  lemma LockoutHolds(r: Run, i: nat, n: nat)
    requires ValidRun(r) && i < n < |r.events| && r.events[n].Serve?
    requires LockedSince(r.cfg, After(r, i + 1), CounterKeyOf(r.events[n].req), r.events[i].now)
    requires StartsLogin(r.cfg, r.events[n].req)
    requires r.events[n].now < r.events[i].now + r.cfg.policy.lockout
    requires forall k | i < k < n :: !SucceedsFor(r, k, CounterKeyOf(r.events[n].req))
    ensures ReplyTo(r, n) == Fail(AccessDenied) <==> AsksCounter(r.cfg, r.events[n].req)
    ensures AsksCounter(r.cfg, r.events[n].req) ==> After(r, n + 1) == After(r, n)
    ensures !AsksCounter(r.cfg, r.events[n].req) ==>
              ReplyTo(r, n) == Challenge(r.events[n].draw.challenge, r.events[n].draw.ciphertext)
  {
    hide Process, AsksCounter, SucceedsFor, AsksRegistrationChallenge;
    var e := r.events[n];
    if AsksCounter(r.cfg, e.req) {
      LockPersists(r, i, n, CounterKeyOf(r.events[n].req));
      LockedRefuses(r.cfg, After(r, n), e.req, e.now, e.draw);
    } else {
      RegistrationIssues(r.cfg, After(r, n), e.req, e.now, e.draw);
    }
  }

  // ---------- where a login during a lockout comes from ----------

  lemma FidoSessionCreates(cfg: Config, s: State, req: Request, now: int, draw: Draw)
    requires ValidConfig(cfg)
    ensures var (t, reply) := Process(cfg, s, req, now, draw);
            reply.FidoSession? ==> reply.sessionId in t.sessions && t.sessions[reply.sessionId].verified
  {
    hide Gate, SadRefuses, SignData, BoundToken, JudgeFinalize, DecodeAssertion, MatchedCredential, Stores.Step,
         WebAuthn.JudgeRegistration, EcPoint.Unmarshal, Attempts.Checked, Attempts.Failed, Attempts.Locked, SessionTtl;
  }

  /** A FIDO2 session answers the challenge of an earlier request that started a login. */
  lemma EveryLoginWasStarted(r: Run, n: nat)
    requires ValidConfig(r.cfg) && n < |r.events| && r.events[n].Serve? && ReplyTo(r, n).FidoSession?
    ensures exists h: nat, bytes, a, cred, key ::
              AnswersChallenge(r, h, n, bytes, a, cred, key) && StartsLogin(r.cfg, r.events[h].req)
  {
    hide Process, AsksCounter, AsksRegistrationChallenge, StartsLogin, EvaluateCreates, FinalizeAccepts;
    var e, s := r.events[n], After(r, n);
    ProcessStep(r.cfg, s, e.req, e.now, e.draw);
    FidoSessionCreates(r.cfg, s, e.req, e.now, e.draw);
    var d := ChangeOf(s, ReplyTo(r, n), After(r, n + 1), e.req).d;
    CreationIs(r, n, d);
    CreationFacts(r, n, d);
    ChallengeOf(r, n, d);
    var h: nat :| h < n && ByFido(r, h, n, d);
    var bytes, a, cred, key :| AnswersChallenge(r, h, n, bytes, a, cred, key);
    AnsweredStarts(r, h, n, bytes, a, cred, key);
  }

  lemma AnsweredStarts(
      r: Run, h: nat, n: nat, bytes: seq<byte>, a: DecodedAssertion, cred: Stores.Credential, key: EcPoint.Point)
    requires ValidConfig(r.cfg) && AnswersChallenge(r, h, n, bytes, a, cred, key)
    ensures ReplyTo(r, h).Challenge? && StartsLogin(r.cfg, r.events[h].req)
  {
    hide Process, StartsLogin, FinalizeAccepts;
    var e := r.events[h];
    RepliesThatStart(r.cfg, After(r, h), e.req, e.now, e.draw);
  }

  /** Main result: a finalize inside the lockout answers a challenge that was issued before
      the lock, or one of the registration kind: no other way leads a locked client in. */
  lemma LockedLoginComesFrom(
      r: Run, i: nat, h: nat, n: nat,
      bytes: seq<byte>, a: DecodedAssertion, cred: Stores.Credential, key: EcPoint.Point)
    requires ValidRun(r) && i < n < |r.events| && r.events[n].Serve?
    requires LockedSince(r.cfg, After(r, i + 1), CounterKeyOf(r.events[n].req), r.events[i].now)
    requires r.events[n].now < r.events[i].now + r.cfg.policy.lockout
    requires forall k | i < k < n :: !SucceedsFor(r, k, CounterKeyOf(r.events[n].req))
    requires AnswersChallenge(r, h, n, bytes, a, cred, key)
    ensures h <= i || AsksRegistrationChallenge(r.cfg, r.events[h].req)
  {
    hide Process, AsksCounter, AsksRegistrationChallenge, SucceedsFor, FinalizeAccepts, Attempts.CounterKey,
         LockedSince;
    AnsweredStarts(r, h, n, bytes, a, cred, key);
    if h > i {
      LockoutHolds(r, i, h);
    }
  }

  // ---------- what the lock does not stop ----------

  /** The parts of a request that look at the state do not look at the attempts. */
  lemma LookupsIgnoreAttempts(cfg: Config, s: State, req: Request, attempts: Attempts.Table, now: int)
    requires ValidConfig(cfg)
    ensures var t := s.(attempts := attempts);
            && Gate(t, req, now) == Gate(s, req, now)
            && (forall encoded :: BoundToken(cfg, t, req, encoded, now) == BoundToken(cfg, s, req, encoded, now))
            && (forall id :: MatchedCredential(t, req, id) == MatchedCredential(s, req, id))
  {
    hide Stores.FirstMatch, StoreKeyOf;
  }

  lemma FinalizeIgnoresAttempts(
      cfg: Config, s: State, req: Request, attempts: Attempts.Table, tfa: TFA, now: int, draw: Draw)
    requires ValidConfig(cfg)
    ensures var t := s.(attempts := attempts);
            && FidoAuthFinalize(cfg, t, req, tfa, now, draw).1 == FidoAuthFinalize(cfg, s, req, tfa, now, draw).1
            && FidoRegisterCredential(cfg, t, req, tfa, now).1 == FidoRegisterCredential(cfg, s, req, tfa, now).1
  {
    hide Attempts.Failed, CounterKeyOf, Stores.Step, BoundToken, JudgeFinalize, DecodeAssertion, MatchedCredential,
         EcPoint.Unmarshal, WebAuthn.JudgeRegistration;
    LookupsIgnoreAttempts(cfg, s, req, attempts, now);
  }

  lemma OpaqueIgnoresAttempts(
      cfg: Config, s: State, req: Request, attempts: Attempts.Table, tfa: TFA, now: int, draw: Draw)
    requires cfg.codec.tfa(req.data) == Some(tfa) && tfa.protocol == "opaque" && !AsksCounter(cfg, req)
    ensures HandleOpaque(cfg, s.(attempts := attempts), req, tfa, now, draw).1
         == HandleOpaque(cfg, s, req, tfa, now, draw).1
  {
    hide Attempts.Failed, Attempts.CounterKey, Stores.Step, AuthEvaluate;
  }

  lemma FidoIgnoresAttempts(
      cfg: Config, s: State, req: Request, attempts: Attempts.Table, tfa: TFA, now: int, draw: Draw)
    requires ValidConfig(cfg)
    requires cfg.codec.tfa(req.data) == Some(tfa) && tfa.protocol == "fido2" && !AsksCounter(cfg, req)
    ensures HandleFido(cfg, s.(attempts := attempts), req, tfa, now, draw).1
         == HandleFido(cfg, s, req, tfa, now, draw).1
  {
    hide FidoAuthFinalize, FidoRegisterCredential, FidoAuthChallenge;
    FinalizeIgnoresAttempts(cfg, s, req, attempts, tfa, now, draw);
  }

  /** Main result: the reply to a request that does not ask the counter is the same
      whatever the attempt table holds, finalizes of both factors included. */
  lemma RepliesIgnoreAttempts(cfg: Config, s: State, req: Request, attempts: Attempts.Table, now: int, draw: Draw)
    requires ValidConfig(cfg) && !AsksCounter(cfg, req)
    ensures Process(cfg, s.(attempts := attempts), req, now, draw).1 == Process(cfg, s, req, now, draw).1
  {
    hide HandleOpaque, HandleFido, Gate, SadRefuses, EcdsaHandle, AsksCounter;
    LookupsIgnoreAttempts(cfg, s, req, attempts, now);
    var tfa := cfg.codec.tfa(req.data);
    if tfa.Some? && tfa.value.protocol == "opaque" {
      OpaqueIgnoresAttempts(cfg, s, req, attempts, tfa.value, now, draw);
    } else if tfa.Some? && tfa.value.protocol == "fido2" {
      FidoIgnoresAttempts(cfg, s, req, attempts, tfa.value, now, draw);
    }
  }

  lemma UnlockedAdmits(cfg: Config, s: State, req: Request, now: int, draw: Draw)
    requires ValidConfig(cfg) && AsksCounter(cfg, req)
    requires !Attempts.Locked(cfg.policy, s.attempts, CounterKeyOf(req), now)
    ensures Process(cfg, s, req, now, draw).1 != Fail(AccessDenied)
  {
    hide Attempts.Locked, Attempts.Checked, Attempts.CounterKey, SessionTtl;
  }

  /** Main result: of all requests of a locked key, the lock changes the reply to exactly
      those that ask the counter. */
  lemma LockStopsExactlyAsking(cfg: Config, s: State, req: Request, now: int, draw: Draw)
    requires ValidConfig(cfg) && Attempts.Locked(cfg.policy, s.attempts, CounterKeyOf(req), now)
    ensures Process(cfg, s, req, now, draw).1 != Process(cfg, s.(attempts := map[]), req, now, draw).1
            <==> AsksCounter(cfg, req)
  {
    hide Process, AsksCounter;
    if AsksCounter(cfg, req) {
      LockedRefuses(cfg, s, req, now, draw);
      UnlockedAdmits(cfg, s.(attempts := map[]), req, now, draw);
    } else {
      RepliesIgnoreAttempts(cfg, s, req, map[], now, draw);
    }
  }

  /** Main result: a registration challenge puts every client, locked or not, where an
      authentication challenge puts a client without failures: both get the same reply,
      and so does every later request that does not ask the counter. */
  lemma RegistrationChallengeServesLogin(
      cfg: Config, s: State, reg: Request, auth: Request, now: int, draw: Draw,
      later: Request, then_: int, next: Draw)
    requires ValidConfig(cfg) && AsksRegistrationChallenge(cfg, reg)
    requires AsksCounter(cfg, auth) && cfg.codec.tfa(auth.data).value.protocol == "fido2"
    requires reg.clientId == auth.clientId && reg.ctx == auth.ctx && !AsksCounter(cfg, later)
    ensures var (t, reply) := Process(cfg, s, reg, now, draw);
            var (t', reply') := Process(cfg, s.(attempts := map[]), auth, now, draw);
            reply == reply' && Process(cfg, t, later, then_, next).1 == Process(cfg, t', later, then_, next).1
  {
    hide Process, AsksRegistrationChallenge;
    RegistrationIssues(cfg, s, reg, now, draw);
    UnlockedIssues(cfg, s, auth, now, draw);
    hide AsksCounter;
    RepliesIgnoreAttempts(cfg, Process(cfg, s, reg, now, draw).0, later, map[], then_, next);
  }

  lemma UnlockedIssues(cfg: Config, s: State, req: Request, now: int, draw: Draw)
    requires ValidConfig(cfg) && AsksCounter(cfg, req) && cfg.codec.tfa(req.data).value.protocol == "fido2"
    ensures Process(cfg, s.(attempts := map[]), req, now, draw) == IssueToken(s.(attempts := map[]), req, now, draw)
  {
    hide Attempts.CounterKey;
  }

  // ---------- what ends a lock early ----------

  /** A login that succeeds wipes the record of the client that the request names. */
  lemma SuccessWipes(cfg: Config, s: State, req: Request, now: int, draw: Draw)
    requires ValidConfig(cfg)
    ensures var (t, reply) := Process(cfg, s, req, now, draw);
            reply.Authenticated? || reply.FidoSession? ==> t.attempts == s.attempts - {CounterKeyOf(req)}
  {
    hide Gate, SadRefuses, SignData, HandleOpaque, FidoAuthFinalize, FidoRegisterCredential, Attempts.Checked,
         Attempts.Locked, Attempts.CounterKey;
    var tfa := cfg.codec.tfa(req.data);
    if tfa.Some? {
      OpaqueWipes(cfg, s, req, tfa.value, now, draw);
      FidoWipes(cfg, s, req, tfa.value, now, draw);
    }
  }

  lemma OpaqueWipes(cfg: Config, s: State, req: Request, tfa: TFA, now: int, draw: Draw)
    ensures var (t, reply) := HandleOpaque(cfg, s, req, tfa, now, draw);
            !reply.FidoSession? && (reply.Authenticated? ==> t.attempts == s.attempts - {CounterKeyOf(req)})
  {
    hide Attempts.Checked, Attempts.Failed, Attempts.Locked, Attempts.CounterKey, Stores.Step, SessionTtl;
  }

  lemma FidoWipes(cfg: Config, s: State, req: Request, tfa: TFA, now: int, draw: Draw)
    requires ValidConfig(cfg)
    ensures var (t, reply) := FidoAuthFinalize(cfg, s, req, tfa, now, draw);
            !reply.Authenticated? && (reply.FidoSession? ==> t.attempts == s.attempts - {CounterKeyOf(req)})
    ensures var reply := FidoRegisterCredential(cfg, s, req, tfa, now).1; !reply.Authenticated? && !reply.FidoSession?
  {
    hide Attempts.Failed, Attempts.CounterKey, Stores.Step, BoundToken, JudgeFinalize, DecodeAssertion,
         MatchedCredential, EcPoint.Unmarshal, WebAuthn.JudgeRegistration;
  }

  /** A finalize of a live session with a KE3 that matches its MAC. */
  predicate CompletesPassword(cfg: Config, s: State, req: Request, now: int) {
    && IsKe3(cfg, req) && Sessions.Live(s.sessions, req.sessionId, now)
    && Ke3Matches(cfg, req, s.sessions[req.sessionId].mac)
  }

  /** The client's ephemeral key in a FIDO2 finalize, when it is a point. */
  function ClientKeyOf(cfg: Config, req: Request): Option<EcPoint.Point>
    requires ValidConfig(cfg)
  {
    var tfa := cfg.codec.tfa(req.data);
    var fin := if tfa.Some? then cfg.codec.fidoFinalize(tfa.value.pData) else None;
    var epub := if fin.Some? then cfg.codec.base64(fin.value.clientEpub) else None;
    if epub.Some? then EcPoint.Unmarshal(cfg.rp.curve, epub.value) else None
  }

  /** That key is a point of the curve, and the bytes sent are its encoding. */
  lemma ClientKeyIff(cfg: Config, req: Request, q: EcPoint.Point)
    requires ValidConfig(cfg) && cfg.rp.curve.p <= Pow256(cfg.rp.curve.byteLen)
    ensures ClientKeyOf(cfg, req) == Some(q) <==>
              && cfg.codec.tfa(req.data).Some?
              && var fin := cfg.codec.fidoFinalize(cfg.codec.tfa(req.data).value.pData);
                 && fin.Some? && EcPoint.OnCurve(cfg.rp.curve, q)
                 && cfg.codec.base64(fin.value.clientEpub) == Some(EcPoint.MarshalUncompressed(cfg.rp.curve, q))
  {
    hide EcPoint.Unmarshal, EcPoint.OnCurve, EcPoint.MarshalUncompressed;
    var tfa := cfg.codec.tfa(req.data);
    var fin := if tfa.Some? then cfg.codec.fidoFinalize(tfa.value.pData) else None;
    var epub := if fin.Some? then cfg.codec.base64(fin.value.clientEpub) else None;
    if epub.Some? {
      EcPoint.UnmarshalIff(cfg.rp.curve, epub.value, q);
    }
  }

  /** A finalize whose assertion is accepted, with a client key, when the new id is free. */
  predicate CompletesFido(cfg: Config, s: State, req: Request, now: int, draw: Draw)
    requires ValidConfig(cfg)
  {
    && SignCounts.AcceptedBy(cfg, s, req, now).Some? && ClientKeyOf(cfg, req).Some?
    && draw.sessionId !in s.sessions
  }

  lemma OpaqueCompletes(cfg: Config, s: State, req: Request, tfa: TFA, now: int, draw: Draw)
    requires cfg.codec.tfa(req.data) == Some(tfa) && tfa.protocol == "opaque"
    ensures var reply := HandleOpaque(cfg, s, req, tfa, now, draw).1;
            !reply.FidoSession? && (reply.Authenticated? <==> CompletesPassword(cfg, s, req, now))
  {
    hide Attempts.Checked, Attempts.Failed, Attempts.Locked, Attempts.CounterKey, SessionTtl, Stores.Step;
  }

  lemma FidoCompletes(cfg: Config, s: State, req: Request, tfa: TFA, now: int, draw: Draw)
    requires ValidConfig(cfg) && cfg.codec.tfa(req.data) == Some(tfa) && tfa.protocol == "fido2"
    requires cfg.fido2 && IsAuthenticate(req.typ) && tfa.state == "finalize"
    ensures FidoAuthFinalize(cfg, s, req, tfa, now, draw).1.FidoSession? <==> CompletesFido(cfg, s, req, now, draw)
  {
    hide Attempts.Failed, Attempts.CounterKey, Stores.Step, Stores.FirstMatch, BoundToken, JudgeFinalize,
         DecodeAssertion, MatchedCredential, EcPoint.Unmarshal;
  }

  /** A login completes exactly with a request of one of those two kinds. */
  lemma CompletesIff(cfg: Config, s: State, req: Request, now: int, draw: Draw)
    requires ValidConfig(cfg)
    ensures var reply := Process(cfg, s, req, now, draw).1;
            && (reply.Authenticated? <==> CompletesPassword(cfg, s, req, now))
            && (reply.FidoSession? <==> CompletesFido(cfg, s, req, now, draw))
  {
    hide HandleOpaque, FidoAuthFinalize, FidoRegisterCredential, IssueToken, FidoAuthChallenge, ClientKeyOf,
         SignCounts.AcceptedBy, Ke3Matches, Gate, SadRefuses, SignData;
    var tfa := cfg.codec.tfa(req.data);
    if tfa.Some? && tfa.value.protocol == "opaque" {
      OpaqueCompletes(cfg, s, req, tfa.value, now, draw);
      SignCounts.OthersAcceptNothing(cfg, s, req, now);
    } else if && tfa.Some? && tfa.value.protocol == "fido2" && cfg.fido2 && IsAuthenticate(req.typ)
              && tfa.value.state == "finalize" {
      FidoCompletes(cfg, s, req, tfa.value, now, draw);
      FidoNeverAuthenticates(cfg, s, req, now, draw);
    } else {
      SignCounts.OthersAcceptNothing(cfg, s, req, now);
      OthersCompleteNothing(cfg, s, req, now, draw);
    }
  }

  lemma OthersCompleteNothing(cfg: Config, s: State, req: Request, now: int, draw: Draw)
    requires ValidConfig(cfg)
    requires var tfa := cfg.codec.tfa(req.data);
             tfa.Some? ==> tfa.value.protocol != "opaque"
                           && (tfa.value.protocol != "fido2" || !cfg.fido2 || !IsAuthenticate(req.typ)
                               || tfa.value.state != "finalize")
    ensures var reply := Process(cfg, s, req, now, draw).1; !reply.Authenticated? && !reply.FidoSession?
    ensures !IsKe3(cfg, req)
  {
    hide HandleOpaque, FidoAuthFinalize, BoundToken, WebAuthn.JudgeRegistration, Attempts.Checked, Attempts.Locked,
         Attempts.CounterKey, Stores.Step, Gate, SadRefuses, SignData;
  }

  /** Main result: of the requests served while a key is locked, exactly those end the
      lock that name that client and context and either bring a live session's matching KE3
      or an accepted assertion with a client key and a free session id. All others leave
      the lock as it is or move it to the present. */
  lemma LockEndsIff(cfg: Config, s: State, req: Request, now: int, draw: Draw, key: string)
    requires ValidConfig(cfg) && Attempts.Locked(cfg.policy, s.attempts, key, now)
    ensures var t := Process(cfg, s, req, now, draw).0;
            if CounterKeyOf(req) == key
               && (CompletesPassword(cfg, s, req, now) || CompletesFido(cfg, s, req, now, draw))
            then key !in t.attempts
            else
              && Attempts.Full(cfg.policy, t.attempts, key)
              && (t.attempts[key].lockedAt == s.attempts[key].lockedAt || t.attempts[key].lockedAt == now)
  {
    hide Process, Attempts.CounterKey, CompletesPassword, CompletesFido;
    ProcessAttempts(cfg, s, req, now, draw);
    SuccessWipes(cfg, s, req, now, draw);
    CompletesIff(cfg, s, req, now, draw);
  }

  /** A finalize does not look at the client: naming another one gives the same reply and
      the same sessions, and moves the effect on the counter to the client that is named. */
  lemma FinalizeIgnoresClient(cfg: Config, s: State, req: Request, other: string, now: int, draw: Draw)
    requires ValidConfig(cfg) && IsKe3(cfg, req)
    ensures var (t, reply) := Process(cfg, s, req, now, draw);
            var (t', reply') := Process(cfg, s, req.(clientId := other), now, draw);
            && reply' == reply && t'.sessions == t.sessions && t'.store == t.store == s.store
            && (reply.Authenticated? ==> t'.attempts == s.attempts - {CounterKeyOf(req.(clientId := other))})
            && (reply == Fail(Unauthorized) ==>
                  t'.attempts == Attempts.Failed(cfg.policy, s.attempts, CounterKeyOf(req.(clientId := other)), now))
  {
    hide Attempts.Failed, Attempts.CounterKey, HandleFido, HandleService, Handle2FAChange, RegEvaluate, RegFinalize,
         AuthEvaluate;
  }
}
