/** Runs of the server: requests and cleanup ticks under a monotone clock, with fresh
    random values. What a request that passes the session gate implies about the past. */
module Runs {
  import opened Bytes
  import opened Protocol
  import opened Tokens
  import Sessions
  import Attempts
  import Stores
  import EcPoint
  import WebAuthn

  datatype Event =
    | Serve(now: int, req: Request, draw: Draw)
    | Cleanup(now: int)

  /** A configuration, the persistent store at start-up, and what happens. */
  datatype Run = Run(cfg: Config, store: Stores.Keyed<string>, events: seq<Event>)

  function Next(cfg: Config, s: State, e: Event): (State, Reply)
    requires ValidConfig(cfg)
  {
    match e
    case Serve(now, req, draw) => Process(cfg, s, req, now, draw)
    case Cleanup(now) => (s.(sessions := Sessions.Unexpired(s.sessions, now)), Served)
  }

  /** The state after the first n events. */
  function After(r: Run, n: nat): State
    requires ValidConfig(r.cfg) && n <= |r.events|
  {
    if n == 0 then State(map[], map[], r.store, map[])
    else Next(r.cfg, After(r, n - 1), r.events[n - 1]).0
  }

  function ReplyTo(r: Run, n: nat): Reply
    requires ValidConfig(r.cfg) && n < |r.events|
  {
    Next(r.cfg, After(r, n), r.events[n]).1
  }

  ghost predicate ValidRun(r: Run) {
    && ValidConfig(r.cfg)
    && (forall i, j | 0 <= i < j < |r.events| :: r.events[i].now <= r.events[j].now)
    && (forall i, j | 0 <= i < j < |r.events| && r.events[i].Serve? && r.events[j].Serve? ::
          && r.events[i].draw.sessionId != r.events[j].draw.sessionId
          && r.events[i].draw.ciphertext != r.events[j].draw.ciphertext)
  }

  // ---------- what one request does to the sessions ----------

  /** The OPAQUE message in a request, when it decodes. */
  function OpaqueData(cfg: Config, req: Request): Option<seq<byte>> {
    match cfg.codec.tfa(req.data)
    case None => None
    case Some(tfa) => if tfa.protocol == "opaque" then cfg.codec.base64(tfa.pData) else None
  }

  /** A request that reaches `authFinalize` with a KE3. */
  predicate IsKe3(cfg: Config, req: Request) {
    && IsAuthenticate(req.typ)
    && OpaqueData(cfg, req).Some?
    && cfg.codec.tfa(req.data).value.state == "finalize"
  }

  /** The KE3 in a request matches the MAC that a session expects. */
  predicate Ke3Matches(cfg: Config, req: Request, mac: seq<byte>) {
    IsKe3(cfg, req) && cfg.codec.finish(OpaqueData(cfg, req).value, mac)
  }

  /** w is what an int64 holds of the integer n. */
  predicate IsInt64Of(w: int, n: int) {
    -0x8000_0000_0000_0000 <= w < 0x8000_0000_0000_0000 && (w - n) % 0x1_0000_0000_0000_0000 == 0
  }

  /** The lifetime of a session for a requested number of seconds: the server's when none
      is requested, and otherwise the smaller of the two, in nanoseconds of an int64. */
  ghost predicate IsLifetime(max: int, duration: int, ttl: int) {
    if duration <= 0 then ttl == max
    else exists w :: IsInt64Of(w, duration * 1_000_000_000) && ttl == if w < max then w else max
  }

  /** The session duration in a request, when it decodes. */
  function DurationIn(cfg: Config, req: Request): int {
    match cfg.codec.tfa(req.data)
    case None => 0
    case Some(tfa) => tfa.sessionDuration
  }

  /** A session that `authEvaluate` would create for this request. */
  ghost predicate EvaluateCreates(cfg: Config, s: State, req: Request, now: int, draw: Draw, d: Sessions.SessionData) {
    && d.id == draw.sessionId && d.clientId == req.clientId && d.ctx == req.ctx
    && !d.verified && d.task == ""
    && IsLifetime(cfg.sessionTTL, DurationIn(cfg, req), d.expiresAt - now)
    && !Attempts.Locked(cfg.policy, s.attempts, CounterKeyOf(req), now)
    && OpaqueData(cfg, req).Some?
    && var key := req.clientId + "|" + req.ctx;
       cfg.codec.evaluate(
         OpaqueData(cfg, req).value, if key in s.store.records then Some(s.store.records[key]) else None,
         req.ctx + "|" + req.clientId, draw.serverSeed)
       == Some(Login(d.mac, d.key))
  }

  /** The task that a FIDO2 finalize asks to be bound to. */
  function TaskIn(cfg: Config, req: Request): Option<string> {
    match cfg.codec.tfa(req.data)
    case None => None
    case Some(tfa) =>
      match cfg.codec.fidoFinalize(tfa.pData)
      case None => None
      case Some(fin) => Some(fin.task)
  }

  /** A session that `fido2AuthFinalize` would create: its token opens, bound to the
      same client and context, and the first registered credential with the asserted id
      signed the token's challenge with an acceptable count. */
  ghost predicate FinalizeCreates(cfg: Config, s: State, req: Request, now: int, draw: Draw, d: Sessions.SessionData)
    requires ValidConfig(cfg)
  {
    && d.id == draw.sessionId && d.clientId == req.clientId && d.ctx == req.ctx
    && d.verified && d.expiresAt == now + cfg.sessionTTL && d.key == draw.sessionKey && d.mac == []
    && TaskIn(cfg, req) == Some(d.task)
    && exists bytes: seq<byte>, a: DecodedAssertion, cred: Stores.Credential, key: EcPoint.Point ::
         FinalizeAccepts(cfg, s, req, now, bytes, a, cred, key)
  }

  ghost predicate FinalizeAccepts(
      cfg: Config, s: State, req: Request, now: int,
      bytes: seq<byte>, a: DecodedAssertion, cred: Stores.Credential, key: EcPoint.Point)
    requires ValidConfig(cfg)
  {
    var token := Open(s.sealed, bytes, cfg.tokenTTL, now);
    && token.Some? && token.value.clientId == req.clientId && token.value.ctx == req.ctx
    && MatchedCredential(s, req, a.credentialId) == Some(cred)
    && EcPoint.Unmarshal(cfg.rp.curve, cred.publicKey) == Some(key)
    && JudgeFinalize(cfg, cred, key, a.assertion, token.value.challenge).Verified?
  }

  /** Every change that a request can make to the session map. */
  datatype Change = Nothing | Created(d: Sessions.SessionData) | Verified(id: string) | Dropped(id: string)

  function ChangeOf(before: State, reply: Reply, after: State, req: Request): Change {
    match reply
    case Ke2(id) => if id in after.sessions then Created(after.sessions[id]) else Nothing
    case FidoSession(id, _, _) => if id in after.sessions then Created(after.sessions[id]) else Nothing
    case Authenticated(id, _) => Verified(id)
    case Fail(_) => if before.sessions != after.sessions then Dropped(req.sessionId) else Nothing
    case _ => Nothing
  }

  /** The session map after a request, by cases on what the request was. */
  ghost predicate SessionStep(cfg: Config, s: State, t: State, reply: Reply, req: Request, now: int, draw: Draw)
    requires ValidConfig(cfg)
  {
    match ChangeOf(s, reply, t, req)
    case Nothing => t.sessions == s.sessions
    case Created(d) =>
      && draw.sessionId !in s.sessions && t.sessions == s.sessions[draw.sessionId := d]
      && (EvaluateCreates(cfg, s, req, now, draw, d) || FinalizeCreates(cfg, s, req, now, draw, d))
    case Verified(id) =>
      && id == req.sessionId && Sessions.Live(s.sessions, id, now)
      && Ke3Matches(cfg, req, s.sessions[id].mac)
      && t.sessions == Sessions.Marked(s.sessions, id)
    case Dropped(id) =>
      && id == req.sessionId && Sessions.Live(s.sessions, id, now)
      && IsKe3(cfg, req) && !Ke3Matches(cfg, req, s.sessions[id].mac)
      && t.sessions == s.sessions - {id}
  }

  lemma SessionTtlBound(max: int, duration: int)
    ensures SessionTtl(max, duration) <= max
  {
  }

  lemma Int64Unique(v: int, w: int, n: int)
    requires IsInt64Of(v, n) && IsInt64Of(w, n)
    ensures v == w
  {
    EcPoint.ModDifference(0x1_0000_0000_0000_0000, v - n, w - n);
    assert (v - w) % 0x1_0000_0000_0000_0000 == 0;
  }

  /** A lifetime is determined, and never exceeds the server's. */
  lemma LifetimeUnique(max: int, duration: int, ttl: int, other: int)
    requires IsLifetime(max, duration, ttl) && IsLifetime(max, duration, other)
    ensures ttl == other && ttl <= max
  {
    if duration > 0 {
      var v :| IsInt64Of(v, duration * 1_000_000_000) && ttl == if v < max then v else max;
      var w :| IsInt64Of(w, duration * 1_000_000_000) && other == if w < max then w else max;
      Int64Unique(v, w, duration * 1_000_000_000);
    }
  }

  /** Main result: the lifetime granted is exactly the smaller of the requested one and
      the server's, whenever the request in nanoseconds fits an int64; it is the server's
      for none; and beyond that the product wraps as an int64 does. */
  lemma LifetimeExact(max: int, duration: int)
    ensures IsLifetime(max, duration, SessionTtl(max, duration))
    ensures duration <= 0 ==> SessionTtl(max, duration) == max
    ensures 0 < duration && duration * 1_000_000_000 < 0x8000_0000_0000_0000 ==>
              SessionTtl(max, duration) ==
                if duration * 1_000_000_000 < max then duration * 1_000_000_000 else max
  {
    var n := duration * SECOND;
    WrapIsInt64(n);
    if 0 < duration && n < 0x8000_0000_0000_0000 {
      Int64Unique(n, Wrap64(n), n);
    }
  }

  lemma WrapIsInt64(n: int)
    ensures IsInt64Of(Wrap64(n), n)
  {
    var m := 0x1_0000_0000_0000_0000;
    var shifted := n + 0x8000_0000_0000_0000;
    assert shifted == m * (shifted / m) + shifted % m;
    assert Wrap64(n) - n == m * (-(shifted / m));
  }

  lemma OpaqueStep(cfg: Config, s: State, req: Request, tfa: TFA, now: int, draw: Draw)
    requires ValidConfig(cfg) && cfg.codec.tfa(req.data) == Some(tfa) && tfa.protocol == "opaque"
    ensures var (t, reply) := HandleOpaque(cfg, s, req, tfa, now, draw);
            SessionStep(cfg, s, t, reply, req, now, draw)
  {
    LifetimeExact(cfg.sessionTTL, tfa.sessionDuration);
    hide SessionTtl, Wrap64, IsLifetime, Attempts.Locked, Attempts.Checked, Attempts.Failed, Stores.Step;
  }

  lemma FidoFinalizeStep(cfg: Config, s: State, req: Request, tfa: TFA, now: int, draw: Draw)
    requires ValidConfig(cfg) && cfg.codec.tfa(req.data) == Some(tfa)
    ensures var (t, reply) := FidoAuthFinalize(cfg, s, req, tfa, now, draw);
            SessionStep(cfg, s, t, reply, req, now, draw)
  {
    hide Attempts.Failed, Stores.Step, MatchedCredential, JudgeFinalize, EcPoint.Unmarshal, DecodeAssertion;
    var (t, reply) := FidoAuthFinalize(cfg, s, req, tfa, now, draw);
    if reply.FidoSession? {
      var fin := cfg.codec.fidoFinalize(tfa.pData).value;
      var bytes := cfg.codec.base64(fin.token).value;
      var a := DecodeAssertion(cfg, fin).value;
      var cred := MatchedCredential(s, req, a.credentialId).value;
      var key := EcPoint.Unmarshal(cfg.rp.curve, cred.publicKey).value;
      assert FinalizeAccepts(cfg, s, req, now, bytes, a, cred, key);
    }
  }

  lemma FidoStep(cfg: Config, s: State, req: Request, tfa: TFA, now: int, draw: Draw)
    requires ValidConfig(cfg) && cfg.codec.tfa(req.data) == Some(tfa)
    ensures var (t, reply) := HandleFido(cfg, s, req, tfa, now, draw);
            SessionStep(cfg, s, t, reply, req, now, draw)
  {
    hide FidoAuthFinalize, Stores.Step, BoundToken, WebAuthn.JudgeRegistration, Attempts.Checked, Attempts.Locked,
         EvaluateCreates, FinalizeCreates, Ke3Matches, IsKe3;
    FidoFinalizeStep(cfg, s, req, tfa, now, draw);
  }

  /** Every request changes the session map in one of those ways. */
  lemma ProcessStep(cfg: Config, s: State, req: Request, now: int, draw: Draw)
    requires ValidConfig(cfg)
    ensures var (t, reply) := Process(cfg, s, req, now, draw);
            SessionStep(cfg, s, t, reply, req, now, draw)
  {
    hide HandleOpaque, HandleFido, Gate, SadRefuses, SignData, EvaluateCreates, FinalizeCreates, Ke3Matches, IsKe3;
    var tfa := cfg.codec.tfa(req.data);
    if tfa.Some? && tfa.value.protocol == "opaque" {
      OpaqueStep(cfg, s, req, tfa.value, now, draw);
    } else if tfa.Some? {
      FidoStep(cfg, s, req, tfa.value, now, draw);
    }
  }

  // ---------- challenge tokens ----------

  /** A request seals nothing, or the token it replies with. */
  ghost predicate SealedStep(s: State, t: State, reply: Reply, req: Request, now: int, draw: Draw) {
    t.sealed == s.sealed
    || (reply == Challenge(draw.challenge, draw.ciphertext)
        && t.sealed == s.sealed[draw.ciphertext := ChallengeToken(Unix(now), req.clientId, req.ctx, draw.challenge)])
  }

  lemma ProcessSeals(cfg: Config, s: State, req: Request, now: int, draw: Draw)
    requires ValidConfig(cfg)
    ensures var (t, reply) := Process(cfg, s, req, now, draw);
            SealedStep(s, t, reply, req, now, draw)
  {
    hide Gate, SadRefuses, EcdsaHandle, BoundToken, JudgeFinalize, DecodeAssertion, MatchedCredential, Stores.Step,
         WebAuthn.JudgeRegistration, EcPoint.Unmarshal, Attempts.Checked, Attempts.Failed, Attempts.Locked, SessionTtl;
    var tfa := cfg.codec.tfa(req.data);
    if tfa.Some? && tfa.value.protocol == "opaque" {
      OpaqueSealsNothing(cfg, s, req, tfa.value, now, draw);
    } else if tfa.Some? {
      FinalizeSealsNothing(cfg, s, req, tfa.value, now, draw);
    }
    hide HandleOpaque, FidoAuthFinalize;
  }

  lemma OpaqueSealsNothing(cfg: Config, s: State, req: Request, tfa: TFA, now: int, draw: Draw)
    ensures HandleOpaque(cfg, s, req, tfa, now, draw).0.sealed == s.sealed
  {
    hide Stores.Step, Attempts.Checked, Attempts.Failed, Attempts.Locked, SessionTtl;
  }

  lemma FinalizeSealsNothing(cfg: Config, s: State, req: Request, tfa: TFA, now: int, draw: Draw)
    requires ValidConfig(cfg)
    ensures FidoAuthFinalize(cfg, s, req, tfa, now, draw).0.sealed == s.sealed
  {
    hide Stores.Step, Attempts.Failed, BoundToken, JudgeFinalize, DecodeAssertion, MatchedCredential, EcPoint.Unmarshal;
  }

  /** Event h replied with this token, for this client and context. */
  ghost predicate IssuedAt(r: Run, h: nat, bytes: seq<byte>, token: ChallengeToken)
    requires ValidConfig(r.cfg)
  {
    && h < |r.events| && r.events[h].Serve?
    && ReplyTo(r, h) == Challenge(token.challenge, bytes)
    && token == ChallengeToken(Unix(r.events[h].now), r.events[h].req.clientId, r.events[h].req.ctx, token.challenge)
  }

  /** A token opens only if some earlier reply carried it. */
  lemma {:induction false} TokensWereIssued(r: Run, n: nat, bytes: seq<byte>)
    requires ValidConfig(r.cfg) && n <= |r.events|
    requires bytes in After(r, n).sealed
    ensures exists h | 0 <= h < n :: IssuedAt(r, h, bytes, After(r, n).sealed[bytes])
  {
    hide Process;
    var e := r.events[n - 1];
    if e.Serve? {
      ProcessSeals(r.cfg, After(r, n - 1), e.req, e.now, e.draw);
    }
    if bytes in After(r, n - 1).sealed && After(r, n - 1).sealed[bytes] == After(r, n).sealed[bytes] {
      TokensWereIssued(r, n - 1, bytes);
      var h :| 0 <= h < n - 1 && IssuedAt(r, h, bytes, After(r, n - 1).sealed[bytes]);
      assert IssuedAt(r, h, bytes, After(r, n).sealed[bytes]);
    } else {
      assert IssuedAt(r, n - 1, bytes, After(r, n).sealed[bytes]);
    }
  }

  // ---------- where a stored session comes from ----------

  /** Event i created the session d under a new id. */
  ghost predicate CreatedAt(r: Run, i: nat, d: Sessions.SessionData)
    requires ValidConfig(r.cfg)
  {
    && i < |r.events| && r.events[i].Serve?
    && d.id !in After(r, i).sessions
    && var e := r.events[i];
       (EvaluateCreates(r.cfg, After(r, i), e.req, e.now, e.draw, d)
        || FinalizeCreates(r.cfg, After(r, i), e.req, e.now, e.draw, d))
  }

  /** Event j accepted, for the live session d, a KE3 that matches d's own MAC. */
  ghost predicate VerifiedAt(r: Run, j: nat, d: Sessions.SessionData)
    requires ValidConfig(r.cfg)
  {
    && j < |r.events| && r.events[j].Serve?
    && r.events[j].req.sessionId == d.id && r.events[j].now <= d.expiresAt
    && Ke3Matches(r.cfg, r.events[j].req, d.mac)
    && ReplyTo(r, j) == Authenticated(d.id, d.expiresAt)
  }

  /** Event m was a finalize of a live session with a KE3 that does not match. */
  ghost predicate FailedAt(r: Run, m: nat, id: string)
    requires ValidConfig(r.cfg)
  {
    && m < |r.events| && r.events[m].Serve?
    && r.events[m].req.sessionId == id && IsKe3(r.cfg, r.events[m].req)
    && Sessions.Live(After(r, m).sessions, id, r.events[m].now)
    && !Ke3Matches(r.cfg, r.events[m].req, After(r, m).sessions[id].mac)
  }

  /** The stored session `now` is the one that event i created as d: nothing but its
      verified flag has changed, the flag is set only by creation or by a matching KE3,
      and no finalize of it has failed since. */
  ghost predicate Origin(r: Run, n: nat, current: Sessions.SessionData, i: nat, d: Sessions.SessionData)
    requires ValidConfig(r.cfg)
  {
    && i < n && CreatedAt(r, i, d)
    && current == d.(verified := current.verified)
    && (current.verified ==> d.verified || exists j | i < j < n :: VerifiedAt(r, j, d))
    && (forall m | i <= m < n :: !FailedAt(r, m, d.id))
  }

  /** A failed finalize removes its session. */
  lemma FailureDrops(r: Run, m: nat, id: string)
    requires ValidConfig(r.cfg) && m < |r.events| && FailedAt(r, m, id)
    ensures id !in After(r, m + 1).sessions
  {
    hide Attempts.Failed, RegEvaluate, RegFinalize, AuthEvaluate, HandleFido, HandleService, Handle2FAChange;
  }

  /** A matching KE3 is answered with the session's own expiry. */
  lemma AcceptanceReply(cfg: Config, s: State, req: Request, now: int, draw: Draw, id: string)
    requires ValidConfig(cfg)
    requires var (t, reply) := Process(cfg, s, req, now, draw); ChangeOf(s, reply, t, req) == Verified(id)
    ensures id == req.sessionId && id in s.sessions
    ensures Process(cfg, s, req, now, draw).1 == Authenticated(id, s.sessions[id].expiresAt)
  {
    ProcessStep(cfg, s, req, now, draw);
    hide RegEvaluate, RegFinalize, AuthEvaluate, HandleFido, HandleService, Gate, SessionStep, Attempts.Failed;
    FidoNeverAuthenticates(cfg, s, req, now, draw);
  }

  lemma FidoNeverAuthenticates(cfg: Config, s: State, req: Request, now: int, draw: Draw)
    requires ValidConfig(cfg)
    ensures forall tfa :: !HandleFido(cfg, s, req, tfa, now, draw).1.Authenticated?
  {
    hide Stores.Step, Attempts.Checked, Attempts.Failed, Attempts.Locked, BoundToken, JudgeFinalize, DecodeAssertion,
         MatchedCredential, EcPoint.Unmarshal, WebAuthn.JudgeRegistration;
  }
}
