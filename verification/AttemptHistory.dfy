/** What every request does to the attempt table, exactly, and the table of a run as a
    function of the failures, checks and successes in it. */
module AttemptHistory {
  import opened Bytes
  import opened Protocol
  import opened Runs
  import opened Lockout
  import Attempts
  import Sessions
  import SignCounts
  import Stores
  import EcPoint
  import WebAuthn

  // ---------- which requests fail ----------

  /** A finalize of a live session whose KE3 does not match. */
  predicate FailsPassword(cfg: Config, s: State, req: Request, now: int) {
    && IsKe3(cfg, req) && Sessions.Live(s.sessions, req.sessionId, now)
    && !cfg.codec.finish(OpaqueData(cfg, req).value, s.sessions[req.sessionId].mac)
  }

  /** Position i is the first with the id. */
  ghost predicate IsFirst(creds: seq<Stores.Credential>, id: seq<byte>, i: nat) {
    i < |creds| && creds[i].credentialId == id && forall j | 0 <= j < i :: creds[j].credentialId != id
  }

  /** A FIDO2 finalize whose token opens for this client and context and whose parts
      decode, and which names no registered credential, or one whose stored key is a point
      and with which the assertion is refused. */
  ghost predicate FailsFido(cfg: Config, s: State, req: Request, now: int)
    requires ValidConfig(cfg)
  {
    var c := cfg.codec;
    var tfa := c.tfa(req.data);
    && (req.typ == "2fa_authenticate" || req.typ == "create_session") && cfg.fido2
    && tfa.Some? && tfa.value.protocol == "fido2" && tfa.value.state == "finalize"
    && var fin := c.fidoFinalize(tfa.value.pData);
       && fin.Some? && c.base64(fin.value.token).Some?
       && var token := c.base64(fin.value.token).value;
          && token in s.sealed && now - s.sealed[token].iat * 1_000_000_000 <= cfg.tokenTTL
          && s.sealed[token].clientId == req.clientId && s.sealed[token].ctx == req.ctx
          && c.base64(fin.value.credentialId).Some? && c.base64(fin.value.authData).Some?
          && c.base64(fin.value.clientData).Some? && c.base64(fin.value.signature).Some?
          && var a := WebAuthn.Assertion(
               c.base64(fin.value.authData).value, c.base64(fin.value.clientData).value,
               c.base64(fin.value.signature).value);
             RefusedFor(cfg, SignCounts.CredentialsOf(s, req.clientId + "|" + req.ctx),
                        c.base64(fin.value.credentialId).value, a, s.sealed[token].challenge)
  }

  /** No credential has the id, or the first one has a key and the assertion is refused. */
  ghost predicate RefusedFor(
      cfg: Config, creds: seq<Stores.Credential>, id: seq<byte>, a: WebAuthn.Assertion, challenge: string)
    requires ValidConfig(cfg)
  {
    || (forall c | c in creds :: c.credentialId != id)
    || exists i: nat | IsFirst(creds, id, i) ::
         var key := EcPoint.Unmarshal(cfg.rp.curve, creds[i].publicKey);
         && key.Some?
         && WebAuthn.JudgeAssertion(cfg.codec.webauthn, cfg.rp, a, key.value, creds[i].signCount, challenge).Refused?
  }

  lemma RefusedForIff(
      cfg: Config, creds: seq<Stores.Credential>, id: seq<byte>, a: WebAuthn.Assertion, challenge: string)
    requires ValidConfig(cfg)
    ensures var i := Stores.FirstMatch(creds, id);
            RefusedFor(cfg, creds, id, a, challenge) <==>
              || i == |creds|
              || (var key := EcPoint.Unmarshal(cfg.rp.curve, creds[i].publicKey);
                  && key.Some?
                  && WebAuthn.JudgeAssertion(
                       cfg.codec.webauthn, cfg.rp, a, key.value, creds[i].signCount, challenge).Refused?)
  {
    hide EcPoint.Unmarshal, WebAuthn.JudgeAssertion;
    var i := Stores.FirstMatch(creds, id);
    if i < |creds| {
      assert creds[i] in creds && IsFirst(creds, id, i);
    } else {
      assert forall c | c in creds :: c.credentialId != id;
    }
  }

  // ---------- the exact effect ----------

  /** The event of the counter that a request is, if it is one. */
  ghost function EventOf(cfg: Config, s: State, req: Request, now: int, draw: Draw): Option<Attempts.Event>
    requires ValidConfig(cfg)
  {
    var key := Attempts.CounterKey(req.clientId, req.ctx, req.ctx);
    if FailsPassword(cfg, s, req, now) || FailsFido(cfg, s, req, now) then Some(Attempts.Failure(key, now))
    else if CompletesPassword(cfg, s, req, now) || CompletesFido(cfg, s, req, now, draw)
    then Some(Attempts.Success(key, now))
    else if AsksCounter(cfg, req) then Some(Attempts.Check(key, now))
    else None
  }

  function Applied(cfg: Config, t: Attempts.Table, e: Option<Attempts.Event>): Attempts.Table {
    match e
    case None => t
    case Some(event) => Attempts.Apply(cfg.policy, t, event)
  }

  lemma EvaluateEffect(cfg: Config, s: State, req: Request, tfa: TFA, data: seq<byte>, now: int, draw: Draw)
    ensures AuthEvaluate(cfg, s, req, tfa, data, now, draw).0.attempts ==
              Attempts.Checked(cfg.policy, s.attempts, CounterKeyOf(req), now)
  {
    hide Attempts.CounterKey, SessionTtl;
  }

  lemma FinishEffect(cfg: Config, s: State, req: Request, data: seq<byte>, now: int)
    ensures AuthFinalize(cfg, s, req, data, now).0.attempts ==
              if !Sessions.Live(s.sessions, req.sessionId, now) then s.attempts
              else if cfg.codec.finish(data, s.sessions[req.sessionId].mac) then s.attempts - {CounterKeyOf(req)}
              else Attempts.Failed(cfg.policy, s.attempts, CounterKeyOf(req), now)
  {
    hide Attempts.CounterKey, Attempts.Failed;
  }

  lemma OpaqueEffect(cfg: Config, s: State, req: Request, tfa: TFA, now: int, draw: Draw)
    requires ValidConfig(cfg) && cfg.codec.tfa(req.data) == Some(tfa) && tfa.protocol == "opaque"
    ensures HandleOpaque(cfg, s, req, tfa, now, draw).0.attempts ==
              Applied(cfg, s.attempts, EventOf(cfg, s, req, now, draw))
  {
    hide Attempts.Failed, Attempts.CounterKey, Attempts.Checked, Attempts.Locked, AuthEvaluate, AuthFinalize,
         Stores.Step, SignCounts.AcceptedBy, FailsFido, ClientKeyOf;
    NotFido(cfg, s, req, now);
    SignCounts.OthersAcceptNothing(cfg, s, req, now);
    var data := cfg.codec.base64(tfa.pData);
    if data.Some? {
      EvaluateEffect(cfg, s, req, tfa, data.value, now, draw);
      FinishEffect(cfg, s, req, data.value, now);
    }
  }

  lemma NotFido(cfg: Config, s: State, req: Request, now: int)
    requires ValidConfig(cfg)
    ensures FailsFido(cfg, s, req, now) ==>
              && cfg.codec.tfa(req.data).Some? && cfg.codec.tfa(req.data).value.protocol == "fido2" && cfg.fido2
              && IsAuthenticate(req.typ) && cfg.codec.tfa(req.data).value.state == "finalize"
  {
    hide RefusedFor;
  }

  /** The same condition on the parts as the handler decodes them. */
  lemma FailsFidoIs(cfg: Config, s: State, req: Request, tfa: TFA, now: int)
    requires ValidConfig(cfg) && cfg.codec.tfa(req.data) == Some(tfa) && tfa.protocol == "fido2"
    requires cfg.fido2 && IsAuthenticate(req.typ) && tfa.state == "finalize"
    ensures var fin := cfg.codec.fidoFinalize(tfa.pData);
            var token := if fin.Some? then BoundToken(cfg, s, req, fin.value.token, now).0 else None;
            var decoded := if fin.Some? then DecodeAssertion(cfg, fin.value) else None;
            FailsFido(cfg, s, req, now) <==>
              && token.Some? && decoded.Some?
              && RefusedFor(cfg, SignCounts.CredentialsOf(s, StoreKeyOf(req)), decoded.value.credentialId,
                            decoded.value.assertion, token.value.challenge)
  {
    hide RefusedFor;
  }

  lemma FinalizeEffect(cfg: Config, s: State, req: Request, tfa: TFA, now: int, draw: Draw)
    requires ValidConfig(cfg) && cfg.codec.tfa(req.data) == Some(tfa) && tfa.protocol == "fido2"
    requires cfg.fido2 && IsAuthenticate(req.typ) && tfa.state == "finalize"
    ensures FidoAuthFinalize(cfg, s, req, tfa, now, draw).0.attempts ==
              if FailsFido(cfg, s, req, now) then Attempts.Failed(cfg.policy, s.attempts, CounterKeyOf(req), now)
              else if CompletesFido(cfg, s, req, now, draw) then s.attempts - {CounterKeyOf(req)}
              else s.attempts
  {
    hide Attempts.Failed, Attempts.CounterKey, Stores.Step, EcPoint.Unmarshal, WebAuthn.JudgeAssertion, RefusedFor,
         FailsFido, BoundToken, DecodeAssertion, StoreKeyOf;
    var fin := cfg.codec.fidoFinalize(tfa.pData);
    var token := if fin.Some? then BoundToken(cfg, s, req, fin.value.token, now).0 else None;
    var decoded := if fin.Some? then DecodeAssertion(cfg, fin.value) else None;
    FailsFidoIs(cfg, s, req, tfa, now);
    if token.Some? && decoded.Some? {
      RefusedForIff(cfg, SignCounts.CredentialsOf(s, StoreKeyOf(req)), decoded.value.credentialId,
                    decoded.value.assertion, token.value.challenge);
    }
    FidoCompletes(cfg, s, req, tfa, now, draw);
  }

  lemma FidoEffect(cfg: Config, s: State, req: Request, tfa: TFA, now: int, draw: Draw)
    requires ValidConfig(cfg) && cfg.codec.tfa(req.data) == Some(tfa) && tfa.protocol == "fido2"
    ensures HandleFido(cfg, s, req, tfa, now, draw).0.attempts ==
              Applied(cfg, s.attempts, EventOf(cfg, s, req, now, draw))
  {
    hide Attempts.Failed, Attempts.CounterKey, FailsFido, CompletesFido, FidoAuthFinalize, FidoRegisterCredential;
    RegisterAttempts(cfg, s, req, tfa, now);
    NotFido(cfg, s, req, now);
    if cfg.fido2 && IsAuthenticate(req.typ) && tfa.state == "finalize" {
      FinalizeEffect(cfg, s, req, tfa, now, draw);
    } else {
      SignCounts.OthersAcceptNothing(cfg, s, req, now);
      NotAccepted(cfg, s, req, now, draw);
    }
  }

  lemma NotAccepted(cfg: Config, s: State, req: Request, now: int, draw: Draw)
    requires ValidConfig(cfg) && SignCounts.AcceptedBy(cfg, s, req, now).None?
    ensures !CompletesFido(cfg, s, req, now, draw)
  {
  }

  /** Main result: every request changes the attempt table exactly as the event that it
      is: a failure for a mismatching KE3 of a live session, and for a FIDO2 finalize that
      names no registered credential or whose assertion is refused; a success for a login
      that completes; a check for a request that asks the counter; and nothing else. */
  lemma AttemptsExact(cfg: Config, s: State, req: Request, now: int, draw: Draw)
    requires ValidConfig(cfg)
    ensures Process(cfg, s, req, now, draw).0.attempts == Applied(cfg, s.attempts, EventOf(cfg, s, req, now, draw))
  {
    hide HandleOpaque, HandleFido, Gate, SadRefuses, SignData, FailsFido, CompletesFido, Attempts.CounterKey,
         Attempts.Failed, Attempts.Checked, Ke3Matches;
    var tfa := cfg.codec.tfa(req.data);
    NotFido(cfg, s, req, now);
    if tfa.Some? && tfa.value.protocol == "opaque" {
      OpaqueEffect(cfg, s, req, tfa.value, now, draw);
      SignCounts.OthersAcceptNothing(cfg, s, req, now);
      NotAccepted(cfg, s, req, now, draw);
    } else if tfa.Some? && tfa.value.protocol == "fido2" {
      FidoEffect(cfg, s, req, tfa.value, now, draw);
      if !IsAuthenticate(req.typ) {
        SignCounts.OthersAcceptNothing(cfg, s, req, now);
        NotAccepted(cfg, s, req, now, draw);
      }
    } else {
      SignCounts.OthersAcceptNothing(cfg, s, req, now);
      NotAccepted(cfg, s, req, now, draw);
    }
  }

  // ---------- over runs ----------

  /** The counter's events in the first n events of a run, in order. */
  ghost function History(r: Run, n: nat): seq<Attempts.Event>
    requires ValidConfig(r.cfg) && n <= |r.events|
  {
    if n == 0 then []
    else
      var e := r.events[n - 1];
      var own := if e.Serve? then EventOf(r.cfg, After(r, n - 1), e.req, e.now, e.draw) else None;
      History(r, n - 1) + if own.Some? then [own.value] else []
  }

  lemma {:induction false} PrefixAfter(p: Attempts.Policy, h: seq<Attempts.Event>, more: seq<Attempts.Event>, n: nat)
    requires n <= |h|
    ensures Attempts.After(p, h + more, n) == Attempts.After(p, h, n)
  {
    hide Attempts.Apply;
    if n > 0 {
      PrefixAfter(p, h, more, n - 1);
    }
  }

  /** Main result: the attempt table of a run is that of its history alone, so that
      `Attempts.TableIsHistory` describes it: failures since the last reset, and the time
      of the last once they fill the limit. */
  lemma {:induction false} RunIsHistory(r: Run, n: nat)
    requires ValidConfig(r.cfg) && n <= |r.events|
    ensures After(r, n).attempts == Attempts.After(r.cfg.policy, History(r, n), |History(r, n)|)
  {
    hide Process, EventOf, Attempts.Apply;
    if n > 0 {
      RunIsHistory(r, n - 1);
      var e, h := r.events[n - 1], History(r, n - 1);
      assert h + [] == h;
      if e.Serve? {
        AttemptsExact(r.cfg, After(r, n - 1), e.req, e.now, e.draw);
        var own := EventOf(r.cfg, After(r, n - 1), e.req, e.now, e.draw);
        if own.Some? {
          PrefixAfter(r.cfg.policy, h, [own.value], |h|);
          assert History(r, n) == h + [own.value];
          assert (h + [own.value])[|h|] == own.value;
        }
      }
    }
  }

  /** Event k is a failed finalize for this key. */
  ghost predicate FailsAt(r: Run, k: nat, key: string)
    requires ValidConfig(r.cfg)
  {
    && k < |r.events| && r.events[k].Serve?
    && var e := r.events[k];
       && Attempts.CounterKey(e.req.clientId, e.req.ctx, e.req.ctx) == key
       && (FailsPassword(r.cfg, After(r, k), e.req, e.now) || FailsFido(r.cfg, After(r, k), e.req, e.now))
  }

  /** Event k is none of the key's: no failure, success or check. */
  ghost predicate Silent(r: Run, k: nat, key: string)
    requires ValidConfig(r.cfg) && k < |r.events|
  {
    var e := r.events[k];
    e.Serve? ==>
      var own := EventOf(r.cfg, After(r, k), e.req, e.now, e.draw);
      own.Some? ==> own.value.key != key
  }

  /** The failures of the key among the events from i to n. */
  ghost function Failures(r: Run, i: nat, n: nat, key: string): nat
    requires ValidConfig(r.cfg) && i <= n <= |r.events|
  {
    if i == n then 0 else Failures(r, i, n - 1, key) + if FailsAt(r, n - 1, key) then 1 else 0
  }

  lemma NextAttempts(r: Run, k: nat, key: string)
    requires ValidConfig(r.cfg) && k < |r.events|
    ensures FailsAt(r, k, key) ==>
              After(r, k + 1).attempts == Attempts.Failed(r.cfg.policy, After(r, k).attempts, key, r.events[k].now)
    ensures Silent(r, k, key) ==>
              && (key in After(r, k + 1).attempts <==> key in After(r, k).attempts)
              && (key in After(r, k).attempts ==> After(r, k + 1).attempts[key] == After(r, k).attempts[key])
  {
    hide Process, FailsPassword, FailsFido, CompletesPassword, CompletesFido, Attempts.CounterKey, AsksCounter;
    var e := r.events[k];
    if e.Serve? {
      AttemptsExact(r.cfg, After(r, k), e.req, e.now, e.draw);
    }
  }

  lemma {:induction false} FailuresCount(r: Run, i: nat, n: nat, key: string)
    requires ValidConfig(r.cfg) && i <= n <= |r.events|
    requires forall k: nat | i <= k < n :: FailsAt(r, k, key) || Silent(r, k, key)
    ensures Failures(r, i, n, key) > 0 ==>
              && key in After(r, n).attempts && After(r, n).attempts[key].failures >= Failures(r, i, n, key)
    decreases n
  {
    hide FailsAt, Silent, After, Attempts.CounterKey;
    if i < n {
      FailuresCount(r, i, n - 1, key);
      NextAttempts(r, n - 1, key);
    }
  }

  /** Main result: failed finalizes that reach the limit, the last of them at event n - 1,
      with no success or check of the key in between, leave the key locked for the whole
      lockout: no request that asks the counter is then admitted. */
  lemma FailuresLock(r: Run, i: nat, n: nat, key: string, now: int)
    requires ValidConfig(r.cfg) && i < n <= |r.events| && r.cfg.policy.maxFails >= 1
    requires forall k: nat | i <= k < n :: FailsAt(r, k, key) || Silent(r, k, key)
    requires FailsAt(r, n - 1, key) && Failures(r, i, n, key) >= r.cfg.policy.maxFails
    ensures LockedSince(r.cfg, After(r, n), key, r.events[n - 1].now)
    ensures now < r.events[n - 1].now + r.cfg.policy.lockout ==>
              Attempts.Locked(r.cfg.policy, After(r, n).attempts, key, now)
  {
    hide FailsAt, Silent, After, Failures, Attempts.CounterKey;
    FailuresCount(r, i, n, key);
    NextAttempts(r, n - 1, key);
  }
}
