/** The dispatcher as an object over its mutable parts: every handler, with the effects
    in the order in which the code has them, against the functions of Protocol. */
module Dispatcher {
  import opened Bytes
  import opened Protocol
  import opened Tokens
  import Sessions
  import Attempts
  import Stores
  import Sad
  import EcPoint
  import WebAuthn

  class Dispatcher {
    const cfg: Config
    const sessions: Sessions.SessionStore
    const counter: Attempts.AttemptCounter
    const store: Stores.MemoryStore
    const tokens: TokenEncryptor

    constructor (cfg: Config, store: Stores.MemoryStore)
      requires ValidConfig(cfg)
      ensures Valid() && this.cfg == Defaulted(cfg) && this.store == store
      ensures fresh(sessions) && fresh(counter) && fresh(tokens)
      ensures Contents() == State(map[], map[], store.Contents(), map[])
    {
      var complete := Defaulted(cfg);
      this.cfg, this.store := complete, store;
      sessions := new Sessions.SessionStore();
      counter := new Attempts.AttemptCounter(complete.policy.maxFails, complete.policy.lockout);
      tokens := new TokenEncryptor(cfg.tokenTTL);
    }

    ghost predicate Valid()
      reads sessions
    {
      && ValidConfig(cfg) && sessions.Valid()
      && counter.policy == cfg.policy && tokens.ttl == cfg.tokenTTL
    }

    ghost function Contents(): State
      reads sessions, sessions.sessions.Values, counter, store, tokens
    {
      State(sessions.Contents(), counter.attempts, store.Contents(), tokens.sealed)
    }

    method RegEvaluateStep(req: Request, data: seq<byte>) returns (reply: Reply)
      requires Valid()
      ensures (Contents(), reply) == RegEvaluate(cfg, Contents(), req, data)
    {
      if !cfg.codec.registrationResponse(data, req.ctx + "|" + req.clientId) {
        return Fail(ServerError);
      }
      return Evaluated;
    }

    method RegFinalizeStep(req: Request, data: seq<byte>) returns (reply: Reply)
      requires Valid()
      modifies store`records
      ensures Valid() && (Contents(), reply) == RegFinalize(cfg, old(Contents()), req, data)
    {
      var record := cfg.codec.record(data);
      if record.None? {
        return Fail(IllegalRequestData);
      }
      store.PutRecordFor(req.clientId, req.ctx, record.value);
      return Registered;
    }

    method AuthEvaluateStep(req: Request, tfa: TFA, data: seq<byte>, now: int, draw: Draw) returns (reply: Reply)
      requires Valid()
      modifies sessions, counter
      ensures Valid() && (Contents(), reply) == AuthEvaluate(cfg, old(Contents()), req, tfa, data, now, draw)
    {
      hide Wrap64, Sessions.SessionStore.Contents;
      var ok := counter.Check(req.clientId, req.ctx, req.ctx, now);
      if !ok {
        return Fail(AccessDenied);
      }
      var record := store.GetRecordOf(req.clientId, req.ctx);
      assert record == RecordOf(Contents(), req);
      var login := cfg.codec.evaluate(data, record, req.ctx + "|" + req.clientId, draw.serverSeed);
      if login.None? {
        return Fail(ServerError);
      }
      var ttl := cfg.sessionTTL;
      if tfa.sessionDuration > 0 {
        var requested := Wrap64(tfa.sessionDuration * SECOND);
        if requested < ttl {
          ttl := requested;
        }
      }
      var sess := new Sessions.Session(Sessions.SessionData(
        draw.sessionId, req.clientId, req.ctx, login.value.key, login.value.mac, now + ttl, false, ""));
      var created := sessions.Create(sess);
      if !created {
        return Fail(ServerError);
      }
      return Ke2(draw.sessionId);
    }

    method AuthFinalizeStep(req: Request, data: seq<byte>, now: int) returns (reply: Reply)
      requires Valid()
      modifies sessions, sessions.sessions.Values, counter
      ensures Valid() && (Contents(), reply) == AuthFinalize(cfg, old(Contents()), req, data, now)
    {
      hide Attempts.Failed, Sessions.Marked, Sessions.SessionStore.Contents;
      var sess := sessions.Get(req.sessionId, now);
      if sess == null {
        return Fail(IllegalState);
      }
      if !cfg.codec.finish(data, sess.mac) {
        var _ := counter.RecordFailure(req.clientId, req.ctx, req.ctx, now);
        sessions.Delete(req.sessionId);
        return Fail(Unauthorized);
      }
      counter.RecordSuccess(req.clientId, req.ctx, req.ctx);
      var marked := sessions.MarkVerified(req.sessionId);
      if !marked {
        return Fail(ServerError);
      }
      return Authenticated(req.sessionId, sess.expiresAt);
    }

    method IssueTokenStep(req: Request, now: int, draw: Draw) returns (reply: Reply)
      requires Valid()
      modifies tokens
      ensures Valid() && (Contents(), reply) == IssueToken(old(Contents()), req, now, draw)
    {
      var token := ChallengeToken(Unix(now), req.clientId, req.ctx, draw.challenge);
      tokens.Encrypt(token, draw.ciphertext);
      return Challenge(draw.challenge, draw.ciphertext);
    }

    method FidoAuthChallengeStep(req: Request, now: int, draw: Draw) returns (reply: Reply)
      requires Valid()
      modifies tokens, counter
      ensures Valid() && (Contents(), reply) == FidoAuthChallenge(cfg, old(Contents()), req, now, draw)
    {
      var ok := counter.Check(req.clientId, req.ctx, req.ctx, now);
      if !ok {
        return Fail(AccessDenied);
      }
      reply := IssueTokenStep(req, now, draw);
    }

    method BoundTokenStep(req: Request, encoded: string, now: int)
      returns (token: Option<ChallengeToken>, code: ErrorCode)
      requires Valid()
      ensures (token, code) == BoundToken(cfg, Contents(), req, encoded, now)
    {
      var bytes := cfg.codec.base64(encoded);
      if bytes.None? {
        return None, IllegalRequestData;
      }
      token := tokens.Decrypt(bytes.value, now);
      if token.None? {
        return None, Unauthorized;
      }
      if token.value.clientId != req.clientId || token.value.ctx != req.ctx {
        return None, AccessDenied;
      }
      return token, ServerError;
    }

    method FidoRegisterStep(req: Request, tfa: TFA, now: int) returns (reply: Reply)
      requires Valid()
      modifies store`webauthn
      ensures Valid() && (Contents(), reply) == FidoRegisterCredential(cfg, old(Contents()), req, tfa, now)
    {
      hide BoundToken, WebAuthn.JudgeRegistration, Sessions.SessionStore.Contents;
      var reg := cfg.codec.fidoRegister(tfa.pData);
      if reg.None? {
        return Fail(IllegalRequestData);
      }
      var attestation := cfg.codec.base64(reg.value.attestation);
      if attestation.None? {
        return Fail(IllegalRequestData);
      }
      var clientData := cfg.codec.base64(reg.value.clientData);
      if clientData.None? {
        return Fail(IllegalRequestData);
      }
      var challenge := "";
      if tfa.authorization != "" {
        var token, code := BoundTokenStep(req, tfa.authorization, now);
        if token.None? {
          return Fail(code);
        }
        challenge := token.value.challenge;
      }
      var verdict := WebAuthn.VerifyRegistration(
        cfg.codec.webauthn, cfg.rp, attestation.value, cfg.codec.spare(reg.value.attestation), clientData.value,
        challenge);
      if verdict.Crashed? {
        return Crash;
      }
      if verdict.Refused? {
        return Fail(IllegalRequestData);
      }
      var ad := verdict.authData;
      store.PutWebAuthnCredential(req.clientId, req.ctx, Stores.Credential(
        ad.credentialId, EcPoint.MarshalUncompressed(cfg.rp.curve, ad.publicKey.value), ad.signCount, ad.aaguid,
        Unix(now)));
      return Registered;
    }

    /** The lookup loop over the client's credentials. */
    method FindCredential(req: Request, id: seq<byte>) returns (matched: Option<Stores.Credential>)
      requires Valid()
      ensures matched == MatchedCredential(Contents(), req, id)
    {
      var creds := store.GetWebAuthnCredential(req.clientId, req.ctx);
      for i := 0 to |creds|
        invariant Stores.FirstMatch(creds, id) >= i
      {
        if creds[i].credentialId == id {
          return Some(creds[i]);
        }
      }
      return None;
    }

    method FidoAuthFinalizeStep(req: Request, tfa: TFA, now: int, draw: Draw) returns (reply: Reply)
      requires Valid()
      modifies sessions, counter, store`webauthn
      ensures Valid() && (Contents(), reply) == FidoAuthFinalize(cfg, old(Contents()), req, tfa, now, draw)
    {
      hide BoundToken, DecodeAssertion, MatchedCredential, EcPoint.Unmarshal, WebAuthn.JudgeAssertion, FidoOpenSession,
           Attempts.Failed, Sessions.SessionStore.Contents;
      var fin := cfg.codec.fidoFinalize(tfa.pData);
      if fin.None? {
        return Fail(IllegalRequestData);
      }
      var token, code := BoundTokenStep(req, fin.value.token, now);
      if token.None? {
        return Fail(code);
      }
      var decoded := DecodeAssertion(cfg, fin.value);
      if decoded.None? {
        return Fail(IllegalRequestData);
      }
      var cred := FindCredential(req, decoded.value.credentialId);
      if cred.None? {
        var _ := counter.RecordFailure(req.clientId, req.ctx, req.ctx, now);
        return Fail(Unauthorized);
      }
      var key := EcPoint.Unmarshal(cfg.rp.curve, cred.value.publicKey);
      if key.None? {
        return Fail(ServerError);
      }
      var verdict := WebAuthn.VerifyAssertion(
        cfg.codec.webauthn, cfg.rp, decoded.value.assertion, key.value, cred.value.signCount, token.value.challenge);
      if verdict.Crashed? {
        return Crash;
      }
      if verdict.Refused? {
        var _ := counter.RecordFailure(req.clientId, req.ctx, req.ctx, now);
        return Fail(Unauthorized);
      }
      reply := FidoOpenSessionStep(req, fin.value, decoded.value.credentialId, verdict.authData.signCount, now, draw);
    }

    method FidoOpenSessionStep(
        req: Request, fin: FidoFinalize, id: seq<byte>, signCount: nat, now: int, draw: Draw) returns (reply: Reply)
      requires Valid()
      modifies sessions, counter, store`webauthn
      ensures Valid()
      ensures (Contents(), reply) == FidoOpenSession(cfg, old(Contents()), req, fin, id, signCount, now, draw)
    {
      hide EcPoint.Unmarshal, Stores.Step, Sessions.SessionStore.Contents;
      var _ := store.UpdateWebAuthnSignCount(req.clientId, req.ctx, id, signCount);
      var epub := cfg.codec.base64(fin.clientEpub);
      if epub.None? {
        return Fail(IllegalRequestData);
      }
      if EcPoint.Unmarshal(cfg.rp.curve, epub.value).None? {
        return Fail(IllegalRequestData);
      }
      var expiresAt := now + cfg.sessionTTL;
      var sess := new Sessions.Session(Sessions.SessionData(
        draw.sessionId, req.clientId, req.ctx, draw.sessionKey, [], expiresAt, true, fin.task));
      var created := sessions.Create(sess);
      if !created {
        return Fail(ServerError);
      }
      counter.RecordSuccess(req.clientId, req.ctx, req.ctx);
      return FidoSession(draw.sessionId, expiresAt, fin.task);
    }

    method HandleFidoStep(req: Request, tfa: TFA, now: int, draw: Draw) returns (reply: Reply)
      requires Valid()
      modifies sessions, counter, store`webauthn, tokens
      ensures Valid() && (Contents(), reply) == HandleFido(cfg, old(Contents()), req, tfa, now, draw)
    {
      hide FidoRegisterCredential, FidoAuthChallenge, FidoAuthFinalize, IssueToken;
      if !cfg.fido2 {
        return Fail(IllegalRequestData);
      }
      if IsRegistration(req.typ) && tfa.state == "challenge" {
        reply := IssueTokenStep(req, now, draw);
      } else if IsRegistration(req.typ) && tfa.state == "register" {
        reply := FidoRegisterStep(req, tfa, now);
      } else if IsAuthenticate(req.typ) && tfa.state == "challenge" {
        reply := FidoAuthChallengeStep(req, now, draw);
      } else if IsAuthenticate(req.typ) && tfa.state == "finalize" {
        reply := FidoAuthFinalizeStep(req, tfa, now, draw);
      } else {
        reply := Fail(IllegalState);
      }
    }

    method HandleOpaqueStep(req: Request, tfa: TFA, now: int, draw: Draw) returns (reply: Reply)
      requires Valid()
      modifies sessions, sessions.sessions.Values, counter, store`records
      ensures Valid() && (Contents(), reply) == HandleOpaque(cfg, old(Contents()), req, tfa, now, draw)
    {
      hide RegEvaluate, RegFinalize, AuthEvaluate, AuthFinalize;
      var data := cfg.codec.base64(tfa.pData);
      if data.None? {
        return Fail(IllegalRequestData);
      }
      if (IsRegistration(req.typ) || IsChange(req.typ)) && tfa.state == "evaluate" {
        reply := RegEvaluateStep(req, data.value);
      } else if (IsRegistration(req.typ) || IsChange(req.typ)) && tfa.state == "finalize" {
        reply := RegFinalizeStep(req, data.value);
      } else if IsAuthenticate(req.typ) && tfa.state == "evaluate" {
        reply := AuthEvaluateStep(req, tfa, data.value, now, draw);
      } else if IsAuthenticate(req.typ) && tfa.state == "finalize" {
        reply := AuthFinalizeStep(req, data.value, now);
      } else {
        reply := Fail(IllegalState);
      }
    }

    method Handle2FAStep(req: Request, now: int, draw: Draw) returns (reply: Reply)
      requires Valid()
      modifies sessions, sessions.sessions.Values, counter, store`records, store`webauthn, tokens
      ensures Valid() && (Contents(), reply) == Handle2FA(cfg, old(Contents()), req, now, draw)
    {
      hide HandleOpaque, HandleFido;
      var tfa := cfg.codec.tfa(req.data);
      if tfa.None? {
        return Fail(IllegalRequestData);
      }
      if tfa.value.protocol == "opaque" {
        reply := HandleOpaqueStep(req, tfa.value, now, draw);
      } else if tfa.value.protocol == "fido2" {
        reply := HandleFidoStep(req, tfa.value, now, draw);
      } else {
        reply := Fail(IllegalRequestData);
      }
    }

    /** The session gate shared by both kinds of protected request. */
    method GateStep(req: Request, now: int) returns (sess: Sessions.Session?, code: ErrorCode)
      requires Valid()
      ensures var (data, c) := Gate(Contents(), req, now);
              code == c && (sess == null <==> data.None?) && (sess != null ==> data == Some(sess.Data()))
    {
      sess := sessions.Get(req.sessionId, now);
      if sess == null {
        return null, Unauthorized;
      }
      if !sess.verified {
        return null, Unauthorized;
      }
      if sess.ctx != req.ctx {
        return null, AccessDenied;
      }
      return sess, ServerError;
    }

    method Handle2FAChangeStep(req: Request, now: int, draw: Draw) returns (reply: Reply)
      requires Valid()
      modifies sessions, sessions.sessions.Values, counter, store`records, store`webauthn, tokens
      ensures Valid() && (Contents(), reply) == Handle2FAChange(cfg, old(Contents()), req, now, draw)
    {
      hide Gate, Handle2FA;
      var sess, code := GateStep(req, now);
      if sess == null {
        return Fail(code);
      }
      reply := Handle2FAStep(req, now, draw);
    }

    /** The SAD check before signing, then the handler, which decodes the data again. */
    method HandleServiceStep(req: Request, now: int) returns (reply: Reply)
      requires Valid()
      requires forall m :: |cfg.codec.webauthn.sha256(m)| == 32
      ensures (Contents(), reply) == HandleService(cfg, Contents(), req, now)
    {
      hide Gate, Sad.Allows;
      if req.typ !in cfg.handlers {
        return Fail(UnsupportedType);
      }
      var handler := cfg.handlers[req.typ];
      if handler == OtherHandler(false) {
        return Served;
      }
      var sess, code := GateStep(req, now);
      if sess == null {
        return Fail(code);
      }
      if req.typ == SIGN_ECDSA && sess.task != "" {
        var signReq := cfg.codec.sign(req.data);
        if signReq.Some? {
          var hash := cfg.codec.base64(signReq.value.tbsHash);
          if hash.Some? {
            var ok := Sad.ValidateSAD(cfg.codec.webauthn.sha256, sess.task, hash.value);
            if !ok {
              return Fail(AccessDenied);
            }
          }
        }
      }
      if handler.EcdsaHandler? {
        return EcdsaHandle(cfg, req.data);
      }
      return Served;
    }

    method ProcessStep(req: Request, now: int, draw: Draw) returns (reply: Reply)
      requires Valid()
      requires forall m :: |cfg.codec.webauthn.sha256(m)| == 32
      modifies sessions, sessions.sessions.Values, counter, store`records, store`webauthn, tokens
      ensures Valid() && (Contents(), reply) == Process(cfg, old(Contents()), req, now, draw)
    {
      hide Handle2FA, Handle2FAChange, HandleService;
      if IsRegistration(req.typ) || IsAuthenticate(req.typ) {
        reply := Handle2FAStep(req, now, draw);
      } else if IsChange(req.typ) {
        reply := Handle2FAChangeStep(req, now, draw);
      } else {
        reply := HandleServiceStep(req, now);
      }
    }

    /** The tick of `StartSessionCleanup`. */
    method CleanupTick(now: int) returns (count: nat)
      requires Valid()
      modifies sessions
      ensures Valid()
      ensures Contents() == old(Contents()).(sessions := Sessions.Unexpired(old(Contents().sessions), now))
      ensures count == |old(Contents().sessions)| - |Contents().sessions|
    {
      count := sessions.CleanExpired(now);
    }
  }
}
