/** An independent account of every reply: where a request goes by its type, protocol and
    state, and then the code of the first check that fails, in the order in which the
    handlers make them (internal/service/dispatcher.go, fido2.go and handlers.go). */
module Replies {
  import opened Bytes
  import opened Protocol
  import Attempts
  import Sessions
  import Sad
  import Stores
  import EcPoint
  import WebAuthn

  /** A check that ends the request with its code when it does not hold. */
  function Need(holds: bool, code: ErrorCode, otherwise: Reply): Reply {
    if holds then otherwise else Fail(code)
  }

  // ---------- where a request goes ----------

  datatype Target =
    | Malformed(code: ErrorCode)
    | PasswordRegister(data: seq<byte>) | PasswordStore(data: seq<byte>)
    | PasswordLogin(data: seq<byte>) | PasswordFinish(data: seq<byte>)
    | KeyChallenge | KeyRegister | KeyLogin | KeyFinish

  /** The second-factor operation that a request is for. */
  function TargetOf(cfg: Config, typ: string, tfa: TFA): Target {
    if tfa.protocol == "opaque" then
      var data := cfg.codec.base64(tfa.pData);
      if data.None? then Malformed(IllegalRequestData)
      else if typ in {"2fa_authenticate", "create_session"} then
        if tfa.state == "evaluate" then PasswordLogin(data.value)
        else if tfa.state == "finalize" then PasswordFinish(data.value)
        else Malformed(IllegalState)
      else if tfa.state == "evaluate" then PasswordRegister(data.value)
      else if tfa.state == "finalize" then PasswordStore(data.value)
      else Malformed(IllegalState)
    else if tfa.protocol == "fido2" && cfg.fido2 then
      match (typ, tfa.state)
      case ("2fa_registration", "challenge") => KeyChallenge
      case ("2fa_registration", "register") => KeyRegister
      case ("2fa_authenticate", "challenge") => KeyLogin
      case ("create_session", "challenge") => KeyLogin
      case ("2fa_authenticate", "finalize") => KeyFinish
      case ("create_session", "finalize") => KeyFinish
      case _ => Malformed(IllegalState)
    else Malformed(IllegalRequestData)
  }

  const FIRST_FACTOR := {"2fa_registration", "2fa_authenticate", "create_session"}
  const CHANGES := {"2fa_change", "2fa_update"}

  function Perform(cfg: Config, s: State, req: Request, tfa: TFA, now: int, draw: Draw): (State, Reply)
    requires ValidConfig(cfg)
  {
    match TargetOf(cfg, req.typ, tfa)
    case Malformed(code) => (s, Fail(code))
    case PasswordRegister(data) => RegEvaluate(cfg, s, req, data)
    case PasswordStore(data) => RegFinalize(cfg, s, req, data)
    case PasswordLogin(data) => AuthEvaluate(cfg, s, req, tfa, data, now, draw)
    case PasswordFinish(data) => AuthFinalize(cfg, s, req, data, now)
    case KeyChallenge => IssueToken(s, req, now, draw)
    case KeyRegister => FidoRegisterCredential(cfg, s, req, tfa, now)
    case KeyLogin => FidoAuthChallenge(cfg, s, req, now, draw)
    case KeyFinish => FidoAuthFinalize(cfg, s, req, tfa, now, draw)
  }

  /** Main result: second-factor requests go by type, protocol and state, a change only
      through the gate, and all other types to their handler. */
  lemma Routed(cfg: Config, s: State, req: Request, now: int, draw: Draw)
    requires ValidConfig(cfg)
    ensures var tfa := cfg.codec.tfa(req.data);
            var operation := if tfa.Some? then Perform(cfg, s, req, tfa.value, now, draw)
                             else (s, Fail(IllegalRequestData));
            Process(cfg, s, req, now, draw) ==
              if req.typ in FIRST_FACTOR then operation
              else if req.typ in CHANGES then
                var gate := GateReply(s, req, now, Served);
                if gate == Served then operation else (s, gate)
              else HandleService(cfg, s, req, now)
  {
    hide RegEvaluate, RegFinalize, AuthEvaluate, AuthFinalize, IssueToken, FidoRegisterCredential, FidoAuthChallenge,
         FidoAuthFinalize, HandleService;
    GateIs(s, req, now);
    hide Gate, GateReply;
  }

  // ---------- the gate and the services ----------

  /** The session gate: a live session, verified, of the request's context. */
  function GateReply(s: State, req: Request, now: int, otherwise: Reply): Reply {
    var live := req.sessionId in s.sessions && now <= s.sessions[req.sessionId].expiresAt;
    Need(live, Unauthorized,
    Need(live && s.sessions[req.sessionId].verified, Unauthorized,
    Need(live && s.sessions[req.sessionId].ctx == req.ctx, AccessDenied, otherwise)))
  }

  lemma GateIs(s: State, req: Request, now: int)
    ensures var (sess, code) := Gate(s, req, now);
            && GateReply(s, req, now, Served) == (if sess.Some? then Served else Fail(code))
            && (sess.Some? ==> req.sessionId in s.sessions && sess.value == s.sessions[req.sessionId])
  {
  }

  const LOWER := "abcdefghijklmnopqrstuvwxyz"
  const UPPER := "ABCDEFGHIJKLMNOPQRSTUVWXYZ"
  const DIGITS := "0123456789"

  /** A kid of 1 to 128 letters, digits, underscores and hyphens. */
  predicate KidAllowed(kid: string) {
    1 <= |kid| <= 128 && forall c | c in kid :: c in LOWER || c in UPPER || c in DIGITS || c in "_-"
  }

  lemma LowerIff(c: char)
    ensures c in LOWER <==> 'a' <= c <= 'z'
  {
    assert forall i | 0 <= i < 26 :: LOWER[i] as int == 97 + i;
    if 'a' <= c <= 'z' {
      assert LOWER[c as int - 97] == c;
    }
  }

  lemma UpperIff(c: char)
    ensures c in UPPER <==> 'A' <= c <= 'Z'
  {
    assert forall i | 0 <= i < 26 :: UPPER[i] as int == 65 + i;
    if 'A' <= c <= 'Z' {
      assert UPPER[c as int - 65] == c;
    }
  }

  lemma DigitIff(c: char)
    ensures c in DIGITS <==> '0' <= c <= '9'
  {
    assert forall i | 0 <= i < 10 :: DIGITS[i] as int == 48 + i;
    if '0' <= c <= '9' {
      assert DIGITS[c as int - 48] == c;
    }
  }

  lemma KidIff(kid: string)
    ensures Stores.ValidKid(kid) <==> KidAllowed(kid)
  {
    forall c
      ensures c in LOWER || c in UPPER || c in DIGITS || c in "_-" <==>
                'a' <= c <= 'z' || 'A' <= c <= 'Z' || '0' <= c <= '9' || c == '_' || c == '-'
    {
      LowerIff(c);
      UpperIff(c);
      DigitIff(c);
    }
    hide LOWER, UPPER, DIGITS;
  }

  /** The hash that a signing request asks to be signed, if the request decodes. */
  function HashIn(cfg: Config, data: seq<byte>): Option<seq<byte>> {
    match cfg.codec.sign(data)
    case None => None
    case Some(r) => cfg.codec.base64(r.tbsHash)
  }

  /** The task lists the hash, or its SHA-256, or nothing. */
  predicate TaskAllows(cfg: Config, task: string, hash: seq<byte>) {
    var listed, digest := Sad.Authorized(task), cfg.codec.webauthn.sha256(hash);
    listed == [] || hash in listed || (|digest| == 32 && digest in listed)
  }

  /** After the gate, for a request of type sign_ecdsa. */
  function SigningReply(cfg: Config, task: string, data: seq<byte>, signs: bool): Reply {
    var r, hash := cfg.codec.sign(data), HashIn(cfg, data);
    Need(task == "" || hash.None? || TaskAllows(cfg, task, hash.value), AccessDenied,
    if !signs then Served
    else
      Need(hash.Some?, ServerError,
      Need(hash.Some? && KidAllowed(r.value.kid), ServerError,
      Need(hash.Some? && |hash.value| in {32, 48, 64}, ServerError,
      if hash.Some? then Signed(r.value.kid, hash.value) else Served))))
  }

  lemma SigningIs(cfg: Config, sess: Sessions.SessionData, req: Request, signs: bool)
    requires req.typ == "sign_ecdsa"
    ensures SigningReply(cfg, sess.task, req.data, signs) ==
              if SadRefuses(cfg, sess, req) then Fail(AccessDenied)
              else if signs then EcdsaHandle(cfg, req.data) else Served
  {
    hide KidAllowed, Stores.ValidKid, Sad.Authorized;
    var r := cfg.codec.sign(req.data);
    if r.Some? {
      KidIff(r.value.kid);
    }
  }

  /** Main result: a service request needs a handler; unless that needs no session, one
      through the gate; and a signing request then an allowed hash, decodable data, a
      well-formed kid and a hash of one of three lengths. What is signed is what was sent. */
  lemma ServiceReplies(cfg: Config, s: State, req: Request, now: int)
    requires ValidConfig(cfg)
    ensures HandleService(cfg, s, req, now).0 == s
    ensures var reply, gate := HandleService(cfg, s, req, now).1, GateReply(s, req, now, Served);
            if req.typ !in cfg.handlers then reply == Fail(UnsupportedType)
            else if cfg.handlers[req.typ] == OtherHandler(false) then reply == Served
            else if gate != Served then reply == gate
            else if req.typ != "sign_ecdsa" then reply == Served
            else
              && req.sessionId in s.sessions
              && var ecdsa := cfg.handlers[req.typ].EcdsaHandler?;
                 reply == SigningReply(cfg, s.sessions[req.sessionId].task, req.data, ecdsa)
  {
    GateIs(s, req, now);
    hide EcdsaHandle, GateReply, SigningReply, Gate;
    if req.typ == "sign_ecdsa" && req.typ in cfg.handlers && Gate(s, req, now).0.Some? {
      SigningIs(cfg, s.sessions[req.sessionId], req, cfg.handlers[req.typ].EcdsaHandler?);
    }
  }

  // ---------- passwords ----------

  /** Registration answers when the library does, and stores a record that deserialises;
      a login needs a key that is not locked, an answer of the library and a free session
      id; and its finalize a live session and a matching KE3. */
  lemma PasswordReplies(cfg: Config, s: State, req: Request, tfa: TFA, data: seq<byte>, now: int, draw: Draw)
    ensures RegEvaluate(cfg, s, req, data) ==
              (s, Need(cfg.codec.registrationResponse(data, req.ctx + "|" + req.clientId), ServerError, Evaluated))
    ensures RegFinalize(cfg, s, req, data).1 == Need(cfg.codec.record(data).Some?, IllegalRequestData, Registered)
    ensures var key := req.clientId + "|" + req.ctx;
            var record := if key in s.store.records then Some(s.store.records[key]) else None;
            var login := cfg.codec.evaluate(data, record, req.ctx + "|" + req.clientId, draw.serverSeed);
            AuthEvaluate(cfg, s, req, tfa, data, now, draw).1 ==
              Need(!Attempts.Locked(cfg.policy, s.attempts, req.clientId + "|" + req.ctx + "|" + req.ctx, now),
                   AccessDenied,
              Need(login.Some?, ServerError,
              Need(draw.sessionId !in s.sessions, ServerError, Ke2(draw.sessionId))))
    ensures var live := req.sessionId in s.sessions && now <= s.sessions[req.sessionId].expiresAt;
            AuthFinalize(cfg, s, req, data, now).1 ==
              Need(live, IllegalState,
              Need(live && cfg.codec.finish(data, s.sessions[req.sessionId].mac), Unauthorized,
              Authenticated(req.sessionId, if live then s.sessions[req.sessionId].expiresAt else 0)))
  {
    hide Attempts.Locked, Attempts.Checked, Attempts.Failed, SessionTtl, Stores.Step;
  }

  // ---------- FIDO2 ----------

  /** The checks of a token: it decodes, was sealed and has not run out, and is bound to
      this client and context. */
  function TokenReply(cfg: Config, s: State, req: Request, encoded: string, now: int, otherwise: Reply): Reply {
    var token := cfg.codec.base64(encoded);
    var opens := token.Some? && token.value in s.sealed
                 && now - s.sealed[token.value].iat * 1_000_000_000 <= cfg.tokenTTL;
    Need(token.Some?, IllegalRequestData,
    Need(opens, Unauthorized,
    Need(opens && s.sealed[token.value].clientId == req.clientId && s.sealed[token.value].ctx == req.ctx, AccessDenied,
    otherwise)))
  }

  lemma TokenIs(cfg: Config, s: State, req: Request, encoded: string, now: int)
    ensures var (token, code) := BoundToken(cfg, s, req, encoded, now);
            var bytes := cfg.codec.base64(encoded);
            && TokenReply(cfg, s, req, encoded, now, Served) == (if token.Some? then Served else Fail(code))
            && (token.Some? ==> bytes.Some? && bytes.value in s.sealed && token.value == s.sealed[bytes.value])
  {
  }

  /** A challenge needs only, and only for a login, a key that is not locked. */
  lemma ChallengeReplies(cfg: Config, s: State, req: Request, now: int, draw: Draw)
    ensures IssueToken(s, req, now, draw).1 == Challenge(draw.challenge, draw.ciphertext)
    ensures FidoAuthChallenge(cfg, s, req, now, draw).1 ==
              Need(!Attempts.Locked(cfg.policy, s.attempts, req.clientId + "|" + req.ctx + "|" + req.ctx, now),
                   AccessDenied,
              Challenge(draw.challenge, draw.ciphertext))
  {
    hide Attempts.Locked, Attempts.Checked;
  }

  /** A registration needs data that decode, a bound token when one is named, and an
      attestation that verifies on its challenge, or else on the empty one. */
  lemma RegistrationReplies(cfg: Config, s: State, req: Request, tfa: TFA, now: int)
    requires ValidConfig(cfg)
    ensures var reply, reg := FidoRegisterCredential(cfg, s, req, tfa, now).1, cfg.codec.fidoRegister(tfa.pData);
            var decodes := reg.Some? && cfg.codec.base64(reg.value.attestation).Some?
                           && cfg.codec.base64(reg.value.clientData).Some?;
            var gate :=
              if tfa.authorization == "" then Served else TokenReply(cfg, s, req, tfa.authorization, now, Served);
            if !decodes then reply == Fail(IllegalRequestData)
            else if gate != Served then reply == gate
            else
              var token := cfg.codec.base64(tfa.authorization);
              && (tfa.authorization != "" ==> token.Some? && token.value in s.sealed)
              && var verdict := WebAuthn.JudgeRegistration(
                   cfg.codec.webauthn, cfg.rp, cfg.codec.base64(reg.value.attestation).value,
                   cfg.codec.spare(reg.value.attestation), cfg.codec.base64(reg.value.clientData).value,
                   if tfa.authorization == "" then "" else s.sealed[token.value].challenge);
                 reply == if verdict.Crashed? then Crash
                          else Need(verdict.Verified?, IllegalRequestData, Registered)
  {
    hide BoundToken, TokenReply, WebAuthn.JudgeRegistration, Stores.Step, EcPoint.MarshalUncompressed;
    TokenIs(cfg, s, req, tfa.authorization, now);
  }

  /** The first credential with the id, when there is one. */
  ghost predicate Selects(creds: seq<Stores.Credential>, id: seq<byte>, i: nat) {
    i < |creds| && creds[i].credentialId == id && forall j | 0 <= j < i :: creds[j].credentialId != id
  }

  /** Main result: a FIDO2 finalize needs data that decode, a bound token, decodable parts,
      a registered credential with a key, an assertion that verifies with it, a client key
      and a free session id, in this order. */
  lemma FinalizeReplies(cfg: Config, s: State, req: Request, tfa: TFA, now: int, draw: Draw)
    requires ValidConfig(cfg)
    ensures var c, reply := cfg.codec, FidoAuthFinalize(cfg, s, req, tfa, now, draw).1;
            var fin := c.fidoFinalize(tfa.pData);
            if fin.None? then reply == Fail(IllegalRequestData)
            else if TokenReply(cfg, s, req, fin.value.token, now, Served) != Served then
              reply == TokenReply(cfg, s, req, fin.value.token, now, Served)
            else if c.base64(fin.value.credentialId).None? || c.base64(fin.value.authData).None?
                    || c.base64(fin.value.clientData).None? || c.base64(fin.value.signature).None? then
              reply == Fail(IllegalRequestData)
            else
              var key := req.clientId + "|" + req.ctx;
              var creds := if key in s.store.credentials then s.store.credentials[key] else [];
              var id := c.base64(fin.value.credentialId).value;
              && c.base64(fin.value.token).Some? && c.base64(fin.value.token).value in s.sealed
              && ((forall cred | cred in creds :: cred.credentialId != id) ==> reply == Fail(Unauthorized))
              && forall i: nat | Selects(creds, id, i) ::
                   var point := EcPoint.Unmarshal(cfg.rp.curve, creds[i].publicKey);
                   if point.None? then reply == Fail(ServerError)
                   else
                     var verdict := WebAuthn.JudgeAssertion(
                       c.webauthn, cfg.rp,
                       WebAuthn.Assertion(c.base64(fin.value.authData).value, c.base64(fin.value.clientData).value,
                                          c.base64(fin.value.signature).value),
                       point.value, creds[i].signCount, s.sealed[c.base64(fin.value.token).value].challenge);
                     var epub := c.base64(fin.value.clientEpub);
                     reply == if verdict.Crashed? then Crash
                              else
                                Need(verdict.Verified?, Unauthorized,
                                Need(epub.Some?, IllegalRequestData,
                                Need(epub.Some? && EcPoint.Unmarshal(cfg.rp.curve, epub.value).Some?,
                                     IllegalRequestData,
                                Need(draw.sessionId !in s.sessions, ServerError,
                                FidoSession(draw.sessionId, now + cfg.sessionTTL, fin.value.task)))))
  {
    hide BoundToken, TokenReply, WebAuthn.JudgeAssertion, Stores.Step, EcPoint.Unmarshal, Attempts.Failed,
         Attempts.CounterKey;
    var fin := cfg.codec.fidoFinalize(tfa.pData);
    if fin.Some? {
      TokenIs(cfg, s, req, fin.value.token, now);
      var id := cfg.codec.base64(fin.value.credentialId);
      if id.Some? {
        SelectIs(Stores.At(s.store.credentials, req.clientId + "|" + req.ctx), id.value);
      }
    }
  }

  lemma SelectIs(creds: seq<Stores.Credential>, id: seq<byte>)
    ensures forall i: nat | Selects(creds, id, i) :: i == Stores.FirstMatch(creds, id)
    ensures (forall cred | cred in creds :: cred.credentialId != id) ==> Stores.FirstMatch(creds, id) == |creds|
  {
  }

  // ---------- defaults ----------

  /** Values left at zero become 5 failures, 15 minutes, 5 minutes and 60 seconds; all
      others stay. */
  lemma DefaultsAre(cfg: Config)
    ensures var d := Defaulted(cfg);
            && d.policy.maxFails == (if cfg.policy.maxFails == 0 then 5 else cfg.policy.maxFails)
            && d.policy.lockout == (if cfg.policy.lockout == 0 then 900_000_000_000 else cfg.policy.lockout)
            && d.sessionTTL == (if cfg.sessionTTL == 0 then 300_000_000_000 else cfg.sessionTTL)
            && d.tokenTTL == (if cfg.tokenTTL == 0 then 60_000_000_000 else cfg.tokenTTL)
            && d == cfg.(policy := d.policy, sessionTTL := d.sessionTTL, tokenTTL := d.tokenTTL)
  {
  }
}
