/** What each request does to the server's state: the handlers of
    internal/service/dispatcher.go and fido2.go, as functions of the state, the request,
    the clock and the random values drawn. JSON, base64, OPAQUE and ECDSA are arbitrary
    deterministic functions. */
module Protocol {
  import opened Bytes
  import opened Tokens
  import Sessions
  import Attempts
  import Stores
  import Sad
  import EcPoint
  import WebAuthn

  datatype ErrorCode =
    | IllegalRequestData | Unauthorized | AccessDenied | IllegalState | UnsupportedType | ServerError

  /** A verified request. `data` is the raw JSON that handlers decode. */
  datatype Request = Request(clientId: string, ctx: string, typ: string, sessionId: string, data: seq<byte>)

  /** Second-factor data after the aliases are resolved. */
  datatype TFA = TFA(protocol: string, state: string, pData: string, authorization: string, sessionDuration: int)

  datatype SignRequest = SignRequest(kid: string, tbsHash: string)

  datatype FidoFinalize = FidoFinalize(
    clientEpub: string, token: string, task: string,
    credentialId: string, authData: string, clientData: string, signature: string)

  datatype FidoRegister = FidoRegister(attestation: string, clientData: string)

  /** What the server keeps secret for one OPAQUE login. */
  datatype Login = Login(mac: seq<byte>, key: seq<byte>)

  /** The libraries. `evaluate` takes KE1, the client's record (none: a fake one), the
      credential identifier that goes with it and the server's randomness; `finish` checks
      KE3 against the expected client MAC; `record` gives the serial form of the record
      that a message deserialises to. */
  datatype Codec = Codec(
    tfa: seq<byte> -> Option<TFA>,
    sign: seq<byte> -> Option<SignRequest>,
    fidoFinalize: string -> Option<FidoFinalize>,
    fidoRegister: string -> Option<FidoRegister>,
    base64: string -> Option<seq<byte>>,
    spare: string -> seq<byte>,
    record: seq<byte> -> Option<seq<byte>>,
    registrationResponse: (seq<byte>, string) -> bool,
    evaluate: (seq<byte>, Option<seq<byte>>, string, seq<byte>) -> Option<Login>,
    finish: (seq<byte>, seq<byte>) -> bool,
    webauthn: WebAuthn.Primitives)

  /** A registered service handler; the signing handler always needs a session. */
  datatype Handler = EcdsaHandler | OtherHandler(twoFactor: bool)

  datatype Config = Config(
    codec: Codec, policy: Attempts.Policy, sessionTTL: int, tokenTTL: int,
    fido2: bool, rp: WebAuthn.RelyingParty, handlers: map<string, Handler>)

  const SIGN_ECDSA := "sign_ecdsa"

  /** Handlers are registered under their own type. */
  predicate ValidConfig(cfg: Config) {
    && cfg.rp.curve.p > 0
    && (forall t | t in cfg.handlers && cfg.handlers[t].EcdsaHandler? :: t == SIGN_ECDSA)
  }

  /** The defaults of `NewDispatcher` and `NewTokenEncryptor` for values left at zero. */
  function Defaulted(cfg: Config): Config {
    cfg.(
      policy := Attempts.Policy(
        if cfg.policy.maxFails == 0 then 5 else cfg.policy.maxFails,
        if cfg.policy.lockout == 0 then 15 * 60 * SECOND else cfg.policy.lockout),
      sessionTTL := if cfg.sessionTTL == 0 then 5 * 60 * SECOND else cfg.sessionTTL,
      tokenTTL := if cfg.tokenTTL == 0 then 60 * SECOND else cfg.tokenTTL)
  }

  /** Random values available to one request. */
  datatype Draw = Draw(
    sessionId: string, serverSeed: seq<byte>, challenge: string, ciphertext: seq<byte>, sessionKey: seq<byte>)

  datatype State = State(
    sessions: Sessions.View, attempts: Attempts.Table, store: Stores.Keyed<string>, sealed: Sealed)

  datatype Reply =
    | Fail(code: ErrorCode)
    | Crash
    | Challenge(challenge: string, token: seq<byte>)
    | Evaluated
    | Registered
    | Ke2(sessionId: string)
    | Authenticated(sessionId: string, expiresAt: int)
    | FidoSession(sessionId: string, expiresAt: int, task: string)
    | Signed(kid: string, hash: seq<byte>)
    | Served

  function CounterKeyOf(req: Request): string {
    Attempts.CounterKey(req.clientId, req.ctx, req.ctx)
  }

  function StoreKeyOf(req: Request): string {
    Stores.Join(req.clientId, req.ctx)
  }

  function WithFailure(cfg: Config, s: State, req: Request, now: int): State {
    s.(attempts := Attempts.Failed(cfg.policy, s.attempts, CounterKeyOf(req), now))
  }

  // ---------- OPAQUE ----------

  /** The credential identifier of a client's record, context first. */
  function CredentialIdOf(req: Request): string {
    Stores.Join(req.ctx, req.clientId)
  }

  function RegEvaluate(cfg: Config, s: State, req: Request, data: seq<byte>): (State, Reply) {
    if cfg.codec.registrationResponse(data, CredentialIdOf(req)) then (s, Evaluated)
    else (s, Fail(ServerError))
  }

  function RegFinalize(cfg: Config, s: State, req: Request, data: seq<byte>): (State, Reply) {
    match cfg.codec.record(data)
    case None => (s, Fail(IllegalRequestData))
    case Some(record) =>
      (s.(store := Stores.Step(s.store, StoreKeyOf(req), Stores.PutRecord(record)).0), Registered)
  }

  /** Two's-complement wrap-around of an int64. */
  function Wrap64(n: int): int {
    (n + 0x8000_0000_0000_0000) % 0x1_0000_0000_0000_0000 - 0x8000_0000_0000_0000
  }

  /** The client may ask for a shorter session. */
  function SessionTtl(max: int, duration: int): int {
    var requested := Wrap64(duration * SECOND);
    if duration > 0 && requested < max then requested else max
  }

  function RecordOf(s: State, req: Request): Option<seq<byte>> {
    if StoreKeyOf(req) in s.store.records then Some(s.store.records[StoreKeyOf(req)]) else None
  }

  function AuthEvaluate(cfg: Config, s: State, req: Request, tfa: TFA, data: seq<byte>, now: int, draw: Draw)
    : (State, Reply)
  {
    if Attempts.Locked(cfg.policy, s.attempts, CounterKeyOf(req), now) then (s, Fail(AccessDenied))
    else
      var checked := s.(attempts := Attempts.Checked(cfg.policy, s.attempts, CounterKeyOf(req), now));
      match cfg.codec.evaluate(data, RecordOf(s, req), CredentialIdOf(req), draw.serverSeed)
      case None => (checked, Fail(ServerError))
      case Some(login) =>
        var sess := Sessions.SessionData(
          draw.sessionId, req.clientId, req.ctx, login.key, login.mac,
          now + SessionTtl(cfg.sessionTTL, tfa.sessionDuration), false, "");
        if draw.sessionId in s.sessions then (checked, Fail(ServerError))
        else (checked.(sessions := s.sessions[draw.sessionId := sess]), Ke2(draw.sessionId))
  }

  function AuthFinalize(cfg: Config, s: State, req: Request, data: seq<byte>, now: int): (State, Reply) {
    match Sessions.Lookup(s.sessions, req.sessionId, now)
    case None => (s, Fail(IllegalState))
    case Some(sess) =>
      if !cfg.codec.finish(data, sess.mac) then
        (WithFailure(cfg, s, req, now).(sessions := s.sessions - {req.sessionId}), Fail(Unauthorized))
      else
        (s.(attempts := s.attempts - {CounterKeyOf(req)}, sessions := Sessions.Marked(s.sessions, req.sessionId)),
         Authenticated(req.sessionId, sess.expiresAt))
  }

  // ---------- FIDO2 ----------

  function IssueToken(s: State, req: Request, now: int, draw: Draw): (State, Reply) {
    var token := ChallengeToken(Unix(now), req.clientId, req.ctx, draw.challenge);
    (s.(sealed := s.sealed[draw.ciphertext := token]), Challenge(draw.challenge, draw.ciphertext))
  }

  function FidoAuthChallenge(cfg: Config, s: State, req: Request, now: int, draw: Draw): (State, Reply) {
    if Attempts.Locked(cfg.policy, s.attempts, CounterKeyOf(req), now) then (s, Fail(AccessDenied))
    else IssueToken(s.(attempts := Attempts.Checked(cfg.policy, s.attempts, CounterKeyOf(req), now)), req, now, draw)
  }

  /** A token that opens and is bound to this client and context. */
  function BoundToken(cfg: Config, s: State, req: Request, encoded: string, now: int)
    : (r: (Option<ChallengeToken>, ErrorCode))
    ensures r.0.Some? ==> r.0.value.clientId == req.clientId && r.0.value.ctx == req.ctx
  {
    match cfg.codec.base64(encoded)
    case None => (None, IllegalRequestData)
    case Some(bytes) =>
      match Open(s.sealed, bytes, cfg.tokenTTL, now)
      case None => (None, Unauthorized)
      case Some(token) =>
        if token.clientId != req.clientId || token.ctx != req.ctx then (None, AccessDenied)
        else (Some(token), ServerError)
  }

  /** `fido2RegRegister` for its only reachable type, 2fa_registration. */
  function FidoRegisterCredential(cfg: Config, s: State, req: Request, tfa: TFA, now: int): (State, Reply)
    requires ValidConfig(cfg)
  {
    match cfg.codec.fidoRegister(tfa.pData)
    case None => (s, Fail(IllegalRequestData))
    case Some(reg) =>
      var attestation, clientData := cfg.codec.base64(reg.attestation), cfg.codec.base64(reg.clientData);
      if attestation.None? || clientData.None? then (s, Fail(IllegalRequestData))
      else
        var token := BoundToken(cfg, s, req, tfa.authorization, now);
        if tfa.authorization != "" && token.0.None? then (s, Fail(token.1))
        else
          var challenge := if tfa.authorization != "" then token.0.value.challenge else "";
          match WebAuthn.JudgeRegistration(cfg.codec.webauthn, cfg.rp, attestation.value,
                                           cfg.codec.spare(reg.attestation), clientData.value, challenge)
          case Crashed => (s, Crash)
          case Refused => (s, Fail(IllegalRequestData))
          case Verified(ad) =>
            var cred := Stores.Credential(
              ad.credentialId, EcPoint.MarshalUncompressed(cfg.rp.curve, ad.publicKey.value), ad.signCount, ad.aaguid,
              Unix(now));
            (s.(store := Stores.Step(s.store, StoreKeyOf(req), Stores.PutCredential(cred)).0), Registered)
  }

  /** The decoded parts of a finalize request. */
  datatype DecodedAssertion = DecodedAssertion(credentialId: seq<byte>, assertion: WebAuthn.Assertion)

  function DecodeAssertion(cfg: Config, fin: FidoFinalize): Option<DecodedAssertion> {
    var id, authData := cfg.codec.base64(fin.credentialId), cfg.codec.base64(fin.authData);
    var clientData, signature := cfg.codec.base64(fin.clientData), cfg.codec.base64(fin.signature);
    if id.Some? && authData.Some? && clientData.Some? && signature.Some? then
      Some(DecodedAssertion(id.value, WebAuthn.Assertion(authData.value, clientData.value, signature.value)))
    else None
  }

  /** The first registered credential with the asserted id. */
  function MatchedCredential(s: State, req: Request, id: seq<byte>): Option<Stores.Credential> {
    var creds := Stores.At(s.store.credentials, StoreKeyOf(req));
    var i := Stores.FirstMatch(creds, id);
    if i < |creds| then Some(creds[i]) else None
  }

  function JudgeFinalize(
      cfg: Config, cred: Stores.Credential, key: EcPoint.Point, a: WebAuthn.Assertion, challenge: string)
    : WebAuthn.Verdict
    requires ValidConfig(cfg)
  {
    WebAuthn.JudgeAssertion(cfg.codec.webauthn, cfg.rp, a, key, cred.signCount, challenge)
  }

  /** After the assertion is accepted: store the count, agree on a key, open a session. */
  function FidoOpenSession(
      cfg: Config, s: State, req: Request, fin: FidoFinalize, id: seq<byte>, signCount: nat, now: int, draw: Draw)
    : (State, Reply)
    requires ValidConfig(cfg)
  {
    var counted := s.(store := Stores.Step(s.store, StoreKeyOf(req), Stores.UpdateSignCount(id, signCount)).0);
    match cfg.codec.base64(fin.clientEpub)
    case None => (counted, Fail(IllegalRequestData))
    case Some(epub) =>
      if EcPoint.Unmarshal(cfg.rp.curve, epub).None? then (counted, Fail(IllegalRequestData))
      else if draw.sessionId in s.sessions then (counted, Fail(ServerError))
      else
        var sess := Sessions.SessionData(
          draw.sessionId, req.clientId, req.ctx, draw.sessionKey, [], now + cfg.sessionTTL, true, fin.task);
        (counted.(sessions := s.sessions[draw.sessionId := sess], attempts := s.attempts - {CounterKeyOf(req)}),
         FidoSession(draw.sessionId, now + cfg.sessionTTL, fin.task))
  }

  function FidoAuthFinalize(cfg: Config, s: State, req: Request, tfa: TFA, now: int, draw: Draw): (State, Reply)
    requires ValidConfig(cfg)
  {
    match cfg.codec.fidoFinalize(tfa.pData)
    case None => (s, Fail(IllegalRequestData))
    case Some(fin) =>
      var token := BoundToken(cfg, s, req, fin.token, now);
      if token.0.None? then (s, Fail(token.1))
      else
        match DecodeAssertion(cfg, fin)
        case None => (s, Fail(IllegalRequestData))
        case Some(decoded) =>
          match MatchedCredential(s, req, decoded.credentialId)
          case None => (WithFailure(cfg, s, req, now), Fail(Unauthorized))
          case Some(cred) =>
            match EcPoint.Unmarshal(cfg.rp.curve, cred.publicKey)
            case None => (s, Fail(ServerError))
            case Some(key) =>
              match JudgeFinalize(cfg, cred, key, decoded.assertion, token.0.value.challenge)
              case Crashed => (s, Crash)
              case Refused => (WithFailure(cfg, s, req, now), Fail(Unauthorized))
              case Verified(ad) =>
                FidoOpenSession(cfg, s, req, fin, decoded.credentialId, ad.signCount, now, draw)
  }

  // ---------- routing ----------

  predicate IsRegistration(typ: string) {
    typ == "2fa_registration"
  }

  predicate IsAuthenticate(typ: string) {
    typ == "2fa_authenticate" || typ == "create_session"
  }

  predicate IsChange(typ: string) {
    typ == "2fa_change" || typ == "2fa_update"
  }

  function HandleFido(cfg: Config, s: State, req: Request, tfa: TFA, now: int, draw: Draw): (State, Reply)
    requires ValidConfig(cfg)
  {
    if !cfg.fido2 then (s, Fail(IllegalRequestData))
    else if IsRegistration(req.typ) && tfa.state == "challenge" then IssueToken(s, req, now, draw)
    else if IsRegistration(req.typ) && tfa.state == "register" then FidoRegisterCredential(cfg, s, req, tfa, now)
    else if IsAuthenticate(req.typ) && tfa.state == "challenge" then FidoAuthChallenge(cfg, s, req, now, draw)
    else if IsAuthenticate(req.typ) && tfa.state == "finalize" then FidoAuthFinalize(cfg, s, req, tfa, now, draw)
    else (s, Fail(IllegalState))
  }

  function HandleOpaque(cfg: Config, s: State, req: Request, tfa: TFA, now: int, draw: Draw): (State, Reply) {
    match cfg.codec.base64(tfa.pData)
    case None => (s, Fail(IllegalRequestData))
    case Some(data) =>
      var registers := IsRegistration(req.typ) || IsChange(req.typ);
      if registers && tfa.state == "evaluate" then RegEvaluate(cfg, s, req, data)
      else if registers && tfa.state == "finalize" then RegFinalize(cfg, s, req, data)
      else if IsAuthenticate(req.typ) && tfa.state == "evaluate" then AuthEvaluate(cfg, s, req, tfa, data, now, draw)
      else if IsAuthenticate(req.typ) && tfa.state == "finalize" then AuthFinalize(cfg, s, req, data, now)
      else (s, Fail(IllegalState))
  }

  function Handle2FA(cfg: Config, s: State, req: Request, now: int, draw: Draw): (State, Reply)
    requires ValidConfig(cfg)
  {
    match cfg.codec.tfa(req.data)
    case None => (s, Fail(IllegalRequestData))
    case Some(tfa) =>
      if tfa.protocol == "opaque" then HandleOpaque(cfg, s, req, tfa, now, draw)
      else if tfa.protocol == "fido2" then HandleFido(cfg, s, req, tfa, now, draw)
      else (s, Fail(IllegalRequestData))
  }

  /** The session gate: the live, verified session of the request's own context. */
  function Gate(s: State, req: Request, now: int): (g: (Option<Sessions.SessionData>, ErrorCode))
    ensures g.0.Some? ==>
              && Sessions.Live(s.sessions, req.sessionId, now) && g.0.value == s.sessions[req.sessionId]
              && g.0.value.verified && g.0.value.ctx == req.ctx
  {
    match Sessions.Lookup(s.sessions, req.sessionId, now)
    case None => (None, Unauthorized)
    case Some(sess) =>
      if !sess.verified then (None, Unauthorized)
      else if sess.ctx != req.ctx then (None, AccessDenied)
      else (Some(sess), ServerError)
  }

  /** The signing request in the data, decoded the same way by gate and handler. */
  function SignData(cfg: Config, data: seq<byte>): Option<(string, seq<byte>)> {
    match cfg.codec.sign(data)
    case None => None
    case Some(r) =>
      match cfg.codec.base64(r.tbsHash)
      case None => None
      case Some(hash) => Some((r.kid, hash))
  }

  /** The SAD check refuses when the data decodes and the task does not allow the hash. */
  predicate SadRefuses(cfg: Config, sess: Sessions.SessionData, req: Request) {
    && req.typ == SIGN_ECDSA && sess.task != ""
    && var decoded := SignData(cfg, req.data);
       decoded.Some? && !Sad.Allows(cfg.codec.webauthn.sha256, sess.task, decoded.value.1)
  }

  /** `ECDSAHandler.Handle` up to the call of `backend.Sign`. */
  function EcdsaHandle(cfg: Config, data: seq<byte>): Reply {
    match SignData(cfg, data)
    case None => Fail(ServerError)
    case Some((kid, hash)) =>
      if Stores.ValidKid(kid) && Sad.HashLength(|hash|) then Signed(kid, hash) else Fail(ServerError)
  }

  function HandleService(cfg: Config, s: State, req: Request, now: int): (State, Reply) {
    if req.typ !in cfg.handlers then (s, Fail(UnsupportedType))
    else
      var handler := cfg.handlers[req.typ];
      if handler == OtherHandler(false) then (s, Served)
      else
        var (sess, code) := Gate(s, req, now);
        if sess.None? then (s, Fail(code))
        else if SadRefuses(cfg, sess.value, req) then (s, Fail(AccessDenied))
        else if handler.EcdsaHandler? then (s, EcdsaHandle(cfg, req.data))
        else (s, Served)
  }

  function Handle2FAChange(cfg: Config, s: State, req: Request, now: int, draw: Draw): (State, Reply)
    requires ValidConfig(cfg)
  {
    var (sess, code) := Gate(s, req, now);
    if sess.None? then (s, Fail(code)) else Handle2FA(cfg, s, req, now, draw)
  }

  /** `Process`, from the routing on. */
  function Process(cfg: Config, s: State, req: Request, now: int, draw: Draw): (State, Reply)
    requires ValidConfig(cfg)
  {
    if IsRegistration(req.typ) || IsAuthenticate(req.typ) then Handle2FA(cfg, s, req, now, draw)
    else if IsChange(req.typ) then Handle2FAChange(cfg, s, req, now, draw)
    else HandleService(cfg, s, req, now)
  }
}
