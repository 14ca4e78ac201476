/** Which OPAQUE record a login is evaluated against, and which FIDO2 credential a
    finalize is verified against, over whole runs. */
module Records {
  import opened Bytes
  import opened Protocol
  import opened Runs
  import opened Authentication
  import Attempts
  import Stores
  import EcPoint
  import WebAuthn
  import Attestation
  import AuthData
  import SignCounts

  type Table = map<string, seq<byte>>

  /** The record in a request's OPAQUE message, when the message holds one. */
  function RecordIn(cfg: Config, req: Request): Option<seq<byte>> {
    match OpaqueData(cfg, req)
    case None => None
    case Some(data) => cfg.codec.record(data)
  }

  /** A request that stores `record` under `key`: an OPAQUE registration, or a change
      that has passed the session gate. */
  predicate Registers(cfg: Config, s: State, req: Request, now: int, key: string, record: seq<byte>) {
    && StoreKeyOf(req) == key
    && RecordIn(cfg, req) == Some(record)
    && cfg.codec.tfa(req.data).value.state == "finalize"
    && (IsRegistration(req.typ) || (IsChange(req.typ) && Gate(s, req, now).0.Some?))
  }

  /** Every change that a request can make to the records. */
  ghost predicate RecordStep(cfg: Config, s: State, t: State, req: Request, now: int) {
    var key := StoreKeyOf(req);
    if RecordIn(cfg, req).Some? && Registers(cfg, s, req, now, key, RecordIn(cfg, req).value)
    then t.store.records == s.store.records[key := RecordIn(cfg, req).value]
    else t.store.records == s.store.records
  }

  lemma FinalizeKeepsRecords(cfg: Config, s: State, req: Request, tfa: TFA, now: int, draw: Draw)
    requires ValidConfig(cfg)
    ensures FidoAuthFinalize(cfg, s, req, tfa, now, draw).0.store.records == s.store.records
  {
    hide Attempts.Failed, BoundToken, JudgeFinalize, DecodeAssertion, MatchedCredential, EcPoint.Unmarshal,
         Stores.WithCount, Stores.FirstMatch, StoreKeyOf;
  }

  lemma RegisterKeepsRecords(cfg: Config, s: State, req: Request, tfa: TFA, now: int)
    requires ValidConfig(cfg)
    ensures FidoRegisterCredential(cfg, s, req, tfa, now).0.store.records == s.store.records
  {
    hide BoundToken, WebAuthn.JudgeRegistration, StoreKeyOf;
  }

  lemma FidoKeepsRecords(cfg: Config, s: State, req: Request, tfa: TFA, now: int, draw: Draw)
    requires ValidConfig(cfg)
    ensures HandleFido(cfg, s, req, tfa, now, draw).0.store.records == s.store.records
  {
    hide Attempts.Checked, Attempts.Locked, FidoAuthFinalize, FidoRegisterCredential;
    FinalizeKeepsRecords(cfg, s, req, tfa, now, draw);
    RegisterKeepsRecords(cfg, s, req, tfa, now);
  }

  lemma OpaqueRecords(cfg: Config, s: State, req: Request, tfa: TFA, now: int, draw: Draw)
    requires cfg.codec.tfa(req.data) == Some(tfa) && tfa.protocol == "opaque"
    ensures var t := HandleOpaque(cfg, s, req, tfa, now, draw).0;
            var record := RecordIn(cfg, req);
            if record.Some? && tfa.state == "finalize" && (IsRegistration(req.typ) || IsChange(req.typ))
            then t.store.records == s.store.records[StoreKeyOf(req) := record.value]
            else t.store.records == s.store.records
  {
    hide Attempts.Checked, Attempts.Failed, Attempts.Locked, SessionTtl, StoreKeyOf;
  }

  lemma ProcessRecords(cfg: Config, s: State, req: Request, now: int, draw: Draw)
    requires ValidConfig(cfg)
    ensures RecordStep(cfg, s, Process(cfg, s, req, now, draw).0, req, now)
  {
    hide HandleOpaque, HandleFido, Gate, SadRefuses, EcdsaHandle, StoreKeyOf;
    var tfa := cfg.codec.tfa(req.data);
    if tfa.Some? {
      FidoKeepsRecords(cfg, s, req, tfa.value, now, draw);
      if tfa.value.protocol == "opaque" {
        OpaqueRecords(cfg, s, req, tfa.value, now, draw);
      }
    }
  }

  ghost predicate RegistersAt(r: Run, i: nat, key: string, record: seq<byte>)
    requires ValidConfig(r.cfg)
  {
    && i < |r.events| && r.events[i].Serve?
    && Registers(r.cfg, After(r, i), r.events[i].req, r.events[i].now, key, record)
  }

  /** The record under a key is the one stored at start-up and never replaced, or the
      one of event i and not replaced since. */
  ghost predicate LastRegistered(r: Run, n: nat, key: string, from: nat)
    requires ValidConfig(r.cfg) && n <= |r.events|
  {
    && from <= n && key in After(r, n).store.records
    && (from == 0 ==> key in r.store.records && r.store.records[key] == After(r, n).store.records[key])
    && (from > 0 ==> RegistersAt(r, from - 1, key, After(r, n).store.records[key]))
    && (forall m, record | from <= m < n :: !RegistersAt(r, m, key, record))
  }

  /** Main result: the record that `authEvaluate` uses for a client and context is
      always the last one registered for that key; a registration needs no session, and
      a change is then made in an authenticated session. */
  lemma {:induction false} RecordIsLastRegistered(r: Run, n: nat, key: string)
    requires ValidConfig(r.cfg) && n <= |r.events|
    requires key in After(r, n).store.records
    ensures exists from: nat :: LastRegistered(r, n, key, from)
  {
    hide Process, Registers;
    if n == 0 {
      assert LastRegistered(r, 0, key, 0);
    } else {
      var i: nat := n - 1;
      var e, s := r.events[i], After(r, i);
      if exists record :: RegistersAt(r, i, key, record) {
        var record :| RegistersAt(r, i, key, record);
        ProcessRecords(r.cfg, s, e.req, e.now, e.draw);
        RegistersIs(r.cfg, s, e.req, e.now, key, record);
        assert LastRegistered(r, n, key, n);
      } else {
        OthersKeepRecord(r, i, key);
        RecordIsLastRegistered(r, i, key);
        var from: nat :| LastRegistered(r, i, key, from);
        assert LastRegistered(r, n, key, from);
      }
    }
  }

  /** Main result: a login that is answered was evaluated against the record last
      registered for its client and context, and against a fake one when there is none. */
  lemma LoginUsesLastRegistered(r: Run, n: nat)
    requires ValidConfig(r.cfg) && n < |r.events| && r.events[n].Serve? && ReplyTo(r, n).Ke2?
    ensures var e, s := r.events[n], After(r, n);
            var key := e.req.clientId + "|" + e.req.ctx;
            var record := if key in s.store.records then Some(s.store.records[key]) else None;
            && (record.Some? ==> exists from: nat :: LastRegistered(r, n, key, from))
            && (record.None? ==> forall m: nat, other | m < n :: !RegistersAt(r, m, key, other))
            && OpaqueData(r.cfg, e.req).Some?
            && r.cfg.codec.evaluate(OpaqueData(r.cfg, e.req).value, record, e.req.ctx + "|" + e.req.clientId,
                                    e.draw.serverSeed).Some?
  {
    var e, s := r.events[n], After(r, n);
    var key := e.req.clientId + "|" + e.req.ctx;
    OpaqueLogin(r.cfg, s, e.req, e.now, e.draw);
    hide Process, RegistersAt;
    if key in s.store.records {
      RecordIsLastRegistered(r, n, key);
    }
    forall m: nat, other | m < n && RegistersAt(r, m, key, other) ensures key in s.store.records {
      RecordStays(r, m, n, key, other);
    }
  }

  lemma OpaqueLogin(cfg: Config, s: State, req: Request, now: int, draw: Draw)
    requires ValidConfig(cfg) && Process(cfg, s, req, now, draw).1.Ke2?
    ensures var key := req.clientId + "|" + req.ctx;
            && OpaqueData(cfg, req).Some?
            && cfg.codec.evaluate(
                 OpaqueData(cfg, req).value, if key in s.store.records then Some(s.store.records[key]) else None,
                 req.ctx + "|" + req.clientId, draw.serverSeed).Some?
  {
    hide Attempts.Checked, Attempts.Failed, Attempts.Locked, SessionTtl, Stores.Step, BoundToken, JudgeFinalize,
         DecodeAssertion, MatchedCredential, WebAuthn.JudgeRegistration, EcPoint.Unmarshal, Gate, SadRefuses, SignData;
  }

  /** Once registered, a key has a record for good. */
  lemma {:induction false} RecordStays(r: Run, m: nat, n: nat, key: string, record: seq<byte>)
    requires ValidConfig(r.cfg) && m < n <= |r.events| && RegistersAt(r, m, key, record)
    ensures key in After(r, n).store.records
    decreases n
  {
    hide Process, Registers;
    var e, s := r.events[n - 1], After(r, n - 1);
    if n == m + 1 {
      RegistersIs(r.cfg, s, e.req, e.now, key, record);
    } else {
      RecordStays(r, m, n - 1, key, record);
    }
    if e.Serve? {
      ProcessRecords(r.cfg, s, e.req, e.now, e.draw);
    }
  }

  lemma RegistersIs(cfg: Config, s: State, req: Request, now: int, key: string, record: seq<byte>)
    requires Registers(cfg, s, req, now, key, record)
    ensures StoreKeyOf(req) == key && RecordIn(cfg, req) == Some(record)
  {
  }

  /** An event that registers nothing under the key leaves the key's record alone. */
  lemma OthersKeepRecord(r: Run, i: nat, key: string)
    requires ValidConfig(r.cfg) && i < |r.events|
    requires forall record :: !RegistersAt(r, i, key, record)
    ensures key in After(r, i + 1).store.records <==> key in After(r, i).store.records
    ensures key in After(r, i + 1).store.records ==>
              After(r, i + 1).store.records[key] == After(r, i).store.records[key]
  {
    hide Process, Registers;
    var e, s := r.events[i], After(r, i);
    if e.Serve? {
      ProcessRecords(r.cfg, s, e.req, e.now, e.draw);
      var record := RecordIn(r.cfg, e.req);
      var own := StoreKeyOf(e.req);
      if record.Some? && Registers(r.cfg, s, e.req, e.now, own, record.value) {
        assert RegistersAt(r, i, own, record.value);
      }
    }
  }

  /** A change of an existing credential implies an authenticated session. */
  lemma ChangeIsAuthenticated(r: Run, i: nat, key: string, record: seq<byte>)
    requires ValidConfig(r.cfg) && RegistersAt(r, i, key, record) && IsChange(r.events[i].req.typ)
    ensures exists j: nat, d :: AuthenticatedSession(r, i, j, d)
  {
    hide Process, Gate;
    GateImpliesAuthenticated(r, i);
  }

  // ---------- FIDO2 credentials ----------

  /** What a FIDO2 registration stores: one more credential, with the ID and count of the
      verified attestation, whose stored key unmarshals to the attested point. */
  lemma RegistrationStores(cfg: Config, s: State, req: Request, tfa: TFA, now: int)
    returns (reg: FidoRegister, challenge: string, ad: AuthData.AuthenticatorData)
    requires ValidConfig(cfg) && EcPoint.ValidCurve(cfg.rp.curve)
    requires FidoRegisterCredential(cfg, s, req, tfa, now).1 == Registered
    ensures Attests(cfg, s, req, tfa, now, reg, challenge, ad)
    ensures var t := FidoRegisterCredential(cfg, s, req, tfa, now).0;
            var before := Stores.At(s.store.credentials, StoreKeyOf(req));
            var after := Stores.At(t.store.credentials, StoreKeyOf(req));
            && |after| == |before| + 1 && before <= after
            && IsAttested(cfg, after[|before|], ad) && after[|before|].signCount == ad.signCount
            && after[|before|].aaguid == ad.aaguid && after[|before|].createdAt == now / 1_000_000_000
  {
    hide BoundToken, WebAuthn.JudgeRegistration, EcPoint.Unmarshal, EcPoint.OnCurve, EcPoint.IsPrime,
         EcPoint.ValidCurve, StoreKeyOf, EcPoint.MarshalUncompressed;
    reg := cfg.codec.fidoRegister(tfa.pData).value;
    var attestation, clientData := cfg.codec.base64(reg.attestation).value, cfg.codec.base64(reg.clientData).value;
    challenge := if tfa.authorization == "" then ""
                 else BoundToken(cfg, s, req, tfa.authorization, now).0.value.challenge;
    var spare := cfg.codec.spare(reg.attestation);
    ad := WebAuthn.JudgeRegistration(cfg.codec.webauthn, cfg.rp, attestation, spare, clientData, challenge).authData;
    WebAuthn.RegisteredKeyOnCurve(cfg.codec.webauthn, cfg.rp, attestation, spare, clientData, challenge);
    EcPoint.UnmarshalMarshalled(cfg.rp.curve, ad.publicKey.value);
  }

  /** The attestation in the request verifies as `ad`, on the challenge of the token that
      it names; without a token the challenge is empty. */
  ghost predicate Attests(
      cfg: Config, s: State, req: Request, tfa: TFA, now: int,
      reg: FidoRegister, challenge: string, ad: AuthData.AuthenticatorData)
    requires ValidConfig(cfg)
  {
    && cfg.codec.fidoRegister(tfa.pData) == Some(reg)
    && cfg.codec.base64(reg.attestation).Some? && cfg.codec.base64(reg.clientData).Some?
    && WebAuthn.JudgeRegistration(cfg.codec.webauthn, cfg.rp, cfg.codec.base64(reg.attestation).value,
         cfg.codec.spare(reg.attestation), cfg.codec.base64(reg.clientData).value, challenge) == WebAuthn.Verified(ad)
    && if tfa.authorization == "" then challenge == ""
       else
         var token := BoundToken(cfg, s, req, tfa.authorization, now).0;
         token.Some? && challenge == token.value.challenge
  }

  /** What a verified attestation is, on the raw bytes: its client data carry the
      challenge, and its authenticator data are for this RP, of a user present and
      verified, with a key that is a point of the curve. */
  lemma AttestsMeans(
      cfg: Config, s: State, req: Request, tfa: TFA, now: int,
      reg: FidoRegister, challenge: string, ad: AuthData.AuthenticatorData)
    requires ValidConfig(cfg) && Attests(cfg, s, req, tfa, now, reg, challenge, ad)
    ensures var cd := cfg.codec.webauthn.parseClientData(cfg.codec.base64(reg.clientData).value);
            cd.Some? && cd.value.typ == "webauthn.create" && cd.value.challenge == challenge
            && cd.value.origin in cfg.rp.origins
    ensures ad.rpIdHash == cfg.codec.webauthn.sha256(cfg.rp.id) && ad.flags % 2 == 1 && ad.flags / 4 % 2 == 1
    ensures ad.flags / 64 % 2 == 1 && ad.publicKey.Some?
    ensures var (c, q) := (cfg.rp.curve, ad.publicKey.value); q.x < c.p && q.y < c.p && EcPoint.SolvesCurve(c, q.x, q.y)
  {
    hide WebAuthn.JudgeRegistration, Attestation.Extract, AuthData.Parse, EcPoint.SolvesCurve, BoundToken, FromBE;
    var attestation, clientData := cfg.codec.base64(reg.attestation).value, cfg.codec.base64(reg.clientData).value;
    var spare := cfg.codec.spare(reg.attestation);
    WebAuthn.RegistrationIff(cfg.codec.webauthn, cfg.rp, attestation, spare, clientData, challenge);
    var d := Attestation.Extract(attestation, spare).authData;
    AuthData.ParsedIff(cfg.rp.curve, d, ad);
    if ad.publicKey.Some? {
      WebAuthn.RegisteredKeyOnCurve(cfg.codec.webauthn, cfg.rp, attestation, spare, clientData, challenge);
      EcPoint.SolvesIff(cfg.rp.curve, ad.publicKey.value.x, ad.publicKey.value.y);
    }
  }

  /** A credential with the attested ID and key. */
  ghost predicate IsAttested(cfg: Config, c: Stores.Credential, ad: AuthData.AuthenticatorData)
    requires ValidConfig(cfg)
  {
    c.credentialId == ad.credentialId && EcPoint.Unmarshal(cfg.rp.curve, c.publicKey) == ad.publicKey
  }

  /** Event n is an accepted FIDO2 registration with this second-factor data. */
  ghost predicate CredentialRegisteredAt(r: Run, n: nat, tfa: TFA)
    requires ValidConfig(r.cfg)
  {
    && n < |r.events| && r.events[n].Serve? && IsRegistration(r.events[n].req.typ)
    && r.cfg.codec.tfa(r.events[n].req.data) == Some(tfa) && tfa.protocol == "fido2" && tfa.state == "register"
    && ReplyTo(r, n) == Registered
  }

  lemma RegistersThere(r: Run, n: nat, tfa: TFA)
    requires ValidConfig(r.cfg) && CredentialRegisteredAt(r, n, tfa)
    ensures var e := r.events[n];
            FidoRegisterCredential(r.cfg, After(r, n), e.req, tfa, e.now) == (After(r, n + 1), Registered)
  {
    hide FidoRegisterCredential;
  }

  /** Main result: a credential registered at event n is, at every later moment m of the
      run, the one that a finalize asserting its ID for the same client and context is
      verified against, with the attested key and a count at least the attested one, if
      and only if the ID was not registered before: otherwise the older one stays in
      use and the new one is never looked at. */
  lemma RegisteredKeyIsUsed(r: Run, n: nat, m: nat, tfa: TFA, later: Request)
    returns (reg: FidoRegister, challenge: string, ad: AuthData.AuthenticatorData)
    requires ValidConfig(r.cfg) && EcPoint.ValidCurve(r.cfg.rp.curve)
    requires CredentialRegisteredAt(r, n, tfa) && n < m <= |r.events|
    requires StoreKeyOf(later) == StoreKeyOf(r.events[n].req)
    ensures var e := r.events[n]; Attests(r.cfg, After(r, n), e.req, tfa, e.now, reg, challenge, ad)
    ensures var before := SignCounts.CredentialsOf(After(r, n), StoreKeyOf(later));
            var creds := SignCounts.CredentialsOf(After(r, m), StoreKeyOf(later));
            && |before| < |creds|
            && IsAttested(r.cfg, creds[|before|], ad) && creds[|before|].signCount >= ad.signCount
            && (Stores.FirstMatch(creds, ad.credentialId) == |before|
                <==> forall b | b in before :: b.credentialId != ad.credentialId)
            && MatchedCredential(After(r, m), later, ad.credentialId)
               == Some(creds[Stores.FirstMatch(creds, ad.credentialId)])
  {
    hide Attests, FidoRegisterCredential, After, Process, EcPoint.Unmarshal, EcPoint.ValidCurve, StoreKeyOf, Stores.At;
    var e, key := r.events[n], StoreKeyOf(later);
    RegistersThere(r, n, tfa);
    reg, challenge, ad := RegistrationStores(r.cfg, After(r, n), e.req, tfa, e.now);
    var before, after := SignCounts.CredentialsOf(After(r, n), key), SignCounts.CredentialsOf(After(r, n + 1), key);
    SignCounts.CountsNeverDecrease(r, n + 1, m, key, |before|);
    FirstMatchIff(before, after, ad.credentialId);
    SignCounts.MatchStaysOverRun(r, n + 1, m, key, ad.credentialId);
  }

  /** What a registration at event n answers: event h issued, to the same client
      and context and within the token lifetime, a token with this challenge. */
  ghost predicate AnswersIssued(r: Run, h: nat, n: nat, bytes: seq<byte>, challenge: string)
    requires ValidConfig(r.cfg)
  {
    && h < n < |r.events| && r.events[h].Serve? && r.events[n].Serve?
    && ReplyTo(r, h) == Challenge(challenge, bytes)
    && r.events[h].req.clientId == r.events[n].req.clientId && r.events[h].req.ctx == r.events[n].req.ctx
    && r.events[n].now - r.events[h].now <= r.cfg.tokenTTL
  }

  /** Challenges are drawn at random and never empty. */
  ghost predicate ChallengesDrawn(r: Run) {
    forall e | e in r.events && e.Serve? :: e.draw.challenge != ""
  }

  /** A reply with a challenge has the drawn one. */
  lemma ReplyHasDrawnChallenge(cfg: Config, s: State, req: Request, now: int, draw: Draw)
    requires ValidConfig(cfg)
    ensures var reply := Process(cfg, s, req, now, draw).1;
            reply.Challenge? ==> reply.challenge == draw.challenge
  {
    hide Gate, SadRefuses, SignData, BoundToken, JudgeFinalize, DecodeAssertion, MatchedCredential, Stores.Step,
         WebAuthn.JudgeRegistration, EcPoint.Unmarshal, Attempts.Checked, Attempts.Failed, Attempts.Locked, SessionTtl;
  }

  lemma NoEmptyChallenge(r: Run, h: nat, bytes: seq<byte>)
    requires ValidConfig(r.cfg) && ChallengesDrawn(r) && h < |r.events| && r.events[h].Serve?
    ensures ReplyTo(r, h) != Challenge("", bytes)
  {
    hide Process, After;
    var e := r.events[h];
    assert e in r.events;
    ReplyHasDrawnChallenge(r.cfg, After(r, h), e.req, e.now, e.draw);
  }

  /** Main result: the challenge that an accepted FIDO2 registration answers was issued by
      this run, to the same client and context within the token lifetime, if and only if
      the request names a token: without one the empty challenge is accepted. */
  lemma RegistrationAnswersIff(
      r: Run, n: nat, tfa: TFA, reg: FidoRegister, challenge: string, ad: AuthData.AuthenticatorData)
    requires ValidConfig(r.cfg) && ChallengesDrawn(r) && CredentialRegisteredAt(r, n, tfa)
    requires var e := r.events[n]; Attests(r.cfg, After(r, n), e.req, tfa, e.now, reg, challenge, ad)
    ensures (exists h: nat, bytes :: AnswersIssued(r, h, n, bytes, challenge)) <==> tfa.authorization != ""
    ensures var cd := r.cfg.codec.webauthn.parseClientData(r.cfg.codec.base64(reg.clientData).value);
            cd.Some? && cd.value.challenge == challenge
  {
    hide Process, WebAuthn.JudgeRegistration, FidoRegisterCredential;
    var e, s := r.events[n], After(r, n);
    AttestsMeans(r.cfg, s, e.req, tfa, e.now, reg, challenge, ad);
    if tfa.authorization != "" {
      var bytes := r.cfg.codec.base64(tfa.authorization).value;
      TokensWereIssued(r, n, bytes);
      var h: nat :| h < n && IssuedAt(r, h, bytes, s.sealed[bytes]);
      assert AnswersIssued(r, h, n, bytes, challenge);
    } else if h: nat, bytes :| AnswersIssued(r, h, n, bytes, challenge) {
      NoEmptyChallenge(r, h, bytes);
      assert false;
    }
  }

  lemma FirstMatchIff(before: seq<Stores.Credential>, after: seq<Stores.Credential>, id: seq<byte>)
    requires |after| == |before| + 1 && before <= after && after[|before|].credentialId == id
    ensures Stores.FirstMatch(after, id) <= |before|
    ensures Stores.FirstMatch(after, id) == |before| <==> forall b | b in before :: b.credentialId != id
  {
    assert forall j | 0 <= j < |before| :: after[j] == before[j] && before[j] in before;
  }
}
