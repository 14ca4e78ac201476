/** Signature counters over whole runs of one request at a time: the clone detection of
    internal/webauthn/verify.go with the stored counts of internal/store/memory.go. */
module SignCounts {
  import opened Bytes
  import opened Protocol
  import opened Runs
  import Attempts
  import Stores
  import EcPoint
  import WebAuthn

  /** The list position and the presented count of a credential. */
  datatype Accepted = Accepted(position: nat, count: nat)

  /** The assertion that a FIDO2 finalize accepts, if it accepts one, whatever becomes
      of the rest of the request. */
  function AcceptedBy(cfg: Config, s: State, req: Request, now: int): Option<Accepted>
    requires ValidConfig(cfg)
  {
    var tfa := cfg.codec.tfa(req.data);
    if tfa.None? || tfa.value.protocol != "fido2" || !cfg.fido2 || !IsAuthenticate(req.typ)
       || tfa.value.state != "finalize" then None
    else
      var fin := cfg.codec.fidoFinalize(tfa.value.pData);
      if fin.None? then None
      else
        var token := BoundToken(cfg, s, req, fin.value.token, now).0;
        var decoded := DecodeAssertion(cfg, fin.value);
        if token.None? || decoded.None? then None
        else
          var cred := MatchedCredential(s, req, decoded.value.credentialId);
          if cred.None? then None
          else
            var key := EcPoint.Unmarshal(cfg.rp.curve, cred.value.publicKey);
            if key.None? then None
            else
              match JudgeFinalize(cfg, cred.value, key.value, decoded.value.assertion, token.value.challenge)
              case Verified(ad) =>
                var creds := CredentialsOf(s, StoreKeyOf(req));
                Some(Accepted(Stores.FirstMatch(creds, decoded.value.credentialId), ad.signCount))
              case _ => None
  }

  function CredentialsOf(s: State, key: string): seq<Stores.Credential> {
    Stores.At(s.store.credentials, key)
  }

  /** What a request does to the credentials under a key: an accepted assertion sets
      one count, which passed the rule, and everything else only appends. */
  ghost predicate CountStep(s: State, t: State, accepted: Option<Accepted>, mine: bool, key: string) {
    var before, after := CredentialsOf(s, key), CredentialsOf(t, key);
    if mine && accepted.Some? then
      var (p, c) := (accepted.value.position, accepted.value.count);
      && p < |before|
      && WebAuthn.CountAccepted(c, before[p].signCount)
      && after == before[p := before[p].(signCount := c)]
    else before <= after
  }

  lemma OpaqueKeepsCredentials(cfg: Config, s: State, req: Request, tfa: TFA, now: int, draw: Draw)
    ensures HandleOpaque(cfg, s, req, tfa, now, draw).0.store.credentials == s.store.credentials
  {
    hide Attempts.Checked, Attempts.Failed, Attempts.Locked, SessionTtl;
  }

  /** A finalize writes the accepted count for the asserted id, or leaves the store. */
  lemma FinalizeStores(cfg: Config, s: State, req: Request, tfa: TFA, now: int, draw: Draw) returns (id: seq<byte>)
    requires ValidConfig(cfg) && cfg.codec.tfa(req.data) == Some(tfa)
    requires tfa.protocol == "fido2" && cfg.fido2 && IsAuthenticate(req.typ) && tfa.state == "finalize"
    ensures var accepted := AcceptedBy(cfg, s, req, now);
            var store := FidoAuthFinalize(cfg, s, req, tfa, now, draw).0.store;
            if accepted.None? then store == s.store
            else
              var creds, (p, c) := CredentialsOf(s, StoreKeyOf(req)), (accepted.value.position, accepted.value.count);
              && store == Stores.Step(s.store, StoreKeyOf(req), Stores.UpdateSignCount(id, c)).0
              && p == Stores.FirstMatch(creds, id) < |creds|
              && WebAuthn.CountAccepted(c, creds[p].signCount)
  {
    hide Attempts.Failed, BoundToken, EcPoint.Unmarshal, DecodeAssertion, WebAuthn.UserVerified, WebAuthn.ClientDataOk,
         WebAuthn.SignedHash, WebAuthn.CountAccepted, StoreKeyOf, Stores.Step, Stores.FirstMatch, Stores.At;
    var fin := cfg.codec.fidoFinalize(tfa.pData);
    var decoded := if fin.Some? then DecodeAssertion(cfg, fin.value) else None;
    id := if decoded.Some? then decoded.value.credentialId else [];
  }

  lemma FinalizeCounts(cfg: Config, s: State, req: Request, tfa: TFA, now: int, draw: Draw, key: string)
    requires ValidConfig(cfg) && cfg.codec.tfa(req.data) == Some(tfa)
    requires tfa.protocol == "fido2" && cfg.fido2 && IsAuthenticate(req.typ) && tfa.state == "finalize"
    ensures CountStep(s, FidoAuthFinalize(cfg, s, req, tfa, now, draw).0, AcceptedBy(cfg, s, req, now),
                      StoreKeyOf(req) == key, key)
  {
    hide FidoAuthFinalize, AcceptedBy, StoreKeyOf, WebAuthn.CountAccepted;
    var id := FinalizeStores(cfg, s, req, tfa, now, draw);
  }

  lemma RegistrationAppends(cfg: Config, s: State, req: Request, tfa: TFA, now: int, key: string)
    requires ValidConfig(cfg)
    ensures CredentialsOf(s, key) <= CredentialsOf(FidoRegisterCredential(cfg, s, req, tfa, now).0, key)
  {
    hide BoundToken, WebAuthn.JudgeRegistration, Stores.Join;
  }

  lemma OthersAcceptNothing(cfg: Config, s: State, req: Request, now: int)
    requires ValidConfig(cfg)
    requires var tfa := cfg.codec.tfa(req.data);
             tfa.Some? ==> tfa.value.protocol != "fido2" || !cfg.fido2 || !IsAuthenticate(req.typ)
                           || tfa.value.state != "finalize"
    ensures AcceptedBy(cfg, s, req, now).None?
  {
  }

  lemma FidoCounts(cfg: Config, s: State, req: Request, tfa: TFA, now: int, draw: Draw, key: string)
    requires ValidConfig(cfg) && cfg.codec.tfa(req.data) == Some(tfa) && tfa.protocol == "fido2"
    ensures CountStep(s, HandleFido(cfg, s, req, tfa, now, draw).0, AcceptedBy(cfg, s, req, now),
                      StoreKeyOf(req) == key, key)
  {
    hide AcceptedBy, FidoAuthFinalize, FidoRegisterCredential, Attempts.Checked, Attempts.Locked, StoreKeyOf;
    RegistrationAppends(cfg, s, req, tfa, now, key);
    if cfg.fido2 && IsAuthenticate(req.typ) && tfa.state == "finalize" {
      FinalizeCounts(cfg, s, req, tfa, now, draw, key);
    } else {
      OthersAcceptNothing(cfg, s, req, now);
    }
  }

  lemma ProcessCounts(cfg: Config, s: State, req: Request, now: int, draw: Draw, key: string)
    requires ValidConfig(cfg)
    ensures CountStep(s, Process(cfg, s, req, now, draw).0, AcceptedBy(cfg, s, req, now), StoreKeyOf(req) == key, key)
  {
    hide AcceptedBy, HandleOpaque, HandleFido, Gate, SadRefuses, EcdsaHandle, StoreKeyOf;
    var tfa := cfg.codec.tfa(req.data);
    if tfa.Some? && tfa.value.protocol == "fido2" {
      FidoCounts(cfg, s, req, tfa.value, now, draw, key);
      if !IsAuthenticate(req.typ) {
        OthersAcceptNothing(cfg, s, req, now);
      }
    } else {
      OthersAcceptNothing(cfg, s, req, now);
      if tfa.Some? {
        OpaqueKeepsCredentials(cfg, s, req, tfa.value, now, draw);
      }
    }
  }

  lemma NextCounts(r: Run, n: nat, key: string)
    requires ValidConfig(r.cfg) && n < |r.events|
    ensures var e := r.events[n];
            if e.Serve? then
              CountStep(After(r, n), After(r, n + 1), AcceptedBy(r.cfg, After(r, n), e.req, e.now),
                        StoreKeyOf(e.req) == key, key)
            else CredentialsOf(After(r, n + 1), key) == CredentialsOf(After(r, n), key)
  {
    hide Process;
    var e := r.events[n];
    if e.Serve? {
      ProcessCounts(r.cfg, After(r, n), e.req, e.now, e.draw, key);
    }
  }

  /** The same credentials in the same places, counts apart, and maybe more. */
  ghost predicate Extends(before: seq<Stores.Credential>, after: seq<Stores.Credential>) {
    && |before| <= |after|
    && forall i | 0 <= i < |before| :: after[i] == before[i].(signCount := after[i].signCount)
  }

  lemma MatchStays(before: seq<Stores.Credential>, after: seq<Stores.Credential>, id: seq<byte>)
    requires Extends(before, after) && Stores.FirstMatch(before, id) < |before|
    ensures Stores.FirstMatch(after, id) == Stores.FirstMatch(before, id)
  {
    var i, j := Stores.FirstMatch(before, id), Stores.FirstMatch(after, id);
    assert after[i].credentialId == id;
    assert forall k | 0 <= k < i :: after[k].credentialId == before[k].credentialId;
  }

  /** Main result: over every run a stored credential keeps its place and identity, and
      its count never decreases. */
  lemma {:induction false} CountsNeverDecrease(r: Run, i: nat, j: nat, key: string, p: nat)
    requires ValidConfig(r.cfg) && i <= j <= |r.events|
    requires p < |CredentialsOf(After(r, i), key)|
    ensures p < |CredentialsOf(After(r, j), key)|
    ensures var then_, later := CredentialsOf(After(r, i), key)[p], CredentialsOf(After(r, j), key)[p];
            later == then_.(signCount := later.signCount) && later.signCount >= then_.signCount
  {
    hide Process, AcceptedBy, CredentialsOf, After;
    if i < j {
      CountsNeverDecrease(r, i, j - 1, key, p);
      NextCounts(r, j - 1, key);
    }
  }

  lemma ExtendsOverRun(r: Run, i: nat, j: nat, key: string)
    requires ValidConfig(r.cfg) && i <= j <= |r.events|
    ensures Extends(CredentialsOf(After(r, i), key), CredentialsOf(After(r, j), key))
  {
    hide CredentialsOf, After;
    var before, after := CredentialsOf(After(r, i), key), CredentialsOf(After(r, j), key);
    forall p | 0 <= p < |before| ensures p < |after| && after[p] == before[p].(signCount := after[p].signCount) {
      CountsNeverDecrease(r, i, j, key, p);
    }
    if |before| > 0 {
      CountsNeverDecrease(r, i, j, key, |before| - 1);
    }
  }

  /** The credential that an id selects stays the same one over every run. */
  lemma MatchStaysOverRun(r: Run, i: nat, j: nat, key: string, id: seq<byte>)
    requires ValidConfig(r.cfg) && i <= j <= |r.events|
    requires Stores.FirstMatch(CredentialsOf(After(r, i), key), id) < |CredentialsOf(After(r, i), key)|
    ensures Stores.FirstMatch(CredentialsOf(After(r, j), key), id)
         == Stores.FirstMatch(CredentialsOf(After(r, i), key), id)
  {
    hide CredentialsOf, After, Stores.FirstMatch, Extends;
    ExtendsOverRun(r, i, j, key);
    MatchStays(CredentialsOf(After(r, i), key), CredentialsOf(After(r, j), key), id);
  }

  /** Main result: over every run, no non-zero count is accepted twice for a credential:
      each later accepted count is larger. */
  lemma NoCountTwice(r: Run, i: nat, j: nat, first: Accepted, second: Accepted)
    requires ValidConfig(r.cfg) && i < j < |r.events| && r.events[i].Serve? && r.events[j].Serve?
    requires StoreKeyOf(r.events[i].req) == StoreKeyOf(r.events[j].req)
    requires AcceptedBy(r.cfg, After(r, i), r.events[i].req, r.events[i].now) == Some(first)
    requires AcceptedBy(r.cfg, After(r, j), r.events[j].req, r.events[j].now) == Some(second)
    requires first.position == second.position && first.count != 0
    ensures second.count > first.count
  {
    hide Process, AcceptedBy, CredentialsOf, After, StoreKeyOf;
    var key := StoreKeyOf(r.events[i].req);
    NextCounts(r, i, key);
    NextCounts(r, j, key);
    CountsNeverDecrease(r, i + 1, j, key, first.position);
  }
}
