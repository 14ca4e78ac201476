/** Sending a FIDO2 finalize again: challenge tokens are stateless, so only their lifetime
    and the sign count stand against a second use. */
module Replay {
  import opened Bytes
  import opened Tokens
  import opened Protocol
  import opened Runs
  import opened SignCounts
  import opened Authentication
  import opened Lockout
  import Stores
  import EcPoint
  import WebAuthn

  // ---------- sealed tokens stay ----------

  lemma {:induction false} SealedWasDrawn(r: Run, n: nat, bytes: seq<byte>)
    requires ValidConfig(r.cfg) && n <= |r.events| && bytes in After(r, n).sealed
    ensures exists h | 0 <= h < n :: r.events[h].Serve? && r.events[h].draw.ciphertext == bytes
  {
    hide Process;
    var e := r.events[n - 1];
    if e.Serve? {
      ProcessSeals(r.cfg, After(r, n - 1), e.req, e.now, e.draw);
    }
    if bytes in After(r, n - 1).sealed {
      SealedWasDrawn(r, n - 1, bytes);
    }
  }

  /** With fresh ciphertexts a sealed token is never replaced. */
  lemma {:induction false} SealedStays(r: Run, i: nat, j: nat, bytes: seq<byte>)
    requires ValidRun(r) && i <= j <= |r.events| && bytes in After(r, i).sealed
    ensures bytes in After(r, j).sealed && After(r, j).sealed[bytes] == After(r, i).sealed[bytes]
  {
    hide Process;
    if i < j {
      SealedStays(r, i, j - 1, bytes);
      SealedWasDrawn(r, j - 1, bytes);
      var e := r.events[j - 1];
      if e.Serve? {
        ProcessSeals(r.cfg, After(r, j - 1), e.req, e.now, e.draw);
      }
    }
  }

  // ---------- judging the same request again ----------

  /** The ciphertext of the token in a FIDO2 finalize. */
  function TokenIn(cfg: Config, req: Request): seq<byte> {
    var tfa := cfg.codec.tfa(req.data);
    var fin := if tfa.Some? then cfg.codec.fidoFinalize(tfa.value.pData) else None;
    var bytes := if fin.Some? then cfg.codec.base64(fin.value.token) else None;
    if bytes.Some? then bytes.value else []
  }

  /** The moment at which that token runs out. */
  function Deadline(cfg: Config, s: State, req: Request): int
    requires TokenIn(cfg, req) in s.sealed
  {
    s.sealed[TokenIn(cfg, req)].iat * SECOND + cfg.tokenTTL
  }

  lemma AcceptedTokenOpens(cfg: Config, s: State, req: Request, now: int)
    requires ValidConfig(cfg) && AcceptedBy(cfg, s, req, now).Some?
    ensures TokenIn(cfg, req) in s.sealed && now <= Deadline(cfg, s, req)
    ensures var a := AcceptedBy(cfg, s, req, now).value;
            a.position < |CredentialsOf(s, StoreKeyOf(req))|
  {
    hide EcPoint.Unmarshal, DecodeAssertion, WebAuthn.JudgeAssertion, StoreKeyOf, Stores.FirstMatch, Stores.At;
  }

  /** In another state that has the same token and the same credential, but for its count,
      and at another time, the same request is judged by the deadline and the count. */
  lemma JudgedAgain(cfg: Config, s: State, t: State, req: Request, now: int, later: int)
    requires ValidConfig(cfg) && AcceptedBy(cfg, s, req, now).Some?
    requires TokenIn(cfg, req) in s.sealed && TokenIn(cfg, req) in t.sealed
    requires t.sealed[TokenIn(cfg, req)] == s.sealed[TokenIn(cfg, req)]
    requires Extends(CredentialsOf(s, StoreKeyOf(req)), CredentialsOf(t, StoreKeyOf(req)))
    ensures var a := AcceptedBy(cfg, s, req, now).value;
            && a.position < |CredentialsOf(t, StoreKeyOf(req))|
            && AcceptedBy(cfg, t, req, later) ==
                 if later <= Deadline(cfg, t, req)
                    && WebAuthn.CountAccepted(a.count, CredentialsOf(t, StoreKeyOf(req))[a.position].signCount)
                 then Some(a) else None
  {
    hide EcPoint.Unmarshal, DecodeAssertion, WebAuthn.UserVerified, WebAuthn.ClientDataOk,
         WebAuthn.SignedHash, WebAuthn.CountAccepted, StoreKeyOf, Stores.FirstMatch, Stores.At;
    AcceptedTokenOpens(cfg, s, req, now);
    var fin := cfg.codec.fidoFinalize(cfg.codec.tfa(req.data).value.pData).value;
    var id := DecodeAssertion(cfg, fin).value.credentialId;
    MatchStays(CredentialsOf(s, StoreKeyOf(req)), CredentialsOf(t, StoreKeyOf(req)), id);
  }

  // ---------- over runs ----------

  /** Main result: a finalize accepted at event i and sent again at a later event j is
      accepted again exactly when its count is zero, the stored count still is, and its
      token has not run out. */
  lemma ReplayAcceptedIff(r: Run, i: nat, j: nat, a: Accepted)
    requires ValidRun(r) && i < j < |r.events| && r.events[i].Serve? && r.events[j].Serve?
    requires r.events[j].req == r.events[i].req
    requires AcceptedBy(r.cfg, After(r, i), r.events[i].req, r.events[i].now) == Some(a)
    ensures var e, creds := r.events[j], CredentialsOf(After(r, j), StoreKeyOf(r.events[j].req));
            && a.position < |creds| && TokenIn(r.cfg, e.req) in After(r, j).sealed
            && TokenIn(r.cfg, e.req) in After(r, i).sealed
            && Deadline(r.cfg, After(r, j), e.req) == Deadline(r.cfg, After(r, i), e.req)
            && AcceptedBy(r.cfg, After(r, j), e.req, e.now) ==
                 if a.count == 0 && creds[a.position].signCount == 0 && e.now <= Deadline(r.cfg, After(r, i), e.req)
                 then Some(a) else None
  {
    hide After, AcceptedBy, TokenIn, StoreKeyOf, CredentialsOf, Extends;
    var e, f := r.events[i], r.events[j];
    var key := StoreKeyOf(e.req);
    AcceptedTokenOpens(r.cfg, After(r, i), e.req, e.now);
    SealedStays(r, i, j, TokenIn(r.cfg, e.req));
    ExtendsOverRun(r, i, j, key);
    JudgedAgain(r.cfg, After(r, i), After(r, j), e.req, e.now, f.now);
    NextCounts(r, i, key);
    CountsNeverDecrease(r, i + 1, j, key, a.position);
  }

  /** Main result: and it then opens another session, with its own key, under the same
      conditions. */
  lemma ReplayOpensIff(r: Run, i: nat, j: nat)
    requires ValidRun(r) && i < j < |r.events| && r.events[i].Serve? && r.events[j].Serve?
    requires r.events[j].req == r.events[i].req && ReplyTo(r, i).FidoSession?
    ensures var accepted := AcceptedBy(r.cfg, After(r, i), r.events[i].req, r.events[i].now);
            var creds, e := CredentialsOf(After(r, j), StoreKeyOf(r.events[j].req)), r.events[j];
            && accepted.Some? && accepted.value.position < |creds| && TokenIn(r.cfg, e.req) in After(r, i).sealed
            && (ReplyTo(r, j).FidoSession? <==>
                  && accepted.value.count == 0 && creds[accepted.value.position].signCount == 0
                  && e.now <= Deadline(r.cfg, After(r, i), e.req))
  {
    hide After, AcceptedBy, TokenIn, StoreKeyOf, CredentialsOf, Process, ClientKeyOf, CompletesPassword;
    var e, f := r.events[i], r.events[j];
    CompletesIff(r.cfg, After(r, i), e.req, e.now, e.draw);
    CompletesIff(r.cfg, After(r, j), f.req, f.now, f.draw);
    ReplayAcceptedIff(r, i, j, AcceptedBy(r.cfg, After(r, i), e.req, e.now).value);
    if f.draw.sessionId in After(r, j).sessions {
      DrawnBefore(r, j, f.draw.sessionId);
      assert false;
    }
  }
}
