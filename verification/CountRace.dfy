/** Concurrent FIDO2 finalizes: `fido2AuthFinalize` reads a copy of the credentials under
    the store's mutex, judges the assertion without it, and takes the mutex again to
    write the count. The sign-count laws of SignCounts under every such interleaving. */
module CountRace {
  import opened Bytes
  import opened Protocol
  import opened SignCounts
  import Sessions
  import Attempts
  import Stores
  import EcPoint
  import WebAuthn

  // ---------- one finalize in two steps ----------

  /** A finalize between its read and its write: its request, the asserted id, and the
      position and count that it has accepted. */
  datatype Pending = Pending(req: Request, fin: FidoFinalize, id: seq<byte>, accepted: Accepted)

  /** The read and the judgement: what is pending when the assertion is accepted. */
  function Judged(cfg: Config, s: State, req: Request, now: int): Option<Pending>
    requires ValidConfig(cfg)
  {
    var accepted, tfa := AcceptedBy(cfg, s, req, now), cfg.codec.tfa(req.data);
    var fin := if tfa.Some? then cfg.codec.fidoFinalize(tfa.value.pData) else None;
    var decoded := if fin.Some? then DecodeAssertion(cfg, fin.value) else None;
    if accepted.Some? && decoded.Some?
    then Some(Pending(req, fin.value, decoded.value.credentialId, accepted.value))
    else None
  }

  /** The write of the count and the rest of the handler. */
  function Finish(cfg: Config, s: State, p: Pending, now: int, draw: Draw): (State, Reply)
    requires ValidConfig(cfg)
  {
    FidoOpenSession(cfg, s, p.req, p.fin, p.id, p.accepted.count, now, draw)
  }

  /** The position found has the asserted id, and the count passed the rule there. */
  ghost predicate Placed(s: State, p: Pending) {
    var creds := CredentialsOf(s, StoreKeyOf(p.req));
    p.accepted.position == Stores.FirstMatch(creds, p.id) < |creds|
  }

  lemma JudgedMeans(cfg: Config, s: State, req: Request, now: int)
    requires ValidConfig(cfg)
    ensures Judged(cfg, s, req, now).Some? <==> AcceptedBy(cfg, s, req, now).Some?
    ensures var judged := Judged(cfg, s, req, now);
            judged.Some? ==>
              && judged.value.req == req && Some(judged.value.accepted) == AcceptedBy(cfg, s, req, now)
              && Placed(s, judged.value)
              && var a := judged.value.accepted;
                 WebAuthn.CountAccepted(a.count, CredentialsOf(s, StoreKeyOf(req))[a.position].signCount)
  {
    hide BoundToken, EcPoint.Unmarshal, DecodeAssertion, WebAuthn.UserVerified, WebAuthn.ClientDataOk,
         WebAuthn.SignedHash, WebAuthn.CountAccepted, StoreKeyOf, Stores.FirstMatch, Stores.At;
  }

  /** Both steps without anything between them are the whole request. */
  lemma SplitIsProcess(cfg: Config, s: State, req: Request, now: int, draw: Draw)
    requires ValidConfig(cfg) && Judged(cfg, s, req, now).Some?
    ensures Process(cfg, s, req, now, draw) == Finish(cfg, s, Judged(cfg, s, req, now).value, now, draw)
  {
    hide BoundToken, EcPoint.Unmarshal, DecodeAssertion, WebAuthn.JudgeAssertion, StoreKeyOf, Stores.FirstMatch,
         Stores.At, FidoOpenSession, Attempts.Failed, HandleOpaque;
  }

  // ---------- interleavings ----------

  /** Begin starts a request: a finalize that accepts its assertion stops before its
      write, and any other request runs to its end. Write resumes a stopped finalize. */
  datatype Event =
    | Begin(thread: nat, req: Request, now: int, draw: Draw)
    | Write(thread: nat, now: int, draw: Draw)
    | Cleanup(now: int)

  datatype Race = Race(cfg: Config, store: Stores.Keyed<string>, events: seq<Event>)

  datatype RaceState = RaceState(state: State, pending: map<nat, Pending>)

  function Next(cfg: Config, s: RaceState, e: Event): RaceState
    requires ValidConfig(cfg)
  {
    match e
    case Begin(thread, req, now, draw) =>
      if thread in s.pending then s
      else
        (match Judged(cfg, s.state, req, now)
         case Some(p) => s.(pending := s.pending[thread := p])
         case None => s.(state := Process(cfg, s.state, req, now, draw).0))
    case Write(thread, now, draw) =>
      if thread !in s.pending then s
      else RaceState(Finish(cfg, s.state, s.pending[thread], now, draw).0, s.pending - {thread})
    case Cleanup(now) => s.(state := s.state.(sessions := Sessions.Unexpired(s.state.sessions, now)))
  }

  function Reached(r: Race, n: nat): RaceState
    requires ValidConfig(r.cfg) && n <= |r.events|
  {
    if n == 0 then RaceState(State(map[], map[], r.store, map[]), map[])
    else Next(r.cfg, Reached(r, n - 1), r.events[n - 1])
  }

  function CredsAt(r: Race, n: nat, key: string): seq<Stores.Credential>
    requires ValidConfig(r.cfg) && n <= |r.events|
  {
    CredentialsOf(Reached(r, n).state, key)
  }

  /** Event n writes p. */
  ghost predicate WritesAt(r: Race, n: nat, p: Pending)
    requires ValidConfig(r.cfg)
  {
    && n < |r.events| && r.events[n].Write?
    && r.events[n].thread in Reached(r, n).pending
    && p == Reached(r, n).pending[r.events[n].thread]
  }

  /** Event i reads for the accepted finalize p, which stays pending until event n. */
  ghost predicate OpenSince(r: Race, i: nat, n: nat, thread: nat, p: Pending)
    requires ValidConfig(r.cfg)
  {
    && i < n <= |r.events| && r.events[i].Begin? && r.events[i].thread == thread
    && Judged(r.cfg, Reached(r, i).state, r.events[i].req, r.events[i].now) == Some(p)
    && forall k | i < k <= n :: thread in Reached(r, k).pending && Reached(r, k).pending[thread] == p
  }

  /** The window of an accepted finalize: read at event i, written at event n. */
  ghost predicate Window(r: Race, i: nat, n: nat, p: Pending)
    requires ValidConfig(r.cfg)
  {
    WritesAt(r, n, p) && OpenSince(r, i, n, r.events[n].thread, p)
  }

  /** Whatever is pending was read by one earlier event. */
  lemma {:induction false} EveryPendingWasRead(r: Race, n: nat, thread: nat)
    requires ValidConfig(r.cfg) && n <= |r.events| && thread in Reached(r, n).pending
    ensures exists i: nat :: OpenSince(r, i, n, thread, Reached(r, n).pending[thread])
  {
    hide Judged, Process, Finish;
    var p := Reached(r, n).pending[thread];
    if thread in Reached(r, n - 1).pending {
      EveryPendingWasRead(r, n - 1, thread);
      var i: nat :| OpenSince(r, i, n - 1, thread, Reached(r, n - 1).pending[thread]);
      assert OpenSince(r, i, n, thread, p);
    } else {
      assert OpenSince(r, n - 1, n, thread, p);
    }
  }

  // ---------- what a step does to the credentials ----------

  lemma FinishStores(cfg: Config, s: State, p: Pending, now: int, draw: Draw, key: string)
    requires ValidConfig(cfg) && Placed(s, p)
    ensures var before, after := CredentialsOf(s, key), CredentialsOf(Finish(cfg, s, p, now, draw).0, key);
            var a := p.accepted;
            after == if StoreKeyOf(p.req) == key then before[a.position := before[a.position].(signCount := a.count)]
                     else before
  {
    hide EcPoint.Unmarshal, StoreKeyOf, Stores.FirstMatch;
  }

  /** One step: a write sets the count of its own credential, and every other step only
      appends. */
  ghost predicate RaceStep(s: RaceState, t: RaceState, e: Event, key: string) {
    var before, after := CredentialsOf(s.state, key), CredentialsOf(t.state, key);
    && Extends(before, after)
    && if e.Write? && e.thread in s.pending && StoreKeyOf(s.pending[e.thread].req) == key
       then
         var a := s.pending[e.thread].accepted;
         a.position < |before| && after == before[a.position := before[a.position].(signCount := a.count)]
       else before <= after
  }

  lemma NextCounts(cfg: Config, s: RaceState, e: Event, key: string)
    requires ValidConfig(cfg)
    requires forall t | t in s.pending :: Placed(s.state, s.pending[t])
    ensures RaceStep(s, Next(cfg, s, e), e, key)
  {
    hide Judged, Process, Finish, StoreKeyOf, AcceptedBy, Placed, Stores.At;
    if e.Write? && e.thread in s.pending {
      FinishStores(cfg, s.state, s.pending[e.thread], e.now, e.draw, key);
      assert s.pending[e.thread].accepted.position < |CredentialsOf(s.state, StoreKeyOf(s.pending[e.thread].req))| by {
        PlacedIn(s.state, s.pending[e.thread]);
      }
    } else if e.Begin? {
      JudgedMeans(cfg, s.state, e.req, e.now);
      ProcessCounts(cfg, s.state, e.req, e.now, e.draw, key);
    }
  }

  lemma PlacedIn(s: State, p: Pending)
    requires Placed(s, p)
    ensures p.accepted.position < |CredentialsOf(s, StoreKeyOf(p.req))|
  {
  }

  lemma PlacedStays(s: State, t: State, p: Pending)
    requires Placed(s, p) && Extends(CredentialsOf(s, StoreKeyOf(p.req)), CredentialsOf(t, StoreKeyOf(p.req)))
    ensures Placed(t, p)
  {
    hide CredentialsOf, StoreKeyOf;
    MatchStays(CredentialsOf(s, StoreKeyOf(p.req)), CredentialsOf(t, StoreKeyOf(p.req)), p.id);
  }

  lemma {:induction false} PendingIsPlaced(r: Race, n: nat)
    requires ValidConfig(r.cfg) && n <= |r.events|
    ensures forall t | t in Reached(r, n).pending :: Placed(Reached(r, n).state, Reached(r, n).pending[t])
  {
    hide Judged, Process, Finish, StoreKeyOf, Placed, Extends, CredentialsOf;
    if n > 0 {
      PendingIsPlaced(r, n - 1);
      var s, e := Reached(r, n - 1), r.events[n - 1];
      forall t | t in Reached(r, n).pending ensures Placed(Reached(r, n).state, Reached(r, n).pending[t]) {
        if t in s.pending {
          NextCounts(r.cfg, s, e, StoreKeyOf(s.pending[t].req));
          PlacedStays(s.state, Reached(r, n).state, s.pending[t]);
        } else {
          JudgedMeans(r.cfg, s.state, e.req, e.now);
        }
      }
    }
  }

  lemma StepAt(r: Race, n: nat, key: string)
    requires ValidConfig(r.cfg) && n < |r.events|
    ensures RaceStep(Reached(r, n), Reached(r, n + 1), r.events[n], key)
  {
    hide Next, Placed, RaceStep;
    PendingIsPlaced(r, n);
    NextCounts(r.cfg, Reached(r, n), r.events[n], key);
  }

  // ---------- the laws without overlap ----------

  predicate Of(p: Pending, key: string, position: nat) {
    StoreKeyOf(p.req) == key && p.accepted.position == position
  }

  /** Accepted finalizes of this credential take turns: each reads after every earlier
      write. */
  ghost predicate TakeTurns(r: Race, key: string, position: nat)
    requires ValidConfig(r.cfg)
  {
    forall i: nat, n: nat, p, j: nat, m: nat, q |
      Window(r, i, n, p) && Window(r, j, m, q) && Of(p, key, position) && Of(q, key, position) && n < m :: n < j
  }

  /** An accepted count passed the rule against the count stored at its read. */
  lemma ReadPassed(r: Race, i: nat, n: nat, p: Pending)
    requires ValidConfig(r.cfg) && Window(r, i, n, p)
    ensures var creds, a := CredsAt(r, i, StoreKeyOf(p.req)), p.accepted;
            a.position < |creds| && WebAuthn.CountAccepted(a.count, creds[a.position].signCount)
  {
    hide Judged, Reached, StoreKeyOf, CredentialsOf, WebAuthn.CountAccepted, Stores.FirstMatch;
    JudgedMeans(r.cfg, Reached(r, i).state, r.events[i].req, r.events[i].now);
  }

  /** Between two events without a write of this credential, its count stays. */
  lemma {:induction false} QuietKeeps(r: Race, i: nat, n: nat, key: string, position: nat)
    requires ValidConfig(r.cfg) && i <= n <= |r.events| && position < |CredsAt(r, i, key)|
    requires forall m: nat, q | i <= m < n && WritesAt(r, m, q) :: !Of(q, key, position)
    ensures position < |CredsAt(r, n, key)| && CredsAt(r, n, key)[position] == CredsAt(r, i, key)[position]
  {
    hide Reached, CredentialsOf, StoreKeyOf;
    if i < n {
      QuietKeeps(r, i, n - 1, key, position);
      StepAt(r, n - 1, key);
      var s, e := Reached(r, n - 1), r.events[n - 1];
      if e.Write? && e.thread in s.pending {
        assert WritesAt(r, n - 1, s.pending[e.thread]);
      }
    }
  }

  lemma WrittenBefore(r: Race, m: nat, q: Pending, i: nat, n: nat, p: Pending, key: string, position: nat)
    requires ValidConfig(r.cfg) && TakeTurns(r, key, position)
    requires WritesAt(r, m, q) && Window(r, i, n, p) && m < n
    requires Of(p, key, position) && Of(q, key, position)
    ensures m < i
  {
    hide Reached, Judged, StoreKeyOf;
    EveryPendingWasRead(r, m, r.events[m].thread);
    var j: nat :| OpenSince(r, j, m, r.events[m].thread, q);
    assert Window(r, j, m, q);
  }

  /** When finalizes take turns, a write never lowers the count. */
  lemma WriteRaises(r: Race, n: nat, p: Pending, key: string, position: nat)
    requires ValidConfig(r.cfg) && TakeTurns(r, key, position) && WritesAt(r, n, p) && Of(p, key, position)
    ensures position < |CredsAt(r, n, key)|
    ensures WebAuthn.CountAccepted(p.accepted.count, CredsAt(r, n, key)[position].signCount)
  {
    hide Reached, Judged, WebAuthn.CountAccepted, StoreKeyOf, CredentialsOf;
    EveryPendingWasRead(r, n, r.events[n].thread);
    var i: nat :| OpenSince(r, i, n, r.events[n].thread, p);
    assert Window(r, i, n, p);
    ReadPassed(r, i, n, p);
    forall m: nat, q | i <= m < n && WritesAt(r, m, q) ensures !Of(q, key, position) {
      if Of(q, key, position) {
        WrittenBefore(r, m, q, i, n, p, key, position);
        assert false;
      }
    }
    QuietKeeps(r, i, n, key, position);
  }

  /** Main result: in every interleaving in which the accepted finalizes of a credential
      take turns, its stored count never decreases. */
  lemma {:induction false} CountsNeverDecrease(r: Race, i: nat, n: nat, key: string, position: nat)
    requires ValidConfig(r.cfg) && i <= n <= |r.events| && position < |CredsAt(r, i, key)|
    requires TakeTurns(r, key, position)
    ensures position < |CredsAt(r, n, key)|
    ensures var then_, later := CredsAt(r, i, key)[position], CredsAt(r, n, key)[position];
            later == then_.(signCount := later.signCount) && later.signCount >= then_.signCount
  {
    hide Reached, CredentialsOf, StoreKeyOf, TakeTurns;
    if i < n {
      CountsNeverDecrease(r, i, n - 1, key, position);
      StepAt(r, n - 1, key);
      if p :| WritesAt(r, n - 1, p) && Of(p, key, position) {
        WriteRaises(r, n - 1, p, key, position);
      } else {
        QuietKeeps(r, n - 1, n, key, position);
      }
    }
  }

  /** Main result: and no non-zero count is accepted twice for it. */
  lemma NoCountTwice(r: Race, n: nat, m: nat, p: Pending, q: Pending, key: string, position: nat)
    requires ValidConfig(r.cfg) && TakeTurns(r, key, position)
    requires WritesAt(r, n, p) && WritesAt(r, m, q) && n < m
    requires Of(p, key, position) && Of(q, key, position) && p.accepted.count != 0
    ensures q.accepted.count > p.accepted.count
  {
    hide Reached, CredentialsOf, StoreKeyOf, TakeTurns;
    WriteRaises(r, n, p, key, position);
    StepAt(r, n, key);
    CountsNeverDecrease(r, n + 1, m, key, position);
    WriteRaises(r, m, q, key, position);
  }

  // ---------- what an overlap does ----------

  /** Judging again after another finalize has set the count of the same credential. */
  lemma JudgedAfter(cfg: Config, s: State, t: State, req: Request, now: int, count: nat)
    requires ValidConfig(cfg) && Judged(cfg, s, req, now).Some? && t.sealed == s.sealed
    requires var q := Judged(cfg, s, req, now).value;
             var before := CredentialsOf(s, StoreKeyOf(req));
             && q.accepted.position < |before|
             && CredentialsOf(t, StoreKeyOf(req))
                == before[q.accepted.position := before[q.accepted.position].(signCount := count)]
    ensures var q := Judged(cfg, s, req, now).value;
            Judged(cfg, t, req, now) == if WebAuthn.CountAccepted(q.accepted.count, count) then Some(q) else None
  {
    hide EcPoint.Unmarshal, DecodeAssertion, WebAuthn.UserVerified, WebAuthn.ClientDataOk,
         WebAuthn.SignedHash, WebAuthn.CountAccepted, StoreKeyOf, Stores.FirstMatch, Stores.At;
    JudgedMeans(cfg, s, req, now);
    var q := Judged(cfg, s, req, now).value;
    MatchStays(CredentialsOf(s, StoreKeyOf(req)), CredentialsOf(t, StoreKeyOf(req)), q.id);
  }

  lemma FinishKeepsSealed(cfg: Config, s: State, p: Pending, now: int, draw: Draw)
    requires ValidConfig(cfg)
    ensures Finish(cfg, s, p, now, draw).0.sealed == s.sealed
  {
    hide EcPoint.Unmarshal, StoreKeyOf, Stores.Step;
  }

  function Then(r: Race, more: seq<Event>): (t: Race)
    ensures t.cfg == r.cfg && |t.events| == |r.events| + |more|
  {
    r.(events := r.events + more)
  }

  lemma {:induction false} PrefixReached(r: Race, more: seq<Event>, n: nat)
    requires ValidConfig(r.cfg) && n <= |r.events|
    ensures Reached(Then(r, more), n) == Reached(r, n)
  {
    hide Next;
    if n > 0 {
      PrefixReached(r, more, n - 1);
    }
  }

  lemma ThenReached(r: Race, more: seq<Event>, k: nat)
    requires ValidConfig(r.cfg) && k < |more|
    ensures Then(r, more).events[|r.events| + k] == more[k]
    ensures Reached(Then(r, more), |r.events| + k + 1) == Next(r.cfg, Reached(Then(r, more), |r.events| + k), more[k])
  {
    hide Next;
  }

  lemma BeginPends(cfg: Config, s: RaceState, e: Event, p: Pending)
    requires ValidConfig(cfg) && e.Begin? && e.thread !in s.pending && Judged(cfg, s.state, e.req, e.now) == Some(p)
    ensures Next(cfg, s, e) == s.(pending := s.pending[e.thread := p])
    ensures Placed(s.state, p) && p.req == e.req
  {
    hide Judged, Placed;
    JudgedMeans(cfg, s.state, e.req, e.now);
  }

  lemma BeginOutcome(cfg: Config, s: RaceState, e: Event)
    requires ValidConfig(cfg) && e.Begin? && e.thread !in s.pending
    ensures e.thread in Next(cfg, s, e).pending <==> Judged(cfg, s.state, e.req, e.now).Some?
  {
    hide Judged, Process;
  }

  lemma WritePends(cfg: Config, s: RaceState, e: Event)
    requires ValidConfig(cfg) && e.Write? && e.thread in s.pending
    ensures Next(cfg, s, e).pending == s.pending - {e.thread}
    ensures Next(cfg, s, e).state == Finish(cfg, s.state, s.pending[e.thread], e.now, e.draw).0
  {
    hide Finish;
  }

  lemma JudgedAfterWrite(cfg: Config, s: State, p: Pending, q: Pending, req: Request, now: int, w: Event)
    requires ValidConfig(cfg) && w.Write? && Placed(s, p) && Judged(cfg, s, req, now) == Some(q)
    requires StoreKeyOf(p.req) == StoreKeyOf(req) && p.accepted.position == q.accepted.position
    ensures var t := Finish(cfg, s, p, w.now, w.draw).0;
            Judged(cfg, t, req, now)
            == if WebAuthn.CountAccepted(q.accepted.count, p.accepted.count) then Some(q) else None
  {
    hide Judged, Finish, CredentialsOf, StoreKeyOf, Stores.FirstMatch, WebAuthn.CountAccepted;
    JudgedMeans(cfg, s, req, now);
    FinishStores(cfg, s, p, w.now, w.draw, StoreKeyOf(req));
    FinishKeepsSealed(cfg, s, p, w.now, w.draw);
    JudgedAfter(cfg, s, Finish(cfg, s, p, w.now, w.draw).0, req, now, p.accepted.count);
  }

  /** The stored count of the credential of p after n events. */
  ghost predicate CountIs(r: Race, n: nat, p: Pending, count: nat)
    requires ValidConfig(r.cfg)
  {
    && n <= |r.events| && p.accepted.position < |CredsAt(r, n, StoreKeyOf(p.req))|
    && CredsAt(r, n, StoreKeyOf(p.req))[p.accepted.position].signCount == count
  }

  /** Two threads are idle after r, and a finalize of each would be accepted for the same
      credential. */
  ghost predicate Rivals(r: Race, one: Event, other: Event)
    requires ValidConfig(r.cfg)
  {
    var s := Reached(r, |r.events|);
    && one.Begin? && other.Begin? && one.thread != other.thread
    && one.thread !in s.pending && other.thread !in s.pending
    && StoreKeyOf(one.req) == StoreKeyOf(other.req)
    && var p, q := Judged(r.cfg, s.state, one.req, one.now), Judged(r.cfg, s.state, other.req, other.now);
       p.Some? && q.Some? && p.value.accepted.position == q.value.accepted.position
  }

  predicate IsWriteOf(e: Event, thread: nat) {
    e.Write? && e.thread == thread
  }

  lemma OthersKeepPending(cfg: Config, s: RaceState, e: Event, thread: nat)
    requires ValidConfig(cfg) && thread in s.pending && !IsWriteOf(e, thread)
    ensures thread in Next(cfg, s, e).pending && Next(cfg, s, e).pending[thread] == s.pending[thread]
  {
    hide Judged, Process, Finish;
  }

  /** Whatever other requests do, an accepted finalize stays pending until its write. */
  lemma {:induction false} StaysOpen(r: Race, more: seq<Event>, i: nat, thread: nat, p: Pending, k: nat)
    requires ValidConfig(r.cfg) && OpenSince(r, i, |r.events|, thread, p) && k <= |more|
    requires forall l | 0 <= l < k :: !IsWriteOf(more[l], thread)
    ensures OpenSince(Then(r, more), i, |r.events| + k, thread, p)
  {
    hide Judged, Reached, Next;
    var race, n := Then(r, more), |r.events|;
    if k == 0 {
      forall l: nat | l <= n { PrefixReached(r, more, l); }
    } else {
      StaysOpen(r, more, i, thread, p, k - 1);
      ThenReached(r, more, k - 1);
      OthersKeepPending(r.cfg, Reached(race, n + k - 1), more[k - 1], thread);
    }
  }

  lemma ThenThen(r: Race, one: Event, more: seq<Event>)
    ensures Then(Then(r, [one]), more) == Then(r, [one] + more)
  {
    assert r.events + [one] + more == r.events + ([one] + more);
  }

  lemma OpenFacts(r: Race, i: nat, n: nat, thread: nat, p: Pending)
    requires ValidConfig(r.cfg) && OpenSince(r, i, n, thread, p)
    ensures i < n <= |r.events| && thread in Reached(r, n).pending
  {
    hide Judged, Reached;
  }

  /** The window that a begin on an idle thread opens. */
  lemma BeginOpens(r: Race, e: Event, q: Pending)
    requires ValidConfig(r.cfg) && e.Begin? && e.thread !in Reached(r, |r.events|).pending
    requires Judged(r.cfg, Reached(r, |r.events|).state, e.req, e.now) == Some(q)
    ensures OpenSince(Then(r, [e]), |r.events|, |r.events| + 1, e.thread, q)
  {
    hide Judged, Reached, Next;
    PrefixReached(r, [e], |r.events|);
    ThenReached(r, [e], 0);
    BeginPends(r.cfg, Reached(r, |r.events|), e, q);
  }

  /** A write closes its window and stores its count. */
  lemma WriteCloses(r: Race, i: nat, n: nat, p: Pending)
    requires ValidConfig(r.cfg) && n < |r.events| && r.events[n].Write? && OpenSince(r, i, n, r.events[n].thread, p)
    ensures Window(r, i, n, p) && CountIs(r, n + 1, p, p.accepted.count)
  {
    hide Reached, Judged, StoreKeyOf, CredentialsOf, Extends;
    StepAt(r, n, StoreKeyOf(p.req));
  }

  lemma NotInTurn(
      r: Race, i: nat, n: nat, p: Pending, j: nat, m: nat, q: Pending, key: string, position: nat)
    requires ValidConfig(r.cfg) && Window(r, i, n, p) && Window(r, j, m, q) && j <= n < m
    requires Of(p, key, position) && Of(q, key, position)
    ensures !TakeTurns(r, key, position)
  {
    hide Window, Of;
  }

  /** Main result: while an accepted finalize p waits for its write, another one, q, reads
      and is accepted. Whatever runs in between and whichever writes first, both windows
      close with a write, each of its own count, whatever the counts are; if both are for
      one credential they have not taken turns. */
  lemma OverlapAcceptsBoth(
      r: Race, i: nat, thread: nat, p: Pending, other: Event, q: Pending, more: seq<Event>, a: nat, b: nat)
    requires ValidConfig(r.cfg) && OpenSince(r, i, |r.events|, thread, p)
    requires other.Begin? && other.thread !in Reached(r, |r.events|).pending
    requires Judged(r.cfg, Reached(r, |r.events|).state, other.req, other.now) == Some(q)
    requires a < |more| && IsWriteOf(more[a], thread) && forall l | 0 <= l < a :: !IsWriteOf(more[l], thread)
    requires b < |more| && IsWriteOf(more[b], other.thread)
    requires forall l | 0 <= l < b :: !IsWriteOf(more[l], other.thread)
    ensures var race, n := Then(r, [other] + more), |r.events|;
            && Window(race, i, n + 1 + a, p) && CountIs(race, n + 2 + a, p, p.accepted.count)
            && Window(race, n, n + 1 + b, q) && CountIs(race, n + 2 + b, q, q.accepted.count)
            && (Of(q, StoreKeyOf(p.req), p.accepted.position) ==>
                  !TakeTurns(race, StoreKeyOf(p.req), p.accepted.position))
  {
    hide Reached, Judged, StoreKeyOf, OpenSince, CountIs, WritesAt, Next;
    var s, race, n := Then(r, [other]), Then(r, [other] + more), |r.events|;
    ThenThen(r, other, more);
    OpenFacts(r, i, n, thread, p);
    StaysOpen(r, [other], i, thread, p, 1);
    BeginOpens(r, other, q);
    StaysOpen(s, more, i, thread, p, a);
    StaysOpen(s, more, n, other.thread, q, b);
    assert race.events[n + 1 + a] == more[a] && race.events[n + 1 + b] == more[b];
    WriteCloses(race, i, n + 1 + a, p);
    WriteCloses(race, n, n + 1 + b, q);
    hide Window, Then;
    if Of(q, StoreKeyOf(p.req), p.accepted.position) {
      if a < b {
        NotInTurn(race, i, n + 1 + a, p, n, n + 1 + b, q, StoreKeyOf(p.req), p.accepted.position);
      } else {
        NotInTurn(race, n, n + 1 + b, q, i, n + 1 + a, p, StoreKeyOf(p.req), p.accepted.position);
      }
    }
  }

  /** Main result: when the first writes before the other reads, the other is accepted
      exactly when its count passes the rule against the first one's. */
  lemma TurnsJudgeAgain(r: Race, one: Event, w: Event, other: Event, p: Pending, q: Pending)
    requires ValidConfig(r.cfg) && Rivals(r, one, other)
    requires Judged(r.cfg, Reached(r, |r.events|).state, one.req, one.now) == Some(p)
    requires Judged(r.cfg, Reached(r, |r.events|).state, other.req, other.now) == Some(q)
    requires w.Write? && w.thread == one.thread
    ensures var race, n := Then(r, [one, w, other]), |r.events|;
            other.thread in Reached(race, n + 3).pending
            <==> WebAuthn.CountAccepted(q.accepted.count, p.accepted.count)
  {
    hide Reached, Next, Judged, StoreKeyOf, Placed, Finish, WebAuthn.CountAccepted;
    var more, n, s := [one, w, other], |r.events|, Reached(r, |r.events|);
    var race := Then(r, more);
    PrefixReached(r, more, n);
    ThenReached(r, more, 0);
    ThenReached(r, more, 1);
    ThenReached(r, more, 2);
    BeginPends(r.cfg, s, one, p);
    WritePends(r.cfg, Reached(race, n + 1), w);
    JudgedAfterWrite(r.cfg, s.state, p, q, other.req, other.now, w);
    BeginOutcome(r.cfg, Reached(race, n + 2), other);
  }
}
