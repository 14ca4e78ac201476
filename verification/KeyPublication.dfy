/** Key generation and lookup in the token's object store (internal/hsm/pkcs11.go), with
    every PKCS#11 call one step of an interleaving. A pair is generated under a random
    16-byte id; the public object is then renamed to the 32-character kid, and only
    after it the private one. */
module KeyPublication {
  import opened Bytes

  /** A key object. A pair is named by the handle of its private object. */
  datatype Object = Public(id: seq<byte>, pair: nat) | Private(id: seq<byte>)

  /** Where a `GenerateECKey` call is. */
  datatype Thread =
    | Generated(pub: nat, pair: nat, temp: seq<byte>)
    | PublicRenamed(pair: nat, temp: seq<byte>)
    | PrivateFound(pair: nat, found: nat)

  /** The objects by handle, the calls in progress, and the temporary ids drawn. */
  datatype State = State(objects: map<nat, Object>, threads: map<nat, Thread>, drawn: set<seq<byte>>)

  datatype Event =
    | Generate(thread: nat, pub: nat, priv: nat, temp: seq<byte>)
    | RenamePublic(thread: nat)
    | FindPrivate(thread: nat, found: nat)
    | RenamePrivate(thread: nat)
    | Abort(thread: nat)

  /** The kid of a pair: the hex form of half the SHA-256 of its public key. */
  type Kid = nat -> seq<byte>

  const TEMP_LENGTH := 16
  const KID_LENGTH := 32

  /** `findPrivateKeyByID` may return any private object with the id. */
  predicate IsMatch(s: State, h: nat, id: seq<byte>) {
    h in s.objects && s.objects[h].Private? && s.objects[h].id == id
  }

  /** New handles are unused and temporary ids are fresh. */
  predicate Enabled(s: State, e: Event) {
    match e
    case Generate(t, pub, priv, temp) =>
      t !in s.threads && pub != priv && pub !in s.objects && priv !in s.objects
      && |temp| == TEMP_LENGTH && temp !in s.drawn
    case RenamePublic(t) => t in s.threads && s.threads[t].Generated? && s.threads[t].pub in s.objects
    case FindPrivate(t, found) =>
      t in s.threads && s.threads[t].PublicRenamed? && IsMatch(s, found, s.threads[t].temp)
    case RenamePrivate(t) => t in s.threads && s.threads[t].PrivateFound? && s.threads[t].found in s.objects
    case Abort(t) => t in s.threads
  }

  function Next(kid: Kid, s: State, e: Event): State
    requires Enabled(s, e)
  {
    match e
    case Generate(t, pub, priv, temp) =>
      State(s.objects[pub := Public(temp, priv)][priv := Private(temp)],
            s.threads[t := Generated(pub, priv, temp)], s.drawn + {temp})
    case RenamePublic(t) =>
      var g := s.threads[t];
      s.(objects := s.objects[g.pub := s.objects[g.pub].(id := kid(g.pair))],
         threads := s.threads[t := PublicRenamed(g.pair, g.temp)])
    case FindPrivate(t, found) =>
      s.(threads := s.threads[t := PrivateFound(s.threads[t].pair, found)])
    case RenamePrivate(t) =>
      var f := s.threads[t];
      s.(objects := s.objects[f.found := s.objects[f.found].(id := kid(f.pair))], threads := s.threads - {t})
    case Abort(t) => s.(threads := s.threads - {t})
  }

  /** The pair's public object carries its kid. */
  ghost predicate Published(kid: Kid, s: State, pair: nat) {
    exists pub :: pub in s.objects && s.objects[pub] == Public(kid(pair), pair)
  }

  /** Private objects carry a temporary id of their own, or the kid of their own pair,
      whose public object then carries it too. */
  ghost predicate Objects(kid: Kid, s: State) {
    && (forall h | h in s.objects && s.objects[h].Private? ::
          if |s.objects[h].id| == TEMP_LENGTH then s.objects[h].id in s.drawn
          else s.objects[h].id == kid(h) && Published(kid, s, h))
    && (forall h, k | h in s.objects && k in s.objects && s.objects[h].Private? && s.objects[k].Private?
          && s.objects[h].id == s.objects[k].id && |s.objects[h].id| == TEMP_LENGTH :: h == k)
  }

  ghost predicate OwnPair(s: State, pair: nat, temp: seq<byte>) {
    |temp| == TEMP_LENGTH && pair in s.objects && s.objects[pair] == Private(temp)
  }

  /** A call in progress holds its own pair, not yet renamed, and finds only that one. */
  ghost predicate Progress(kid: Kid, s: State, t: Thread) {
    match t
    case Generated(pub, pair, temp) =>
      OwnPair(s, pair, temp) && pub in s.objects && s.objects[pub] == Public(temp, pair)
    case PublicRenamed(pair, temp) => OwnPair(s, pair, temp) && Published(kid, s, pair)
    case PrivateFound(pair, found) =>
      found == pair && pair in s.objects && s.objects[pair].Private? && |s.objects[pair].id| == TEMP_LENGTH
      && Published(kid, s, pair)
  }

  ghost predicate Threads(kid: Kid, s: State) {
    && (forall t | t in s.threads :: Progress(kid, s, s.threads[t]))
    && (forall t, u | t in s.threads && u in s.threads && t != u :: s.threads[t].pair != s.threads[u].pair)
  }

  ghost predicate Invariant(kid: Kid, s: State) {
    Objects(kid, s) && Threads(kid, s)
  }

  lemma PublishedStays(kid: Kid, s: State, e: Event, pair: nat)
    requires Enabled(s, e) && Invariant(kid, s) && Published(kid, s, pair)
    requires forall p :: |kid(p)| == KID_LENGTH
    ensures Published(kid, Next(kid, s, e), pair)
  {
    var pub :| pub in s.objects && s.objects[pub] == Public(kid(pair), pair);
    assert pub in Next(kid, s, e).objects && Next(kid, s, e).objects[pub] == Public(kid(pair), pair);
  }

  lemma JustPublished(kid: Kid, s: State, e: Event)
    requires Enabled(s, e) && Invariant(kid, s) && e.RenamePublic?
    ensures Published(kid, Next(kid, s, e), s.threads[e.thread].pair)
  {
    var g := s.threads[e.thread];
    assert Next(kid, s, e).objects[g.pub] == Public(kid(g.pair), g.pair);
  }

  lemma NextObjects(kid: Kid, s: State, e: Event)
    requires Enabled(s, e) && Invariant(kid, s)
    requires forall p :: |kid(p)| == KID_LENGTH
    ensures Objects(kid, Next(kid, s, e))
  {
    forall pair | Published(kid, s, pair) ensures Published(kid, Next(kid, s, e), pair) {
      PublishedStays(kid, s, e, pair);
    }
    assert e.thread in s.threads ==> Progress(kid, s, s.threads[e.thread]);
    hide Published, Threads;
  }

  /** A call's own step. */
  lemma OwnProgress(kid: Kid, s: State, e: Event)
    requires Enabled(s, e) && Invariant(kid, s)
    requires e.thread in Next(kid, s, e).threads
    ensures Progress(kid, Next(kid, s, e), Next(kid, s, e).threads[e.thread])
  {
    var t := Next(kid, s, e);
    if e.thread in s.threads {
      assert Progress(kid, s, s.threads[e.thread]);
    }
    match e
    case RenamePublic(_) => JustPublished(kid, s, e);
    case FindPrivate(_, found) =>
      assert found == s.threads[e.thread].pair;
      assert t.objects == s.objects;
    case _ =>
  }

  /** Another call's step leaves a call in progress as it was. */
  lemma OtherProgress(kid: Kid, s: State, e: Event, t: nat)
    requires Enabled(s, e) && t in s.threads && t != e.thread
    requires Progress(kid, s, s.threads[t])
    requires e.thread in s.threads ==>
               Progress(kid, s, s.threads[e.thread]) && s.threads[e.thread].pair != s.threads[t].pair
    requires Published(kid, s, s.threads[t].pair) ==> Published(kid, Next(kid, s, e), s.threads[t].pair)
    ensures t in Next(kid, s, e).threads && Progress(kid, Next(kid, s, e), s.threads[t])
    ensures Next(kid, s, e).threads[t] == s.threads[t]
  {
    hide Published;
  }

  lemma NextProgress(kid: Kid, s: State, e: Event, t: nat)
    requires Enabled(s, e) && Invariant(kid, s)
    requires forall p :: |kid(p)| == KID_LENGTH
    requires t in Next(kid, s, e).threads
    ensures Progress(kid, Next(kid, s, e), Next(kid, s, e).threads[t])
  {
    if t == e.thread {
      OwnProgress(kid, s, e);
    } else {
      assert t in s.threads;
      if Published(kid, s, s.threads[t].pair) {
        PublishedStays(kid, s, e, s.threads[t].pair);
      }
      hide Published, Progress, Objects;
      OtherProgress(kid, s, e, t);
    }
  }

  lemma NextInvariant(kid: Kid, s: State, e: Event)
    requires Enabled(s, e) && Invariant(kid, s)
    requires forall p :: |kid(p)| == KID_LENGTH
    ensures Invariant(kid, Next(kid, s, e))
  {
    NextObjects(kid, s, e);
    forall t | t in Next(kid, s, e).threads ensures Progress(kid, Next(kid, s, e), Next(kid, s, e).threads[t]) {
      NextProgress(kid, s, e, t);
    }
    assert forall t | t in s.threads :: Progress(kid, s, s.threads[t]);
    DistinctPairs(kid, s, e);
    hide Next, Progress, Objects;
  }

  lemma DistinctPairs(kid: Kid, s: State, e: Event)
    requires Enabled(s, e) && Invariant(kid, s)
    ensures var t := Next(kid, s, e);
            forall a, b | a in t.threads && b in t.threads && a != b :: t.threads[a].pair != t.threads[b].pair
  {
    hide Objects, Published;
  }

  ghost predicate IsRun(kid: Kid, s: State, events: seq<Event>)
    decreases |events|
  {
    events == [] || (Enabled(s, events[0]) && IsRun(kid, Next(kid, s, events[0]), events[1..]))
  }

  function RunFrom(kid: Kid, s: State, events: seq<Event>): State
    requires IsRun(kid, s, events)
    decreases |events|
  {
    if events == [] then s else RunFrom(kid, Next(kid, s, events[0]), events[1..])
  }

  lemma {:induction false} EveryRun(kid: Kid, s: State, events: seq<Event>)
    requires Invariant(kid, s) && IsRun(kid, s, events)
    requires forall p :: |kid(p)| == KID_LENGTH
    ensures Invariant(kid, RunFrom(kid, s, events))
    decreases |events|
  {
    if events != [] {
      NextInvariant(kid, s, events[0]);
      EveryRun(kid, Next(kid, s, events[0]), events[1..]);
    }
  }

  const EMPTY_TOKEN := State(map[], map[], {})

  /** Main result: from an empty token, under every interleaving of key generations,
      aborted ones included, any private object that `Sign` or `ECDH` finds under any id is
      either the private half of the very pair whose public key has that kid, with its
      public object already carrying the kid, or one not renamed yet, found under the
      16-byte temporary id that was drawn for it and that no other private object has.
      Two generations may share a kid; the statement holds for both. */
  lemma FoundKeyIsPublished(kid: Kid, events: seq<Event>, id: seq<byte>, h: nat)
    requires IsRun(kid, EMPTY_TOKEN, events)
    requires forall p :: |kid(p)| == KID_LENGTH
    requires IsMatch(RunFrom(kid, EMPTY_TOKEN, events), h, id)
    ensures var s := RunFrom(kid, EMPTY_TOKEN, events);
            if |id| == KID_LENGTH then id == kid(h) && Published(kid, s, h)
            else |id| == TEMP_LENGTH && id in s.drawn && forall k | IsMatch(s, k, id) :: k == h
  {
    EveryRun(kid, EMPTY_TOKEN, events);
  }

  /** The pair can be found under its kid, and is published under it. */
  ghost predicate Usable(kid: Kid, s: State, pair: nat) {
    IsMatch(s, pair, kid(pair)) && Published(kid, s, pair)
  }

  lemma UsableStays(kid: Kid, s: State, e: Event, pair: nat)
    requires Enabled(s, e) && Invariant(kid, s) && Usable(kid, s, pair)
    requires forall p :: |kid(p)| == KID_LENGTH
    ensures Usable(kid, Next(kid, s, e), pair)
  {
    PublishedStays(kid, s, e, pair);
    if e.RenamePrivate? {
      assert Progress(kid, s, s.threads[e.thread]);
    }
    hide Published, Objects;
  }

  lemma {:induction false} UsableForever(kid: Kid, s: State, events: seq<Event>, pair: nat)
    requires Invariant(kid, s) && IsRun(kid, s, events) && Usable(kid, s, pair)
    requires forall p :: |kid(p)| == KID_LENGTH
    ensures Usable(kid, RunFrom(kid, s, events), pair)
    decreases |events|
  {
    hide Usable, Invariant, Enabled, Next;
    if events != [] {
      UsableStays(kid, s, events[0], pair);
      NextInvariant(kid, s, events[0]);
      UsableForever(kid, Next(kid, s, events[0]), events[1..], pair);
    }
  }

  /** Main result: from an empty token, once a generation has renamed the private object
      its pair is found under its kid, with its public object published, and stays so
      under every continuation. */
  lemma GeneratedStaysUsable(kid: Kid, before: seq<Event>, thread: nat, later: seq<Event>)
    requires IsRun(kid, EMPTY_TOKEN, before)
    requires var s := RunFrom(kid, EMPTY_TOKEN, before);
             && Enabled(s, RenamePrivate(thread))
             && IsRun(kid, Next(kid, s, RenamePrivate(thread)), later)
    requires forall p :: |kid(p)| == KID_LENGTH
    ensures var s := RunFrom(kid, EMPTY_TOKEN, before);
            var t := RunFrom(kid, Next(kid, s, RenamePrivate(thread)), later);
            var pair := s.threads[thread].pair;
            IsMatch(t, pair, kid(pair)) && Published(kid, t, pair)
  {
    var s, e := RunFrom(kid, EMPTY_TOKEN, before), RenamePrivate(thread);
    EveryRun(kid, EMPTY_TOKEN, before);
    assert Progress(kid, s, s.threads[thread]);
    PublishedStays(kid, s, e, s.threads[thread].pair);
    NextInvariant(kid, s, e);
    UsableForever(kid, Next(kid, s, e), later, s.threads[thread].pair);
  }
}
