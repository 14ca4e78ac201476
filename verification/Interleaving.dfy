/** The session store under concurrent requests: every critical section of
    internal/pake/session.go is one step, and handlers keep pointers to session objects
    between their steps (internal/service/dispatcher.go). */
module Interleaving {
  import opened Bytes
  import Sessions

  /** A session object on the heap. Only its `verified` is ever written. */
  type Object = Sessions.SessionData

  /** What a request holds between two steps. */
  datatype Thread =
    | Finalizing(ref: nat, ke3: seq<byte>)
    | Refused(id: string)
    | Matched(ref: nat, ke3: seq<byte>)
    | Serving(ref: nat, ctx: string, fetchedAt: int)

  /** The heap, the store's map, the requests in flight, and three history sets. */
  datatype State = State(
    heap: map<nat, Object>, store: map<string, nat>, threads: map<nat, Thread>,
    created: set<string>, failed: set<string>, expired: set<string>)

  datatype Event =
    | Create(ref: nat, obj: Object)
    | BeginFinalize(thread: nat, id: string, ke3: seq<byte>, now: int)
    | CheckKe3(thread: nat)
    | DeleteFailed(thread: nat)
    | MarkVerified(thread: nat)
    | BeginService(thread: nat, id: string, ctx: string, now: int)
    | EndService(thread: nat)
    | CleanExpired(now: int)

  type Finish = (seq<byte>, seq<byte>) -> bool

  predicate Live(s: State, id: string, now: int) {
    id in s.store && s.store[id] in s.heap && now <= s.heap[s.store[id]].expiresAt
  }

  function Start(s: State, thread: nat, t: Thread): State {
    s.(threads := s.threads[thread := t])
  }

  function Stop(s: State, thread: nat): State {
    s.(threads := s.threads - {thread})
  }

  function Expired(s: State, now: int): set<string> {
    set id | id in s.store && s.store[id] in s.heap && now > s.heap[s.store[id]].expiresAt
  }

  /** One step; a step that is not enabled changes nothing. Created ids are fresh. */
  function Next(finish: Finish, s: State, e: Event): State {
    match e
    case Create(ref, obj) =>
      if ref in s.heap || obj.id in s.created then s
      else s.(heap := s.heap[ref := obj], store := s.store[obj.id := ref], created := s.created + {obj.id})
    case BeginFinalize(t, id, ke3, now) =>
      if t in s.threads || !Live(s, id, now) then s else Start(s, t, Finalizing(s.store[id], ke3))
    case CheckKe3(t) =>
      if t !in s.threads || !s.threads[t].Finalizing? || s.threads[t].ref !in s.heap then s
      else
        var (ref, ke3) := (s.threads[t].ref, s.threads[t].ke3);
        Start(s, t, if finish(ke3, s.heap[ref].mac) then Matched(ref, ke3) else Refused(s.heap[ref].id))
    case DeleteFailed(t) =>
      if t !in s.threads || !s.threads[t].Refused? then s
      else
        var id := s.threads[t].id;
        Stop(s, t).(store := s.store - {id}, failed := s.failed + (if id in s.store then {id} else {}))
    case MarkVerified(t) =>
      if t !in s.threads || !s.threads[t].Matched? || s.threads[t].ref !in s.heap then s
      else
        var id := s.heap[s.threads[t].ref].id;
        if id !in s.store || s.store[id] !in s.heap then Stop(s, t)
        else Stop(s, t).(heap := s.heap[s.store[id] := s.heap[s.store[id]].(verified := true)])
    case BeginService(t, id, ctx, now) =>
      if t in s.threads || !Live(s, id, now) then s else Start(s, t, Serving(s.store[id], ctx, now))
    case EndService(t) =>
      if t !in s.threads || !s.threads[t].Serving? then s else Stop(s, t)
    case CleanExpired(now) =>
      s.(store := s.store - Expired(s, now), expired := s.expired + Expired(s, now))
  }

  function After(finish: Finish, events: seq<Event>, n: nat): State
    requires n <= |events|
  {
    if n == 0 then State(map[], map[], map[], {}, {}, {})
    else Next(finish, After(finish, events, n - 1), events[n - 1])
  }

  // ---------- steps are the store's operations ----------

  /** What the store holds: the contents of the objects its map points at. */
  function View(s: State): Sessions.View {
    map id | id in s.store && s.store[id] in s.heap :: s.heap[s.store[id]]
  }

  /** The operation of the sequential store that a step performs, if it performs one. */
  function OperationOf(s: State, e: Event): Option<Sessions.Timed> {
    match e
    case Create(ref, obj) =>
      if ref in s.heap || obj.id in s.created then None else Some(Sessions.Timed(Sessions.Create(obj), 0))
    case DeleteFailed(t) =>
      if t in s.threads && s.threads[t].Refused?
      then Some(Sessions.Timed(Sessions.Delete(s.threads[t].id), 0)) else None
    case MarkVerified(t) =>
      if t in s.threads && s.threads[t].Matched? && s.threads[t].ref in s.heap
      then Some(Sessions.Timed(Sessions.MarkVerified(s.heap[s.threads[t].ref].id), 0)) else None
    case CleanExpired(now) => Some(Sessions.Timed(Sessions.Clean, now))
    case _ => None
  }

  /** The pointers that requests fetch are those that `Get` returns. */
  lemma LiveIsGet(s: State, id: string, now: int)
    ensures Live(s, id, now) <==> Sessions.Live(View(s), id, now)
    ensures Live(s, id, now) ==> Sessions.Lookup(View(s), id, now) == Some(s.heap[s.store[id]])
  {
  }

  /** Writing through the pointer of a stored id changes only that id's contents. */
  lemma MarkView(s: State, id: string)
    requires Pointers(s) && id in s.store
    ensures var ref := s.store[id];
            View(s.(heap := s.heap[ref := s.heap[ref].(verified := true)])) == Sessions.Marked(View(s), id)
  {
    forall k | k in s.store && k != id ensures s.store[k] != s.store[id] {
      assert s.heap[s.store[k]].id == k;
    }
  }

  lemma CreateView(s: State, ref: nat, obj: Object)
    requires Pointers(s) && ref !in s.heap && obj.id !in s.created
    ensures View(s.(heap := s.heap[ref := obj], store := s.store[obj.id := ref])) == View(s)[obj.id := obj]
    ensures obj.id !in View(s)
  {
    assert forall id | id in s.store :: s.store[id] in s.heap && s.heap[s.store[id]].id in s.created;
  }

  lemma CleanView(s: State, now: int)
    requires Pointers(s)
    ensures View(s.(store := s.store - Expired(s, now))) == Sessions.Unexpired(View(s), now)
  {
  }

  lemma ViewOf(s: State, t: State)
    requires s.heap == t.heap && s.store == t.store
    ensures View(s) == View(t)
  {
  }

  /** Each step changes the stored contents exactly as one call of the session store, or
      not at all. */
  lemma StepIsStoreOperation(finish: Finish, s: State, e: Event)
    requires Pointers(s)
    ensures View(Next(finish, s, e)) ==
              match OperationOf(s, e)
              case None => View(s)
              case Some(op) => Sessions.Apply(View(s), op, true)
  {
    hide View, Expired, Live, Pointers;
    var t := Next(finish, s, e);
    match e
    case Create(ref, obj) =>
      if ref !in s.heap && obj.id !in s.created {
        CreateView(s, ref, obj);
        ViewOf(t, s.(heap := s.heap[ref := obj], store := s.store[obj.id := ref]));
      }
    case DeleteFailed(_) =>
      if OperationOf(s, e).Some? {
        var id := s.threads[e.thread].id;
        assert View(t) == View(s) - {id} by { DeleteView(s, t, id); }
      }
    case MarkVerified(_) =>
      if OperationOf(s, e).Some? {
        var id := s.heap[s.threads[e.thread].ref].id;
        PresentIn(s, id);
        if id in s.store {
          MarkView(s, id);
          var ref := s.store[id];
          ViewOf(t, s.(heap := s.heap[ref := s.heap[ref].(verified := true)]));
        } else {
          ViewOf(s, t);
        }
      }
    case CleanExpired(now) =>
      CleanView(s, now);
      ViewOf(t, s.(store := s.store - Expired(s, now)));
    case _ =>
      ViewOf(s, t);
  }

  lemma DeleteView(s: State, t: State, id: string)
    requires t.heap == s.heap && t.store == s.store - {id}
    ensures View(t) == View(s) - {id}
  {
  }

  lemma PresentIn(s: State, id: string)
    requires Pointers(s)
    ensures id in s.store <==> id in View(s)
    ensures id in s.store ==> s.store[id] in s.heap
  {
  }

  // ---------- invariants ----------

  /** Every created id is in exactly one of: stored, removed by a failed KE3, removed as
      expired. */
  ghost predicate Partition(s: State) {
    && s.created == s.store.Keys + s.failed + s.expired
    && s.store.Keys !! s.failed !! s.expired
  }

  /** The store points at the object of each id, and an id has one object. */
  ghost predicate Pointers(s: State) {
    && (forall id | id in s.store :: s.store[id] in s.heap && s.heap[s.store[id]].id == id)
    && (forall ref | ref in s.heap :: s.heap[ref].id in s.created)
    && (forall a, b | a in s.heap && b in s.heap && s.heap[a].id == s.heap[b].id :: a == b)
  }

  /** Requests in flight hold real objects, and a matched KE3 matches its object. */
  ghost predicate Threads(finish: Finish, s: State) {
    forall t | t in s.threads :: Sound(finish, s, s.threads[t])
  }

  ghost predicate Sound(finish: Finish, s: State, t: Thread) {
    match t
    case Finalizing(ref, _) => ref in s.heap
    case Refused(id) => id in s.created
    case Matched(ref, ke3) => ref in s.heap && finish(ke3, s.heap[ref].mac)
    case Serving(ref, _, fetchedAt) => ref in s.heap && fetchedAt <= s.heap[ref].expiresAt
  }

  ghost predicate Invariant(finish: Finish, s: State) {
    Partition(s) && Pointers(s) && Threads(finish, s)
  }

  /** Main result: in every interleaving, created ids are the disjoint union of stored,
      failed and expired ids, and every held pointer is to the one object of its id. */
  lemma {:induction false} EveryRun(finish: Finish, events: seq<Event>, n: nat)
    requires n <= |events|
    ensures Invariant(finish, After(finish, events, n))
  {
    if n > 0 {
      EveryRun(finish, events, n - 1);
      var s, e := After(finish, events, n - 1), events[n - 1];
      NextPartition(finish, s, e);
      NextPointers(finish, s, e);
      NextThreads(finish, s, e);
    }
  }

  lemma NextPartition(finish: Finish, s: State, e: Event)
    requires Partition(s) && Pointers(s)
    ensures Partition(Next(finish, s, e))
  {
  }

  lemma NextPointers(finish: Finish, s: State, e: Event)
    requires Pointers(s)
    ensures Pointers(Next(finish, s, e))
  {
  }

  /** An object stays, with everything but its flag; created ids stay created. */
  lemma NextHeap(finish: Finish, s: State, e: Event, ref: nat)
    requires ref in s.heap
    ensures ref in Next(finish, s, e).heap
    ensures var o := Next(finish, s, e).heap[ref];
            o == s.heap[ref] || o == s.heap[ref].(verified := true)
  {
  }

  lemma OthersSound(finish: Finish, s: State, e: Event, t: Thread)
    requires Sound(finish, s, t)
    ensures Sound(finish, Next(finish, s, e), t)
  {
    if !t.Refused? {
      NextHeap(finish, s, e, t.ref);
    }
    assert s.created <= Next(finish, s, e).created;
    hide Next;
  }

  /** The thread that a step starts or moves on is sound. */
  lemma OwnSound(finish: Finish, s: State, e: Event, t: nat)
    requires Pointers(s) && Threads(finish, s)
    requires t in Next(finish, s, e).threads
    ensures Sound(finish, s, Next(finish, s, e).threads[t])
  {
  }

  lemma NextThreads(finish: Finish, s: State, e: Event)
    requires Pointers(s) && Threads(finish, s)
    ensures Threads(finish, Next(finish, s, e))
  {
    forall t | t in Next(finish, s, e).threads
      ensures Sound(finish, Next(finish, s, e), Next(finish, s, e).threads[t])
    {
      OwnSound(finish, s, e, t);
      hide Next, Sound, Pointers;
      OthersSound(finish, s, e, Next(finish, s, e).threads[t]);
    }
  }

  // ---------- a removed session stays removed ----------

  lemma NextRemoved(finish: Finish, s: State, e: Event, ref: nat)
    requires Invariant(finish, s) && ref in s.heap && s.heap[ref].id !in s.store
    ensures var t := Next(finish, s, e);
            ref in t.heap && t.heap[ref] == s.heap[ref] && t.heap[ref].id !in t.store
  {
  }

  lemma {:induction false} RemovedFromStore(finish: Finish, events: seq<Event>, n: nat, m: nat, ref: nat)
    requires n <= m <= |events|
    requires ref in After(finish, events, n).heap
    requires After(finish, events, n).heap[ref].id !in After(finish, events, n).store
    ensures ref in After(finish, events, m).heap
    ensures After(finish, events, m).heap[ref] == After(finish, events, n).heap[ref]
    ensures After(finish, events, n).heap[ref].id !in After(finish, events, m).store
  {
    hide Next, Invariant;
    if n < m {
      RemovedFromStore(finish, events, n, m - 1, ref);
      EveryRun(finish, events, m - 1);
      NextRemoved(finish, After(finish, events, m - 1), events[m - 1], ref);
    }
  }

  /** Main result: once removed, a session is never again retrievable through the store
      and its object never changes, so it cannot become verified, whatever requests
      that still hold it do. */
  lemma RemovedForever(finish: Finish, events: seq<Event>, n: nat, m: nat, ref: nat, now: int)
    requires n <= m <= |events|
    requires ref in After(finish, events, n).heap
    requires After(finish, events, n).heap[ref].id !in After(finish, events, n).store
    ensures ref in After(finish, events, m).heap
    ensures After(finish, events, m).heap[ref] == After(finish, events, n).heap[ref]
    ensures !Live(After(finish, events, m), After(finish, events, n).heap[ref].id, now)
  {
    RemovedFromStore(finish, events, n, m, ref);
  }

  // ---------- what the flag and the gate mean ----------

  /** Event j marks the object: its thread's KE3 matches the object's MAC, and the
      session is still stored at that moment. */
  ghost predicate MarkedAt(finish: Finish, events: seq<Event>, j: nat, ref: nat) {
    && j < |events| && events[j].MarkVerified?
    && var s := After(finish, events, j);
       && events[j].thread in s.threads && s.threads[events[j].thread].Matched?
       && ref in s.heap && s.threads[events[j].thread].ref == ref
       && finish(s.threads[events[j].thread].ke3, s.heap[ref].mac)
       && s.heap[ref].id in s.store && s.store[s.heap[ref].id] == ref
  }

  ghost predicate CreatedVerified(finish: Finish, events: seq<Event>, i: nat, ref: nat) {
    i < |events| && events[i].Create? && events[i].ref == ref && events[i].obj.verified
    && ref !in After(finish, events, i).heap
  }

  /** A step that sets an object's flag creates the object or marks it. */
  lemma NextFlag(finish: Finish, s: State, e: Event, ref: nat)
    requires Invariant(finish, s)
    requires ref in Next(finish, s, e).heap && Next(finish, s, e).heap[ref].verified
    requires !(ref in s.heap && s.heap[ref].verified)
    ensures (e.Create? && e.ref == ref && e.obj.verified && ref !in s.heap)
         || (&& e.MarkVerified? && e.thread in s.threads && s.threads[e.thread].Matched?
             && ref in s.heap && s.threads[e.thread].ref == ref
             && finish(s.threads[e.thread].ke3, s.heap[ref].mac)
             && s.heap[ref].id in s.store && s.store[s.heap[ref].id] == ref)
  {
  }

  /** The flag of an object is set only by creation or by such a mark. */
  lemma {:induction false} FlagHasCause(finish: Finish, events: seq<Event>, n: nat, ref: nat)
    requires n <= |events|
    requires ref in After(finish, events, n).heap && After(finish, events, n).heap[ref].verified
    ensures (exists i | 0 <= i < n :: CreatedVerified(finish, events, i, ref))
         || (exists j | 0 <= j < n :: MarkedAt(finish, events, j, ref))
  {
    hide Next;
    var s, e := After(finish, events, n - 1), events[n - 1];
    if ref in s.heap && s.heap[ref].verified {
      FlagHasCause(finish, events, n - 1, ref);
    } else {
      EveryRun(finish, events, n - 1);
      NextFlag(finish, s, e, ref);
      if e.Create? {
        assert CreatedVerified(finish, events, n - 1, ref);
      } else {
        assert MarkedAt(finish, events, n - 1, ref);
      }
    }
  }

  /** Event n lets a protected request through: it reads the flag of the object it
      fetched earlier, through the shared pointer. */
  ghost predicate PassesAt(finish: Finish, events: seq<Event>, n: nat, ref: nat) {
    && n < |events| && events[n].EndService?
    && var s := After(finish, events, n);
       && events[n].thread in s.threads && s.threads[events[n].thread].Serving?
       && s.threads[events[n].thread].ref == ref
       && ref in s.heap && s.heap[ref].verified && s.heap[ref].ctx == s.threads[events[n].thread].ctx
  }

  /** Main result: in every interleaving, a protected request that is let through holds
      a session that was unexpired when the request fetched it, and whose flag was set
      by a KE3 for that very object while it was stored, or by FIDO2 at its creation. */
  lemma PassImpliesAuthenticated(finish: Finish, events: seq<Event>, n: nat, ref: nat)
    requires PassesAt(finish, events, n, ref)
    ensures var s := After(finish, events, n);
            s.threads[events[n].thread].fetchedAt <= s.heap[ref].expiresAt
    ensures (exists i | 0 <= i < n :: CreatedVerified(finish, events, i, ref))
         || (exists j | 0 <= j < n :: MarkedAt(finish, events, j, ref))
  {
    EveryRun(finish, events, n);
    FlagHasCause(finish, events, n, ref);
  }

  // ---------- requests that outlive their session ----------

  /** A request fetched this session at event b, when it was stored and unexpired, and
      is in flight until event n. */
  ghost predicate ServingSince(
      finish: Finish, events: seq<Event>, b: nat, n: nat, thread: nat, ref: nat, ctx: string)
  {
    && b < n <= |events| && events[b].BeginService? && events[b].thread == thread && events[b].ctx == ctx
    && (forall k | b < k <= n ::
          var threads := After(finish, events, k).threads;
          thread in threads && threads[thread] == Serving(ref, ctx, events[b].now))
    && var s := After(finish, events, b);
       thread !in s.threads && Live(s, events[b].id, events[b].now) && s.store[events[b].id] == ref
  }

  /** A request that holds a session has held it, or fetches it now. */
  lemma NextServing(finish: Finish, s: State, e: Event, thread: nat)
    requires thread in Next(finish, s, e).threads && Next(finish, s, e).threads[thread].Serving?
    ensures var now := Next(finish, s, e).threads[thread];
            || (thread in s.threads && s.threads[thread] == now)
            || (&& e.BeginService? && e.thread == thread && thread !in s.threads && Live(s, e.id, e.now)
                && now == Serving(s.store[e.id], e.ctx, e.now))
  {
    hide Live, Expired;
  }

  lemma {:induction false} ServingWasFetched(
      finish: Finish, events: seq<Event>, n: nat, thread: nat, ref: nat, ctx: string)
    requires n <= |events|
    requires var threads := After(finish, events, n).threads;
             thread in threads && threads[thread].Serving? && threads[thread].ref == ref && threads[thread].ctx == ctx
    ensures exists b: nat :: ServingSince(finish, events, b, n, thread, ref, ctx)
  {
    hide Next, Live;
    var s := After(finish, events, n - 1);
    NextServing(finish, s, events[n - 1], thread);
    if thread in s.threads && s.threads[thread] == After(finish, events, n).threads[thread] {
      ServingWasFetched(finish, events, n - 1, thread, ref, ctx);
      var b: nat :| ServingSince(finish, events, b, n - 1, thread, ref, ctx);
      assert ServingSince(finish, events, b, n, thread, ref, ctx);
    } else {
      assert ServingSince(finish, events, n - 1, n, thread, ref, ctx);
    }
  }

  /** The session of an object has left the store by event m. */
  ghost predicate GoneBy(finish: Finish, events: seq<Event>, m: nat, ref: nat) {
    && m <= |events| && ref in After(finish, events, m).heap
    && After(finish, events, m).heap[ref].id !in After(finish, events, m).store
  }

  /** Main result: a request that is let through in a session already gone had fetched it
      before it went. */
  lemma LatePassWasFetchedBefore(finish: Finish, events: seq<Event>, m: nat, n: nat, ref: nat)
    requires GoneBy(finish, events, m, ref) && m <= n && PassesAt(finish, events, n, ref)
    ensures exists b: nat ::
              b < m && ServingSince(finish, events, b, n, events[n].thread, ref, After(finish, events, n).heap[ref].ctx)
  {
    var t := events[n].thread;
    var ctx := After(finish, events, n).heap[ref].ctx;
    ServingWasFetched(finish, events, n, t, ref, ctx);
    var b: nat :| ServingSince(finish, events, b, n, t, ref, ctx);
    if m <= b {
      NotFetchedAgain(finish, events, m, b, n, t, ref, ctx);
    }
  }

  lemma NotFetchedAgain(
      finish: Finish, events: seq<Event>, m: nat, b: nat, n: nat, thread: nat, ref: nat, ctx: string)
    requires GoneBy(finish, events, m, ref) && ServingSince(finish, events, b, n, thread, ref, ctx)
    ensures b < m
  {
    hide After;
    EveryRun(finish, events, b);
    if m <= b {
      RemovedFromStore(finish, events, m, b, ref);
    }
  }

  /** Main result: of the requests in flight when a session goes, exactly those are still
      let through whose context is the session's, when its flag was set by then. */
  lemma LatePassIff(
      finish: Finish, events: seq<Event>, b: nat, m: nat, n: nat, thread: nat, ref: nat, ctx: string)
    requires n < |events| && events[n] == EndService(thread)
    requires ServingSince(finish, events, b, n, thread, ref, ctx) && GoneBy(finish, events, m, ref) && m <= n
    ensures PassesAt(finish, events, n, ref)
            <==> After(finish, events, m).heap[ref].verified && After(finish, events, m).heap[ref].ctx == ctx
  {
    hide After;
    RemovedForever(finish, events, m, n, ref, 0);
  }

  /** A session expires and is cleaned away while a request holds it, which passes. */
  lemma PassAfterCleaning(finish: Finish, obj: Object)
    requires obj.verified
    ensures var events := [
              Create(0, obj), BeginService(0, obj.id, obj.ctx, obj.expiresAt), CleanExpired(obj.expiresAt + 1),
              EndService(0)];
            GoneBy(finish, events, 3, 0) && PassesAt(finish, events, 3, 0)
  {
    var events := [
      Create(0, obj), BeginService(0, obj.id, obj.ctx, obj.expiresAt), CleanExpired(obj.expiresAt + 1),
      EndService(0)];
    assert After(finish, events, 1) == Next(finish, After(finish, events, 0), events[0]);
    assert After(finish, events, 2) == Next(finish, After(finish, events, 1), events[1]);
    assert After(finish, events, 3) == Next(finish, After(finish, events, 2), events[2]);
  }
}
