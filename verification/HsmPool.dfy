/** The PKCS#11 session pool of internal/hsm/pkcs11.go: its construction, and its use by
    concurrent operations until `Close`. */
module HsmPool {
  import opened Bytes

  type Handle = nat

  // ---------- construction ----------

  /** The library: the answers of successive OpenSession calls and of Login. */
  datatype Token = Token(opens: nat -> Option<Handle>, login: bool)

  datatype Built = Failed | Pool(handles: seq<Handle>, capacity: nat)

  function Capacity(configured: int): nat {
    if configured <= 0 then 4 else configured
  }

  /** The handles of the first n OpenSession calls, when all of them succeed. */
  ghost predicate Opened(token: Token, handles: seq<Handle>) {
    forall i | 0 <= i < |handles| :: token.opens(i) == Some(handles[i])
  }

  /** A full pool of distinct sessions. */
  ghost predicate WellBuilt(built: Built) {
    && built.Pool? && built.capacity == |built.handles| >= 1
    && forall i, j | 0 <= i < j < |built.handles| :: built.handles[i] != built.handles[j]
  }

  /** The token never opens the same session twice. */
  ghost predicate OpensDistinct(token: Token) {
    forall i: nat, j: nat | i < j && token.opens(i).Some? :: token.opens(i) != token.opens(j)
  }

  /** Construction either fills the channel to its capacity, or closes every session it
      has opened, each once and in order. */
  method NewPool(token: Token, configured: int) returns (r: Built, made: seq<Handle>, closed: seq<Handle>)
    ensures Opened(token, made) && |made| <= Capacity(configured)
    ensures r.Pool? ==> r.handles == made && r.capacity == |made| == Capacity(configured) && closed == []
    ensures r.Failed? ==> closed == made
    ensures r.Pool? <==> token.login && forall i: nat | i < Capacity(configured) :: token.opens(i).Some?
    ensures r.Pool? && OpensDistinct(token) ==> WellBuilt(r)
  {
    made, closed := [], [];
    var poolSize := configured;
    if poolSize <= 0 {
      poolSize := 4;
    }
    var first := token.opens(0);
    if first.None? {
      return Failed, made, closed;
    }
    made := [first.value];
    if !token.login {
      return Failed, made, [first.value];
    }
    var pool := [first.value];
    var i := 1;
    while i < poolSize
      invariant 1 <= i <= poolSize && |pool| == i && pool == made
      invariant Opened(token, made)
    {
      var sess := token.opens(i);
      if sess.None? {
        while pool != []
          invariant closed + pool == made
          decreases |pool|
        {
          assert closed + pool == closed + [pool[0]] + pool[1..];
          closed := closed + [pool[0]];
          pool := pool[1..];
        }
        return Failed, made, closed;
      }
      pool := pool + [sess.value];
      made := made + [sess.value];
      i := i + 1;
    }
    return Pool(pool, poolSize), made, closed;
  }

  // ---------- use ----------

  /** An operation in flight: waiting for a session, or holding one with some calls to
      the token still to make. It never asks for a second session. */
  datatype Operation = Waiting(calls: nat) | Holding(handle: Handle, calls: nat)

  /** The channel's buffer, its capacity, and the operations by number. */
  datatype State = State(pool: seq<Handle>, capacity: nat, ops: map<nat, Operation>)

  datatype Event =
    | Start(op: nat, calls: nat)
    | Acquire(op: nat)
    | Cancel(op: nat)
    | Call(op: nat)
    | CallFails(op: nat)
    | Release(op: nat)

  /** Whether the step can be taken. A release sends on the channel, so it needs room. */
  predicate Enabled(s: State, e: Event) {
    match e
    case Start(op, _) => op !in s.ops
    case Acquire(op) => op in s.ops && s.ops[op].Waiting? && s.pool != []
    case Cancel(op) => op in s.ops && s.ops[op].Waiting?
    case Call(op) => op in s.ops && s.ops[op].Holding? && s.ops[op].calls > 0
    case CallFails(op) => op in s.ops && s.ops[op].Holding? && s.ops[op].calls > 0
    case Release(op) => op in s.ops && s.ops[op].Holding? && s.ops[op].calls == 0 && |s.pool| < s.capacity
  }

  /** `acquire` receives the oldest handle, `release` sends at the end. A failing call
      cuts the operation short; the deferred release comes all the same. */
  function Next(s: State, e: Event): State
    requires Enabled(s, e)
  {
    match e
    case Start(op, calls) => s.(ops := s.ops[op := Waiting(calls)])
    case Acquire(op) => s.(pool := s.pool[1..], ops := s.ops[op := Holding(s.pool[0], s.ops[op].calls)])
    case Cancel(op) => s.(ops := s.ops - {op})
    case Call(op) => s.(ops := s.ops[op := Holding(s.ops[op].handle, s.ops[op].calls - 1)])
    case CallFails(op) => s.(ops := s.ops[op := Holding(s.ops[op].handle, 0)])
    case Release(op) => s.(pool := s.pool + [s.ops[op].handle], ops := s.ops - {op})
  }

  ghost function Holders(s: State): set<nat> {
    set op | op in s.ops && s.ops[op].Holding?
  }

  ghost predicate Holds(s: State, op: nat, h: Handle) {
    op in s.ops && s.ops[op].Holding? && s.ops[op].handle == h
  }

  /** No handle stands in the channel twice, is held twice, or is both. */
  ghost predicate Disjoint(s: State) {
    && (forall i, j | 0 <= i < j < |s.pool| :: s.pool[i] != s.pool[j])
    && (forall a, b, h | Holds(s, a, h) && Holds(s, b, h) :: a == b)
    && (forall op, h | Holds(s, op, h) :: h !in s.pool)
  }

  /** The handles in the channel and those held are together the opened ones. */
  ghost predicate Covers(s: State, all: set<Handle>) {
    && (forall h | h in s.pool :: h in all)
    && (forall op, h | Holds(s, op, h) :: h in all)
    && (forall h | h in all :: h in s.pool || exists op :: Holds(s, op, h))
  }

  /** The channel and the holders account for the whole capacity. */
  ghost predicate Full(s: State) {
    |s.pool| + |Holders(s)| == s.capacity
  }

  ghost predicate Split(s: State, all: set<Handle>) {
    Disjoint(s) && Covers(s, all) && Full(s)
  }

  /** The pool as constructed, when the token hands out distinct handles. */
  lemma InitialSplit(handles: seq<Handle>)
    requires forall i, j | 0 <= i < j < |handles| :: handles[i] != handles[j]
    ensures Split(State(handles, |handles|, map[]), set h | h in handles)
  {
    assert Holders(State(handles, |handles|, map[])) == {};
  }

  /** What a step does to the holdings. */
  lemma NextHolds(s: State, e: Event, op: nat, h: Handle)
    requires Enabled(s, e)
    ensures Holds(Next(s, e), op, h) <==>
              if e == Acquire(op) then h == s.pool[0]
              else if e == Release(op) then false
              else Holds(s, op, h)
  {
  }

  lemma NextPool(s: State, e: Event, h: Handle)
    requires Enabled(s, e) && Disjoint(s)
    ensures h in Next(s, e).pool <==>
              match e
              case Acquire(op) => h in s.pool && h != s.pool[0]
              case Release(op) => h in s.pool || h == s.ops[op].handle
              case _ => h in s.pool
  {
    if e.Acquire? {
      assert s.pool == [s.pool[0]] + s.pool[1..];
    }
  }

  lemma NextDisjoint(s: State, e: Event)
    requires Enabled(s, e) && Disjoint(s)
    ensures Disjoint(Next(s, e))
  {
    forall op, h { NextHolds(s, e, op, h); }
    forall h { NextPool(s, e, h); }
    if e.Release? {
      assert Holds(s, e.op, s.ops[e.op].handle);
    }
    hide Holds;
  }

  lemma NextCovers(s: State, e: Event, all: set<Handle>)
    requires Enabled(s, e) && Disjoint(s) && Covers(s, all)
    ensures Covers(Next(s, e), all)
  {
    var t := Next(s, e);
    forall op, h { NextHolds(s, e, op, h); }
    forall h { NextPool(s, e, h); }
    if e.Release? {
      assert Holds(s, e.op, s.ops[e.op].handle);
    }
    forall h | h in all ensures h in t.pool || exists op :: Holds(t, op, h) {
      if e.Acquire? && h == s.pool[0] {
        assert Holds(t, e.op, h);
      } else if h !in s.pool {
        var op :| Holds(s, op, h);
        assert e == Release(op) || Holds(t, op, h);
      }
    }
  }

  lemma NextHolders(s: State, e: Event)
    requires Enabled(s, e)
    ensures e.Acquire? ==> e.op !in Holders(s)
    ensures e.Release? ==> e.op in Holders(s)
    ensures Holders(Next(s, e)) ==
              if e.Acquire? then Holders(s) + {e.op} else if e.Release? then Holders(s) - {e.op} else Holders(s)
  {
    forall op ensures op in Holders(Next(s, e)) <==> (op in Holders(s) || e == Acquire(op)) && e != Release(op) {}
    hide Next;
  }

  lemma NextFull(s: State, e: Event)
    requires Enabled(s, e) && Full(s)
    ensures Full(Next(s, e))
  {
    NextHolders(s, e);
    hide Holders;
  }

  /** Every step keeps the split. */
  lemma NextSplit(s: State, e: Event, all: set<Handle>)
    requires Enabled(s, e) && Split(s, all)
    ensures Split(Next(s, e), all)
  {
    NextDisjoint(s, e);
    NextCovers(s, e, all);
    NextFull(s, e);
  }

  /** A run takes only enabled steps. */
  ghost predicate IsRun(s: State, events: seq<Event>)
    decreases |events|
  {
    events == [] || (Enabled(s, events[0]) && IsRun(Next(s, events[0]), events[1..]))
  }

  function RunFrom(s: State, events: seq<Event>): State
    requires IsRun(s, events)
    decreases |events|
  {
    if events == [] then s else RunFrom(Next(s, events[0]), events[1..])
  }

  /** Main result: on every run, pooled and held handles remain a disjoint split of the
      opened ones, and an operation that has made its calls can release its session at
      once: the send never blocks. */
  lemma {:induction false} EveryRun(s: State, events: seq<Event>, all: set<Handle>)
    requires Split(s, all) && IsRun(s, events)
    ensures Split(RunFrom(s, events), all)
    ensures forall op | op in Holders(RunFrom(s, events)) && RunFrom(s, events).ops[op].calls == 0 ::
              Enabled(RunFrom(s, events), Release(op))
    decreases |events|
  {
    if events == [] {
      forall op | op in Holders(s) ensures |s.pool| < s.capacity {
        assert |Holders(s)| > 0;
      }
    } else {
      NextSplit(s, events[0], all);
      EveryRun(Next(s, events[0]), events[1..], all);
    }
  }

  /** The handles that a run takes out of the channel, in order. */
  function Taken(s: State, events: seq<Event>): seq<Handle>
    requires IsRun(s, events)
    decreases |events|
  {
    if events == [] then []
    else (if events[0].Acquire? then [s.pool[0]] else []) + Taken(Next(s, events[0]), events[1..])
  }

  /** The handles that a run puts back, in order. */
  function Returned(s: State, events: seq<Event>): seq<Handle>
    requires IsRun(s, events)
    decreases |events|
  {
    if events == [] then []
    else
      (if events[0].Release? then [s.ops[events[0].op].handle] else []) + Returned(Next(s, events[0]), events[1..])
  }

  /** Main result: the channel is a queue. Over every run what it held and then was given
      is, in the same order, what was taken and what it still holds. */
  lemma {:induction false} FirstInFirstOut(s: State, events: seq<Event>)
    requires IsRun(s, events)
    ensures s.pool + Returned(s, events) == Taken(s, events) + RunFrom(s, events).pool
    decreases |events|
  {
    if events != [] {
      var e, t := events[0], Next(s, events[0]);
      FirstInFirstOut(t, events[1..]);
      var taken, back := Taken(t, events[1..]), Returned(t, events[1..]);
      var end := RunFrom(t, events[1..]).pool;
      if e.Acquire? {
        assert s.pool + back == [s.pool[0]] + (t.pool + back);
        assert [s.pool[0]] + (taken + end) == [s.pool[0]] + taken + end;
      } else if e.Release? {
        assert t.pool + back == s.pool + ([s.ops[e.op].handle] + back);
      } else {
        assert Returned(s, events) == back && Taken(s, events) == taken && t.pool == s.pool;
      }
    }
  }

  /** A continuation in which the waiting operation gets a session while every other
      waiting operation goes on waiting. */
  ghost predicate Serves(s: State, op: nat, events: seq<Event>) {
    && IsRun(s, events)
    && op in RunFrom(s, events).ops && RunFrom(s, events).ops[op].Holding?
    && forall other | other in s.ops && s.ops[other].Waiting? && other != op ::
         other in RunFrom(s, events).ops && RunFrom(s, events).ops[other] == s.ops[other]
  }

  lemma Prepend(s: State, op: nat, e: Event, events: seq<Event>)
    requires Enabled(s, e) && Serves(Next(s, e), op, events)
    requires forall other | other in s.ops && s.ops[other].Waiting? && other != op ::
               other in Next(s, e).ops && Next(s, e).ops[other] == s.ops[other]
    ensures Serves(s, op, [e] + events)
  {
    assert ([e] + events)[1..] == events;
  }

  /** Main result: there is no deadlock. From every state of every run with at least one
      session, a waiting operation has a continuation in which it gets a session: the
      calls and the release of one holder, if any is needed, and its own acquire. */
  lemma {:induction false} NoDeadlock(s: State, all: set<Handle>, op: nat, holder: nat) returns (events: seq<Event>)
    requires Split(s, all) && s.capacity >= 1
    requires op in s.ops && s.ops[op].Waiting?
    requires s.pool == [] ==> holder in Holders(s)
    ensures Serves(s, op, events)
    ensures forall e | e in events :: e == Acquire(op) || e == Call(holder) || e == Release(holder)
    decreases if s.pool == [] then 1 + s.ops[holder].calls else 0
  {
    var e := if s.pool != [] then Acquire(op) else if s.ops[holder].calls > 0 then Call(holder) else Release(holder);
    NextSplit(s, e, all);
    if s.pool != [] {
      assert Serves(Next(s, e), op, []);
      events := [];
    } else {
      events := NoDeadlock(Next(s, e), all, op, holder);
    }
    Prepend(s, op, e, events);
    events := [e] + events;
  }

  /** When the pool is empty some operation does hold a session. */
  lemma SomeHolder(s: State, all: set<Handle>) returns (holder: nat)
    requires Split(s, all) && s.capacity >= 1 && s.pool == []
    ensures holder in Holders(s)
  {
    assert Holders(s) != {};
    holder :| holder in Holders(s);
  }

  lemma {:induction false} CapacityStays(s: State, events: seq<Event>)
    requires IsRun(s, events)
    ensures RunFrom(s, events).capacity == s.capacity
    decreases |events|
  {
    if events != [] {
      CapacityStays(Next(s, events[0]), events[1..]);
    }
  }

  /** The pool that `NewPool` has built, before any operation. */
  function Fresh(built: Built): State
    requires built.Pool?
  {
    State(built.handles, built.capacity, map[])
  }

  /** Main result, from construction on: whatever has run on a pool that was built, an
      operation that waits for a session has a continuation in which it gets one, using
      nothing but the calls and the release of one holder and its own acquire. */
  lemma PoolServesEveryWaiter(built: Built, run: seq<Event>, op: nat) returns (events: seq<Event>, holder: nat)
    requires WellBuilt(built) && IsRun(Fresh(built), run)
    requires var s := RunFrom(Fresh(built), run); op in s.ops && s.ops[op].Waiting?
    ensures Serves(RunFrom(Fresh(built), run), op, events)
    ensures forall e | e in events :: e == Acquire(op) || e == Call(holder) || e == Release(holder)
  {
    hide Split, Serves, Next;
    var start, all := Fresh(built), set h | h in built.handles;
    InitialSplit(built.handles);
    EveryRun(start, run, all);
    CapacityStays(start, run);
    var s := RunFrom(start, run);
    holder := op;
    if s.pool == [] {
      holder := SomeHolder(s, all);
    }
    events := NoDeadlock(s, all, op, holder);
  }
}
