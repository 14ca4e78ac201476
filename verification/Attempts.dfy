/** internal/pake/counter.go: failed attempts and lockout. */
module Attempts {

  datatype Attempt = Attempt(failures: nat, lockedAt: int)

  type Table = map<string, Attempt>

  /** Locks after `maxFails` failures for `lockout` nanoseconds. */
  datatype Policy = Policy(maxFails: int, lockout: int)

  function CounterKey(clientId: string, kid: string, ctx: string): string {
    clientId + "|" + kid + "|" + ctx
  }

  // ---------- the operations on the table as a value ----------

  predicate Full(p: Policy, t: Table, key: string) {
    key in t && t[key].failures >= p.maxFails
  }

  predicate Locked(p: Policy, t: Table, key: string, now: int) {
    Full(p, t, key) && now < t[key].lockedAt + p.lockout
  }

  function Checked(p: Policy, t: Table, key: string, now: int): Table {
    if Full(p, t, key) && !Locked(p, t, key, now) then t - {key} else t
  }

  function Failed(p: Policy, t: Table, key: string, now: int): Table {
    var a := if key in t then t[key] else Attempt(0, 0);
    t[key := Attempt(a.failures + 1, if a.failures + 1 >= p.maxFails then now else a.lockedAt)]
  }

  class AttemptCounter {
    var attempts: Table
    const policy: Policy

    constructor (maxFails: int, lockout: int)
      ensures attempts == map[] && policy == Policy(maxFails, lockout)
    {
      attempts := map[];
      policy := Policy(maxFails, lockout);
    }

    /** Refuses while locked; forgets a lock that has run out. */
    method Check(clientId: string, kid: string, ctx: string, now: int) returns (ok: bool)
      modifies this
      ensures ok <==> !Locked(policy, old(attempts), CounterKey(clientId, kid, ctx), now)
      ensures attempts == Checked(policy, old(attempts), CounterKey(clientId, kid, ctx), now)
    {
      var key := CounterKey(clientId, kid, ctx);
      if key !in attempts {
        return true;
      }
      var rec := attempts[key];
      if rec.failures >= policy.maxFails {
        if now < rec.lockedAt + policy.lockout {
          return false;
        }
        attempts := attempts - {key};
      }
      return true;
    }

    /** Counts a failure; answers false when the key is now locked. */
    method RecordFailure(clientId: string, kid: string, ctx: string, now: int) returns (ok: bool)
      modifies this
      ensures attempts == Failed(policy, old(attempts), CounterKey(clientId, kid, ctx), now)
      ensures ok <==> !Full(policy, attempts, CounterKey(clientId, kid, ctx))
    {
      var key := CounterKey(clientId, kid, ctx);
      var rec := if key in attempts then attempts[key] else Attempt(0, 0);
      rec := rec.(failures := rec.failures + 1);
      ok := true;
      if rec.failures >= policy.maxFails {
        rec := rec.(lockedAt := now);
        ok := false;
      }
      attempts := attempts[key := rec];
    }

    method RecordSuccess(clientId: string, kid: string, ctx: string)
      modifies this
      ensures attempts == old(attempts) - {CounterKey(clientId, kid, ctx)}
    {
      attempts := attempts - {CounterKey(clientId, kid, ctx)};
    }
  }

  // ---------- histories ----------

  datatype Event =
    | Check(key: string, now: int)
    | Failure(key: string, now: int)
    | Success(key: string, now: int)

  function Apply(p: Policy, t: Table, e: Event): Table {
    match e
    case Check(key, now) => Checked(p, t, key, now)
    case Failure(key, now) => Failed(p, t, key, now)
    case Success(key, _) => t - {key}
  }

  /** The table after the first n events. */
  function After(p: Policy, h: seq<Event>, n: nat): Table
    requires n <= |h|
  {
    if n == 0 then map[] else Apply(p, After(p, h, n - 1), h[n - 1])
  }

  /** Event i starts the key's count afresh: a success, or a check at least the lockout
      after the last failure, when the failures since the last reset fill the limit. */
  predicate Resets(p: Policy, h: seq<Event>, i: nat, key: string)
    requires i < |h|
    decreases i, 1
  {
    && h[i].key == key
    && match h[i]
       case Success(_, _) => true
       case Failure(_, _) => false
       case Check(_, now) =>
         var from := LastReset(p, h, i, key);
         && FailuresBetween(h, from, i, key) > 0 && FailuresBetween(h, from, i, key) >= p.maxFails
         && now >= LastFailure(h, from, i, key) + p.lockout
  }

  /** The position just after the last reset of the key among the first n events. */
  function LastReset(p: Policy, h: seq<Event>, n: nat, key: string): (r: nat)
    requires n <= |h|
    ensures r <= n
    decreases n, 0
  {
    if n == 0 || Resets(p, h, n - 1, key) then n else LastReset(p, h, n - 1, key)
  }

  /** The number of failures of the key in h[from..to]. */
  function FailuresBetween(h: seq<Event>, from: nat, to: nat, key: string): nat
    requires from <= to <= |h|
  {
    if from == to then 0
    else FailuresBetween(h, from, to - 1, key) + (if h[to - 1] == Failure(key, h[to - 1].now) then 1 else 0)
  }

  /** The time of the key's last failure in h[from..to]. */
  function LastFailure(h: seq<Event>, from: nat, to: nat, key: string): int
    requires from <= to <= |h|
  {
    if from == to then 0
    else if h[to - 1] == Failure(key, h[to - 1].now) then h[to - 1].now
    else LastFailure(h, from, to - 1, key)
  }

  /** Main result: after any history the table is a function of it. A key has a record
      exactly when it failed since its last reset; the record counts those failures,
      and once it is full it holds the time of the last of them. */
  lemma {:induction false} TableIsHistory(p: Policy, h: seq<Event>, n: nat, key: string)
    requires n <= |h|
    ensures var t, from := After(p, h, n), LastReset(p, h, n, key);
            var failures := FailuresBetween(h, from, n, key);
            && (key in t <==> failures > 0)
            && (key in t ==> t[key].failures == failures)
            && (Full(p, t, key) ==> t[key].lockedAt == LastFailure(h, from, n, key))
  {
    if n > 0 {
      TableIsHistory(p, h, n - 1, key);
    }
  }

  ghost predicate Monotone(h: seq<Event>) {
    forall i, j | 0 <= i < j < |h| :: h[i].now <= h[j].now
  }

  /** While no success of the key intervenes and the lock has not run out, the record
      stays full and the lock only moves forward. */
  lemma {:induction false} LockPersists(p: Policy, h: seq<Event>, i: nat, j: nat, key: string)
    requires i < j <= |h| && Monotone(h)
    requires h[i].Failure? && h[i].key == key && Full(p, After(p, h, i + 1), key)
    requires forall k | i < k < j :: h[k].now < h[i].now + p.lockout && !(h[k].Success? && h[k].key == key)
    ensures Full(p, After(p, h, j), key) && After(p, h, j)[key].lockedAt >= h[i].now
  {
    if j > i + 1 {
      LockPersists(p, h, i, j - 1, key);
    }
  }

  /** Main result: once a failure at time t locks a key, every check of that key before
      t plus the lockout is refused, unless a success for the key came in between. */
  lemma LockoutHolds(p: Policy, h: seq<Event>, i: nat, j: nat, key: string)
    requires i < j < |h| && Monotone(h)
    requires h[i].Failure? && h[i].key == key && Full(p, After(p, h, i + 1), key)
    requires h[j].Check? && h[j].key == key && h[j].now < h[i].now + p.lockout
    requires forall k | i < k < j :: !(h[k].Success? && h[k].key == key)
    ensures Locked(p, After(p, h, j), key, h[j].now)
  {
    LockPersists(p, h, i, j, key);
  }
}
