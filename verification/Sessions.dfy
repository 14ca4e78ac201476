/** internal/pake/session.go: the store of 2FA sessions. Sessions are heap objects
    that the store shares with its callers; each method is one critical section. */
module Sessions {
  import opened Bytes

  /** The content of a session at one moment. */
  datatype SessionData = SessionData(
    id: string, clientId: string, ctx: string, key: seq<byte>, mac: seq<byte>,
    expiresAt: int, verified: bool, task: string)

  type View = map<string, SessionData>

  // ---------- the store as a value ----------

  predicate Live(m: View, id: string, now: int) {
    id in m && now <= m[id].expiresAt
  }

  function Lookup(m: View, id: string, now: int): Option<SessionData> {
    if Live(m, id, now) then Some(m[id]) else None
  }

  function Marked(m: View, id: string): View {
    if id in m then m[id := m[id].(verified := true)] else m
  }

  function Unexpired(m: View, now: int): View {
    map id | id in m && now <= m[id].expiresAt :: m[id]
  }

  lemma SameSize<T, U>(m: map<string, T>, n: map<string, U>)
    requires m.Keys == n.Keys
    ensures |m| == |n|
  {
    assert |m| == |m.Keys| && |n| == |n.Keys|;
  }

  // ---------- the store as an object ----------

  class Session {
    const id: string
    const clientId: string
    const ctx: string
    const key: seq<byte>
    const mac: seq<byte>
    const expiresAt: int
    const task: string
    var verified: bool

    constructor (d: SessionData)
      ensures Data() == d
    {
      id, clientId, ctx, key, mac := d.id, d.clientId, d.ctx, d.key, d.mac;
      expiresAt, task, verified := d.expiresAt, d.task, d.verified;
    }

    function Data(): SessionData
      reads this
    {
      SessionData(id, clientId, ctx, key, mac, expiresAt, verified, task)
    }
  }

  /** What a cleanup has left when it has yet to look at `todo`. */
  ghost function Purged(all: map<string, Session>, todo: set<string>, now: int): map<string, Session> {
    map id | id in all && (id in todo || now <= all[id].expiresAt) :: all[id]
  }

  lemma PurgeStartsAndEnds(all: map<string, Session>, now: int)
    ensures Purged(all, all.Keys, now) == all
    ensures Purged(all, {}, now) == map id | id in all && now <= all[id].expiresAt :: all[id]
  {
  }

  lemma PurgeOne(all: map<string, Session>, todo: set<string>, id: string, now: int)
    requires id in todo && todo <= all.Keys
    ensures id in Purged(all, todo, now) && Purged(all, todo, now)[id] == all[id]
    ensures Purged(all, todo - {id}, now)
         == if now > all[id].expiresAt then Purged(all, todo, now) - {id} else Purged(all, todo, now)
    ensures todo - {id} <= Purged(all, todo - {id}, now).Keys
    ensures |Purged(all, todo, now) - {id}| == |Purged(all, todo, now)| - 1
  {
    assert (Purged(all, todo, now) - {id}).Keys == Purged(all, todo, now).Keys - {id};
    SameSize(Purged(all, todo, now), map k | k in Purged(all, todo, now).Keys :: k);
  }

  class SessionStore {
    var sessions: map<string, Session>

    constructor ()
      ensures Valid() && sessions == map[] && Contents() == map[]
    {
      sessions := map[];
    }

    ghost predicate Valid()
      reads this
    {
      forall id | id in sessions :: sessions[id].id == id
    }

    function Contents(): View
      reads this, sessions.Values
    {
      map id | id in sessions :: sessions[id].Data()
    }

    /** Refuses an id already present. */
    method Create(session: Session) returns (ok: bool)
      requires Valid()
      modifies this
      ensures Valid()
      ensures ok <==> session.id !in old(Contents())
      ensures sessions == if ok then old(sessions)[session.id := session] else old(sessions)
      ensures Contents() == if ok then old(Contents())[session.id := session.Data()] else old(Contents())
    {
      if session.id in sessions {
        return false;
      }
      sessions := sessions[session.id := session];
      return true;
    }

    /** The shared object, unless it is missing or expired. */
    method Get(id: string, now: int) returns (sess: Session?)
      requires Valid()
      ensures sess != null <==> Live(Contents(), id, now)
      ensures sess != null ==>
                id in sessions && sess == sessions[id] && Lookup(Contents(), id, now) == Some(sess.Data())
    {
      if id !in sessions {
        return null;
      }
      if now > sessions[id].expiresAt {
        return null;
      }
      return sessions[id];
    }

    method MarkVerified(id: string) returns (ok: bool)
      requires Valid()
      modifies set s | s in sessions.Values && s.id == id
      ensures Valid() && (ok <==> id in sessions)
      ensures Contents() == Marked(old(Contents()), id)
    {
      if id !in sessions {
        return false;
      }
      sessions[id].verified := true;
      return true;
    }

    method Delete(id: string)
      requires Valid()
      modifies this
      ensures Valid()
      ensures sessions == old(sessions) - {id} && Contents() == old(Contents()) - {id}
    {
      sessions := sessions - {id};
    }

    /** Removes exactly the expired sessions and returns how many there were. */
    method CleanExpired(now: int) returns (count: nat)
      requires Valid()
      modifies this
      ensures Valid() && sessions.Values <= old(sessions.Values)
      ensures Contents() == Unexpired(old(Contents()), now)
      ensures count == |old(Contents())| - |Contents()|
    {
      hide Purged;
      count := 0;
      ghost var all, before := sessions, Contents();
      PurgeStartsAndEnds(all, now);
      var todo := sessions.Keys;
      while todo != {}
        invariant todo <= sessions.Keys && todo <= all.Keys
        invariant sessions == Purged(all, todo, now)
        invariant count == |all| - |sessions|
        decreases |todo|
      {
        var id :| id in todo;
        PurgeOne(all, todo, id, now);
        todo := todo - {id};
        if now > sessions[id].expiresAt {
          sessions := sessions - {id};
          count := count + 1;
        }
      }
      assert Contents() == Unexpired(before, now);
      SameSize(Contents(), sessions);
      SameSize(before, all);
    }

    method Count() returns (n: nat)
      ensures n == |Contents()|
    {
      SameSize(Contents(), sessions);
      return |sessions|;
    }
  }

  // ---------- cleaning is invisible ----------

  datatype Op = Create(data: SessionData) | MarkVerified(id: string) | Delete(id: string) | Clean

  datatype Timed = Timed(op: Op, now: int)

  /** One operation, on the real store or on one that never cleans. */
  function Apply(m: View, e: Timed, cleans: bool): View {
    match e.op
    case Create(d) => if d.id in m then m else m[d.id := d]
    case MarkVerified(id) => Marked(m, id)
    case Delete(id) => m - {id}
    case Clean => if cleans then Unexpired(m, e.now) else m
  }

  function Run(ops: seq<Timed>, cleans: bool): View {
    if ops == [] then map[] else Apply(Run(ops[..|ops| - 1], cleans), ops[|ops| - 1], cleans)
  }

  /** The clock never goes back. */
  ghost predicate Monotone(ops: seq<Timed>) {
    forall i, j | 0 <= i < j < |ops| :: ops[i].now <= ops[j].now
  }

  /** No created id is still held by the store that never cleans. */
  ghost predicate FreshIds(ops: seq<Timed>) {
    forall i | 0 <= i < |ops| && ops[i].op.Create? :: ops[i].op.data.id !in Run(ops[..i], false)
  }

  /** Both stores agree, except that the lazy one may hold sessions expired by now. */
  ghost predicate SameButExpired(actual: View, lazy: View, now: int) {
    && actual.Keys <= lazy.Keys
    && (forall id | id in actual :: actual[id] == lazy[id])
    && (forall id | id in lazy && id !in actual :: lazy[id].expiresAt < now)
  }

  lemma StepAgrees(actual: View, lazy: View, before: int, e: Timed)
    requires SameButExpired(actual, lazy, before) && before <= e.now
    requires e.op.Create? ==> e.op.data.id !in lazy
    ensures SameButExpired(Apply(actual, e, true), Apply(lazy, e, false), e.now)
  {
  }

  lemma {:induction false} StoresAgree(ops: seq<Timed>, now: int)
    requires Monotone(ops) && FreshIds(ops)
    requires ops != [] ==> ops[|ops| - 1].now <= now
    ensures SameButExpired(Run(ops, true), Run(ops, false), now)
  {
    if ops != [] {
      var n := |ops| - 1;
      var init, e := ops[..n], ops[n];
      forall i | 0 <= i < n ensures init[..i] == ops[..i] {}
      StoresAgree(init, e.now);
      hide Apply;
      StepAgrees(Run(init, true), Run(init, false), e.now, e);
    }
  }

  /** Main result: after any run with a monotone clock and fresh ids, with cleanups at
      any times, `Get` answers at every later moment as it would had the store never
      been cleaned. */
  lemma CleaningInvisible(ops: seq<Timed>, id: string, now: int)
    requires Monotone(ops) && FreshIds(ops)
    requires ops != [] ==> ops[|ops| - 1].now <= now
    ensures Lookup(Run(ops, true), id, now) == Lookup(Run(ops, false), id, now)
  {
    StoresAgree(ops, now);
  }
}
