/** The in-memory store, keyed by joined strings, against the store keyed by pairs that
    the MongoDB filters define (internal/store/mongodb.go). */
module StoreKeys {
  import opened Stores
  import Attempts

  datatype Call = Call(client: string, ctx: string, op: Op)

  type Pair = (string, string)

  function Tupled(client: string, ctx: string): Pair {
    (client, ctx)
  }

  /** The store after the first n calls, under either kind of key. */
  function After<K(==)>(key: (string, string) -> K, calls: seq<Call>, n: nat): Keyed<K>
    requires n <= |calls|
  {
    if n == 0 then Empty()
    else
      var call := calls[n - 1];
      Step(After(key, calls, n - 1), key(call.client, call.ctx), call.op).0
  }

  function AnswerTo<K(==)>(key: (string, string) -> K, calls: seq<Call>, n: nat): Answer
    requires n < |calls|
  {
    Step(After(key, calls, n), key(calls[n].client, calls[n].ctx), calls[n].op).1
  }

  // ---------- when joining is injective ----------

  ghost predicate JoinInjective(allowed: string -> bool) {
    forall c, x, d, y | allowed(x) && allowed(y) && Join(c, x) == Join(d, y) :: c == d && x == y
  }

  /** No allowed context is some string, a bar, and an allowed context. */
  ghost predicate Unambiguous(allowed: string -> bool) {
    forall u, x, y | allowed(x) && allowed(y) :: x != Join(u, y)
  }

  lemma JoinSuffix(c: string, x: string, d: string, y: string)
    requires Join(c, x) == Join(d, y) && |x| >= |y|
    ensures |x| == |y| ==> c == d && x == y
    ensures |x| > |y| ==> x == Join(x[..|x| - |y| - 1], y)
  {
    var k := Join(c, x);
    assert k[|c| + 1..] == x && k[..|c|] == c;
    assert k[|d| + 1..] == y && k[..|d|] == d;
    if |x| > |y| {
      assert x[|x| - |y|..] == y by { assert x[|x| - |y|..] == k[|d| + 1..]; }
      assert x[|x| - |y| - 1] == k[|d|] == '|';
    }
  }

  /** Exactly when the joined keys are unambiguous for a set of contexts. Contexts
      without a bar always are. */
  lemma InjectiveIffUnambiguous(allowed: string -> bool)
    ensures JoinInjective(allowed) <==> Unambiguous(allowed)
    ensures (forall x | allowed(x) :: '|' !in x) ==> Unambiguous(allowed)
  {
    if Unambiguous(allowed) {
      forall c, x, d, y | allowed(x) && allowed(y) && Join(c, x) == Join(d, y) ensures c == d && x == y {
        if |x| >= |y| { JoinSuffix(c, x, d, y); } else { JoinSuffix(d, y, c, x); }
      }
    }
    if JoinInjective(allowed) {
      forall u, x, y | allowed(x) && allowed(y) ensures x != Join(u, y) {
        assert Join("", Join(u, y)) == Join(Join("", u), y);
        assert |Join(u, y)| == |u| + 1 + |y|;
        if x == Join(u, y) {
          assert false;
        }
      }
    }
    forall u, y ensures '|' in Join(u, y) {
      assert Join(u, y)[|u|] == '|';
    }
  }

  // ---------- refinement ----------

  /** Both stores hold the same under every pair with an allowed context. */
  ghost predicate Agree(allowed: string -> bool, mem: Keyed<string>, tup: Keyed<Pair>) {
    forall c, x | allowed(x) :: AgreeAt(mem, Join(c, x), tup, (c, x))
  }

  ghost predicate AgreeAt(mem: Keyed<string>, k: string, tup: Keyed<Pair>, p: Pair) {
    && (k in mem.records <==> p in tup.records)
    && (k in mem.records ==> mem.records[k] == tup.records[p])
    && At(mem.credentials, k) == At(tup.credentials, p)
    && At(mem.indices, k) == At(tup.indices, p)
  }

  lemma StepAt(mem: Keyed<string>, k: string, tup: Keyed<Pair>, p: Pair, op: Op)
    requires AgreeAt(mem, k, tup, p)
    ensures AgreeAt(Step(mem, k, op).0, k, Step(tup, p, op).0, p)
    ensures Step(mem, k, op).1 == Step(tup, p, op).1
  {
  }

  lemma StepElsewhere<K>(s: Keyed<K>, k: K, op: Op, other: K)
    requires other != k
    ensures var t := Step(s, k, op).0;
            && (other in t.records <==> other in s.records)
            && (other in s.records ==> t.records[other] == s.records[other])
            && At(t.credentials, other) == At(s.credentials, other)
            && At(t.indices, other) == At(s.indices, other)
  {
  }

  lemma StepsAgree(allowed: string -> bool, mem: Keyed<string>, tup: Keyed<Pair>, call: Call)
    requires JoinInjective(allowed) && Agree(allowed, mem, tup) && allowed(call.ctx)
    ensures Agree(allowed, Step(mem, Join(call.client, call.ctx), call.op).0,
                  Step(tup, (call.client, call.ctx), call.op).0)
    ensures Step(mem, Join(call.client, call.ctx), call.op).1 == Step(tup, (call.client, call.ctx), call.op).1
  {
    var k, p := Join(call.client, call.ctx), (call.client, call.ctx);
    StepAt(mem, k, tup, p, call.op);
    hide Step;
    forall c, x | allowed(x)
      ensures AgreeAt(Step(mem, k, call.op).0, Join(c, x), Step(tup, p, call.op).0, (c, x))
    {
      if (c, x) != p {
        StepElsewhere(mem, k, call.op, Join(c, x));
        StepElsewhere(tup, p, call.op, (c, x));
      }
    }
  }

  lemma NothingStored(allowed: string -> bool)
    ensures Agree(allowed, Empty(), Empty())
  {
  }

  lemma {:induction false} RunsAgreeUpTo(allowed: string -> bool, calls: seq<Call>, n: nat)
    requires JoinInjective(allowed) && n <= |calls|
    requires forall i | 0 <= i < n :: allowed(calls[i].ctx)
    ensures Agree(allowed, After(Join, calls, n), After(Tupled, calls, n))
  {
    hide Step, AgreeAt;
    if n == 0 {
      NothingStored(allowed);
    } else {
      RunsAgreeUpTo(allowed, calls, n - 1);
      StepsAgree(allowed, After(Join, calls, n - 1), After(Tupled, calls, n - 1), calls[n - 1]);
    }
  }

  /** Every call of every run with allowed contexts gets the same answer. */
  ghost predicate Refines(allowed: string -> bool) {
    forall calls: seq<Call>, n: nat
      | n < |calls| && (forall i | 0 <= i < |calls| :: allowed(calls[i].ctx))
      :: AnswerTo(Join, calls, n) == AnswerTo(Tupled, calls, n)
  }

  /** A stored record shows up under another client and context. */
  lemma AmbiguousRun(allowed: string -> bool, u: string, x: string, y: string)
    requires allowed(x) && allowed(y) && x == Join(u, y)
    ensures !Refines(allowed)
  {
    var calls := [Call("", x, PutRecord([])), Call(Join("", u), y, GetRecord)];
    assert After(Join, calls, 1) == Step(After(Join, calls, 0), Join("", x), PutRecord([])).0;
    assert After(Tupled, calls, 1) == Step(After(Tupled, calls, 0), ("", x), PutRecord([])).0;
    assert Join("", x) == Join(Join("", u), y);
    assert x != y by { assert |x| > |y|; }
    assert AnswerTo(Join, calls, 1) == Record([]);
    assert AnswerTo(Tupled, calls, 1) == Missing;
  }

  /** Main result: the string-keyed store behaves like the pair-keyed one on every run
      over a set of contexts if and only if that set is unambiguous. */
  lemma RefinesIffUnambiguous(allowed: string -> bool)
    ensures Refines(allowed) <==> Unambiguous(allowed)
  {
    if Unambiguous(allowed) {
      InjectiveIffUnambiguous(allowed);
      forall calls: seq<Call>, n: nat
        | n < |calls| && (forall i | 0 <= i < |calls| :: allowed(calls[i].ctx))
        ensures AnswerTo(Join, calls, n) == AnswerTo(Tupled, calls, n)
      {
        RunsAgreeUpTo(allowed, calls, n);
        StepsAgree(allowed, After(Join, calls, n), After(Tupled, calls, n), calls[n]);
      }
    } else {
      var u, x, y :| allowed(x) && allowed(y) && x == Join(u, y);
      AmbiguousRun(allowed, u, x, y);
    }
  }

  // ---------- the other composite keys ----------

  lemma {:induction false} DecimalHasNoBar(n: nat)
    ensures '|' !in Decimal(n)
  {
    if n >= 10 {
      DecimalHasNoBar(n / 10);
    }
  }

  lemma {:induction false} DecimalInjective(m: nat, n: nat)
    requires Decimal(m) == Decimal(n)
    ensures m == n
  {
    var s, t := Decimal(m), Decimal(n);
    assert s[|s| - 1] == '0' + (m % 10) as char && t[|t| - 1] == '0' + (n % 10) as char;
    assert m % 10 == n % 10;
    assert s[..|s| - 1] == if m < 10 then "" else Decimal(m / 10);
    assert t[..|t| - 1] == if n < 10 then "" else Decimal(n / 10);
    if m >= 10 && n >= 10 {
      DecimalInjective(m / 10, n / 10);
    }
  }

  /** Usage keys never collide, whatever the category contains: the index prints in
      decimal. */
  lemma UsageKeyInjective(category: string, idx: nat, otherCategory: string, otherIdx: nat)
    requires UsageKey(category, idx) == UsageKey(otherCategory, otherIdx)
    ensures category == otherCategory && idx == otherIdx
  {
    var allowed := (s: string) => '|' !in s;
    InjectiveIffUnambiguous(allowed);
    DecimalHasNoBar(idx);
    DecimalHasNoBar(otherIdx);
    assert allowed(Decimal(idx)) && allowed(Decimal(otherIdx));
    DecimalInjective(idx, otherIdx);
  }

  /** Lockout keys of different clients or contexts differ. */
  ghost predicate CounterInjective(allowed: string -> bool) {
    forall c, x, d, y | allowed(x) && allowed(y) && Attempts.CounterKey(c, x, x) == Attempts.CounterKey(d, y, y) ::
      c == d && x == y
  }

  /** No allowed context, doubled, ends in a bar and another one doubled. */
  ghost predicate DoubledUnambiguous(allowed: string -> bool) {
    forall u, x, y | allowed(x) && allowed(y) :: Join(x, x) != Join(u, Join(y, y))
  }

  lemma CounterKeyIsJoin(c: string, x: string)
    ensures Attempts.CounterKey(c, x, x) == Join(c, Join(x, x))
  {
  }

  lemma DoubledInjective(x: string, y: string)
    requires Join(x, x) == Join(y, y)
    ensures x == y
  {
    assert |Join(x, x)| == 2 * |x| + 1 && |Join(y, y)| == 2 * |y| + 1;
    assert Join(x, x)[..|x|] == x && Join(y, y)[..|y|] == y;
  }

  lemma BarMoves(u: string, y: string)
    ensures Join("", Join(u, Join(y, y))) == Join(Join("", u), Join(y, y)) && Join("", u) != ""
  {
  }

  lemma OneBar(u: string, x: string, y: string)
    requires '|' !in x
    ensures Join(x, x) != Join(u, Join(y, y))
  {
    var one, two := Join(x, x), Join(u, Join(y, y));
    assert forall i | 0 <= i < |one| && i != |x| :: one[i] == x[if i < |x| then i else i - |x| - 1];
    assert two[|u|] == '|' && two[|u| + 1 + |y|] == '|';
  }

  /** A context a and its doubling share lockout keys. */
  lemma CounterKeysCollide(client: string, a: string)
    ensures Attempts.CounterKey(client, Join(a, a), Join(a, a)) == Attempts.CounterKey(Join(client, Join(a, a)), a, a)
    ensures client != Join(client, Join(a, a))
  {
    assert |Join(client, Join(a, a))| > |client|;
    assert Join(client, Join(a, a)) + "|" + (a + "|" + a) == client + "|" + Join(a, a) + "|" + Join(a, a);
  }

  /** Main result: exactly when lockout keys are injective over a set of contexts.
      Contexts without a bar always are. */
  lemma CounterKeyInjectiveIff(allowed: string -> bool)
    ensures CounterInjective(allowed) <==> DoubledUnambiguous(allowed)
    ensures (forall x | allowed(x) :: '|' !in x) ==> DoubledUnambiguous(allowed)
  {
    forall c, x { CounterKeyIsJoin(c, x); }
    if DoubledUnambiguous(allowed) {
      forall c, x, d, y | allowed(x) && allowed(y) && Attempts.CounterKey(c, x, x) == Attempts.CounterKey(d, y, y)
        ensures c == d && x == y
      {
        var a, b := Join(x, x), Join(y, y);
        if |a| >= |b| { JoinSuffix(c, a, d, b); } else { JoinSuffix(d, b, c, a); }
        DoubledInjective(x, y);
      }
    }
    if CounterInjective(allowed) {
      forall u, x, y | allowed(x) && allowed(y) ensures Join(x, x) != Join(u, Join(y, y)) {
        if Join(x, x) == Join(u, Join(y, y)) {
          BarMoves(u, y);
          assert false;
        }
      }
    }
    if forall x | allowed(x) :: '|' !in x {
      forall u, x, y | allowed(x) && allowed(y) ensures Join(x, x) != Join(u, Join(y, y)) {
        OneBar(u, x, y);
      }
    }
  }
}
