/** The life of attestation status entries: allocated and recorded by the WKA and WIA
    handlers, changed by revoke and suspend (internal/service/eudiw_handlers.go over
    internal/store/memory.go), and published by the status list. */
module Lifecycle {
  import opened Bytes
  import opened Stores
  import StoreKeys
  import StatusList
  import EcPoint
  import Jwk

  /** The two attestations and the status category of each. */
  datatype Attestation = WKA | WIA

  function CategoryOf(a: Attestation): string {
    match a
    case WKA => "ka"
    case WIA => "wia"
  }

  // ---------- revoke and suspend ----------

  /** Writing one status to a list of indices, skipping those not found. */
  function SetAll(statuses: StatusTable, category: string, indices: seq<nat>, status: bv8): StatusTable {
    if indices == [] then statuses
    else SetAll(WithStatus(statuses, category, indices[0], status), category, indices[1..], status)
  }

  function CountFound(statuses: StatusTable, category: string, indices: seq<nat>): nat {
    if indices == [] then 0
    else (if HasEntry(statuses, category, indices[0]) then 1 else 0) + CountFound(statuses, category, indices[1..])
  }

  function OwnedBy(store: Keyed<string>, clientId: string, category: string): seq<nat> {
    At(store.indices, Join(clientId, category))
  }

  lemma SetAllAppend(statuses: StatusTable, category: string, done: seq<nat>, idx: nat, status: bv8)
    ensures SetAll(statuses, category, done + [idx], status)
         == WithStatus(SetAll(statuses, category, done, status), category, idx, status)
    decreases |done|
  {
    if done != [] {
      assert (done + [idx])[1..] == done[1..] + [idx];
    } else {
      assert [idx][1..] == [];
    }
  }

  lemma CountFoundAppend(statuses: StatusTable, category: string, done: seq<nat>, idx: nat)
    ensures CountFound(statuses, category, done + [idx])
         == CountFound(statuses, category, done) + (if HasEntry(statuses, category, idx) then 1 else 0)
    decreases |done|
  {
    if done != [] {
      assert (done + [idx])[1..] == done[1..] + [idx];
    } else {
      assert [idx][1..] == [];
    }
  }

  lemma {:induction false} SetAllKeepsEntries(
      statuses: StatusTable, category: string, indices: seq<nat>, status: bv8, other: string, idx: nat)
    ensures HasEntry(SetAll(statuses, category, indices, status), other, idx) <==> HasEntry(statuses, other, idx)
    decreases |indices|
  {
    if indices != [] {
      var next := WithStatus(statuses, category, indices[0], status);
      SetAllKeepsEntries(next, category, indices[1..], status, other, idx);
    }
  }

  /** The inner loop of `revokeAll` and of the suspend handler. */
  method SetCategory(store: MemoryStore, clientId: string, category: string, status: bv8) returns (count: nat)
    modifies store`statuses
    ensures var indices := OwnedBy(store.Contents(), clientId, category);
            && store.statuses == SetAll(old(store.statuses), category, indices, status)
            && count == CountFound(old(store.statuses), category, indices)
  {
    count := 0;
    var indices := store.GetClientIndices(clientId, category);
    ghost var before := store.statuses;
    for i := 0 to |indices|
      invariant store.statuses == SetAll(before, category, indices[..i], status)
      invariant count == CountFound(before, category, indices[..i])
    {
      SetAllKeepsEntries(before, category, indices[..i], status, category, indices[i]);
      SetAllAppend(before, category, indices[..i], indices[i], status);
      CountFoundAppend(before, category, indices[..i], indices[i]);
      assert indices[..i + 1] == indices[..i] + [indices[i]];
      var ok := store.SetStatus(category, indices[i], status);
      if ok {
        count := count + 1;
      }
    }
    assert indices[..|indices|] == indices;
  }

  /** Both handlers: `revokeAll` with STATUS_INVALID, suspend with STATUS_SUSPENDED. */
  method SetClientStatus(store: MemoryStore, clientId: string, status: bv8) returns (count: nat)
    modifies store`statuses
    ensures var mine := store.Contents();
            var (ka, wia) := (OwnedBy(mine, clientId, "ka"), OwnedBy(mine, clientId, "wia"));
            && store.statuses == SetAll(SetAll(old(store.statuses), "ka", ka, status), "wia", wia, status)
            && count == CountFound(old(store.statuses), "ka", ka) + CountFound(old(store.statuses), "wia", wia)
  {
    var inKa := SetCategory(store, clientId, "ka", status);
    label first:
    var inWia := SetCategory(store, clientId, "wia", status);
    ghost var ka, wia := OwnedBy(store.Contents(), clientId, "ka"), OwnedBy(store.Contents(), clientId, "wia");
    OtherCategoryCount(old(store.statuses), "ka", ka, status, "wia", wia);
    return inKa + inWia;
  }

  lemma {:induction false} OtherCategoryCount(
      statuses: StatusTable, category: string, indices: seq<nat>, status: bv8, other: string, more: seq<nat>)
    ensures CountFound(SetAll(statuses, category, indices, status), other, more) == CountFound(statuses, other, more)
    decreases |more|
  {
    if more != [] {
      SetAllKeepsEntries(statuses, category, indices, status, other, more[0]);
      OtherCategoryCount(statuses, category, indices, status, other, more[1..]);
    }
  }

  /** Entry by entry: exactly the listed indices of the category change. */
  lemma {:induction false} SetAllEntry(
      statuses: StatusTable, category: string, indices: seq<nat>, status: bv8, other: string, idx: nat)
    requires HasEntry(statuses, other, idx)
    ensures HasEntry(SetAll(statuses, category, indices, status), other, idx)
    ensures SetAll(statuses, category, indices, status)[other][idx]
         == if other == category && idx in indices then status else statuses[other][idx]
    decreases |indices|
  {
    if indices != [] {
      SetAllEntry(WithStatus(statuses, category, indices[0], status), category, indices[1..], status, other, idx);
    }
  }

  lemma {:induction false} AllFound(statuses: StatusTable, category: string, indices: seq<nat>)
    requires forall i | i in indices :: HasEntry(statuses, category, i)
    ensures CountFound(statuses, category, indices) == |indices|
    decreases |indices|
  {
    if indices != [] {
      AllFound(statuses, category, indices[1..]);
    }
  }

  // ---------- issuing ----------

  datatype KeyTable = KeyTable(
    keys: map<string, PublicKeyInfo>, curves: map<string, EcPoint.Curve>, roots: string -> nat -> Option<nat>)

  ghost predicate ValidTable(t: KeyTable) {
    && Jwk.ValidCurves(t.curves)
    && forall name | name in t.curves :: EcPoint.ModSqrt(t.curves[name], t.roots(name))
  }

  /** `resolveKeyJWK`: the stored key as a JWK, if there is one and it converts. */
  function Resolve(t: KeyTable, kid: string): Jwk.JwkResult
    requires ValidTable(t)
  {
    if kid !in t.keys then Jwk.UnsupportedCurve
    else Jwk.Convert(t.curves, t.roots(t.keys[kid].curve), t.keys[kid].pubKey, t.keys[kid].curve)
  }

  datatype Attested = Crashed | BadKid | Keys(jwks: seq<Jwk.JwkResult>)

  /** The resolvable keys in request order, unless a malformed kid or a stored key
      that cannot even be rejected comes first. */
  function Attest(t: KeyTable, kids: seq<string>): Attested
    requires ValidTable(t)
  {
    if kids == [] then Keys([])
    else
      var n := |kids| - 1;
      match Attest(t, kids[..n])
      case Crashed => Crashed
      case BadKid => BadKid
      case Keys(jwks) =>
        if !ValidKid(kids[n]) then BadKid
        else
          var jwk := Resolve(t, kids[n]);
          if jwk.Panicked? then Crashed else if jwk.Jwk? then Keys(jwks + [jwk]) else Keys(jwks)
  }

  /** The status reference in an issued attestation: the absolute index and the list
      number in its URI. */
  datatype Issue = Panicked | Refused | Issued(jwks: seq<Jwk.JwkResult>, idx: nat, list: nat)

  method AllocateAndRecord(store: MemoryStore, clientId: string, a: Attestation) returns (idx: nat)
    modifies store`counters, store`statuses, store`clientIndices
    ensures idx == NextIndex(old(store.counters), CategoryOf(a))
    ensures store.counters == old(store.counters)[CategoryOf(a) := idx + 1]
    ensures store.statuses == WithNewEntry(old(store.statuses), CategoryOf(a), idx)
    ensures store.Contents() == Step(old(store.Contents()), Join(clientId, CategoryOf(a)), RecordIndex(idx)).0
  {
    idx := store.AllocateIndex(CategoryOf(a));
    store.RecordWUA(clientId, CategoryOf(a), idx);
  }

  lemma {:induction false} AttestPrefix(t: KeyTable, kids: seq<string>, n: nat)
    requires ValidTable(t) && n <= |kids|
    requires !Attest(t, kids[..n]).Keys?
    ensures Attest(t, kids) == Attest(t, kids[..n])
    decreases |kids|
  {
    if n == |kids| {
      assert kids[..n] == kids;
    } else {
      var init := kids[..|kids| - 1];
      assert init[..n] == kids[..n];
      AttestPrefix(t, init, n);
    }
  }

  /** A kid that is well formed and stands for a stored key that converts. */
  predicate Resolvable(t: KeyTable, kid: string)
    requires ValidTable(t)
  {
    && kid in t.keys
    && var k := t.keys[kid]; Jwk.Convert(t.curves, t.roots(k.curve), k.pubKey, k.curve).Jwk?
  }

  /** A kid that ends the request: malformed, or with a stored key that makes it panic. */
  predicate Ends(t: KeyTable, kid: string)
    requires ValidTable(t)
  {
    !ValidKid(kid) || (kid in t.keys && t.keys[kid].pubKey == [] && t.keys[kid].curve in t.curves)
  }

  /** The positions of the resolvable kids, in request order. */
  function Positions(t: KeyTable, kids: seq<string>): (ps: seq<nat>)
    requires ValidTable(t)
    ensures forall i | 0 <= i < |ps| :: ps[i] < |kids|
  {
    if kids == [] then []
    else
      var n := |kids| - 1;
      if Resolvable(t, kids[n]) then Positions(t, kids[..n]) + [n] else Positions(t, kids[..n])
  }

  lemma PositionsStep(t: KeyTable, kids: seq<string>)
    requires ValidTable(t) && kids != []
    ensures var n := |kids| - 1;
            Positions(t, kids) == Positions(t, kids[..n]) + if Resolvable(t, kids[n]) then [n] else []
  {
    hide Resolvable;
  }

  lemma {:induction false} PositionsAscend(t: KeyTable, kids: seq<string>)
    requires ValidTable(t)
    ensures var ps := Positions(t, kids); forall i, j | 0 <= i < j < |ps| :: ps[i] < ps[j]
  {
    if kids != [] {
      hide Resolvable, Positions;
      PositionsAscend(t, kids[..|kids| - 1]);
      PositionsStep(t, kids);
    }
  }

  lemma {:induction false} PositionsComplete(t: KeyTable, kids: seq<string>, k: nat)
    requires ValidTable(t) && k < |kids|
    ensures k in Positions(t, kids) <==> Resolvable(t, kids[k])
  {
    hide Resolvable, Positions;
    var n := |kids| - 1;
    PositionsStep(t, kids);
    if k < n {
      PositionsComplete(t, kids[..n], k);
    } else {
      assert forall p | p in Positions(t, kids[..n]) :: p < n;
    }
  }

  /** Every resolvable kid has its position there, once and in order. */
  lemma PositionsAre(t: KeyTable, kids: seq<string>)
    requires ValidTable(t)
    ensures var ps := Positions(t, kids);
            && (forall k: nat | k < |kids| :: k in ps <==> Resolvable(t, kids[k]))
            && (forall i, j | 0 <= i < j < |ps| :: ps[i] < ps[j])
  {
    hide Resolvable, Positions;
    PositionsAscend(t, kids);
    forall k: nat | k < |kids| ensures k in Positions(t, kids) <==> Resolvable(t, kids[k]) {
      PositionsComplete(t, kids, k);
    }
  }

  lemma ResolveIs(t: KeyTable, kid: string)
    requires ValidTable(t)
    ensures Resolve(t, kid).Jwk? <==> Resolvable(t, kid)
    ensures Resolve(t, kid).Jwk? ==>
              var k := t.keys[kid]; Resolve(t, kid) == Jwk.Convert(t.curves, t.roots(k.curve), k.pubKey, k.curve)
    ensures Ends(t, kid) <==> !ValidKid(kid) || Resolve(t, kid).Panicked?
  {
    hide ValidKid;
  }

  lemma AttestStep(t: KeyTable, kids: seq<string>)
    requires ValidTable(t) && kids != []
    ensures var (init, kid) := (Attest(t, kids[..|kids| - 1]), kids[|kids| - 1]);
            Attest(t, kids) ==
              if !init.Keys? then init
              else if !ValidKid(kid) then BadKid
              else if Ends(t, kid) then Crashed
              else if Resolvable(t, kid) then Keys(init.jwks + [Resolve(t, kid)])
              else init
  {
    ResolveIs(t, kids[|kids| - 1]);
    hide ValidKid, Resolvable, Resolve;
  }

  lemma {:induction false} AttestSome(t: KeyTable, kids: seq<string>)
    requires ValidTable(t)
    ensures Attest(t, kids).Keys? <==> forall k | k in kids :: !Ends(t, k)
  {
    if kids != [] {
      hide Resolve, ValidKid, Resolvable, Attest;
      var n: nat := |kids| - 1;
      AttestSome(t, kids[..n]);
      AttestStep(t, kids);
      assert kids == kids[..n] + [kids[n]];
      assert !ValidKid(kids[n]) ==> Ends(t, kids[n]);
    }
  }

  lemma {:induction false} AttestContent(t: KeyTable, kids: seq<string>)
    requires ValidTable(t) && Attest(t, kids).Keys?
    ensures var jwks, ps := Attest(t, kids).jwks, Positions(t, kids);
            |jwks| == |ps| && forall i | 0 <= i < |ps| :: jwks[i] == Resolve(t, kids[ps[i]])
  {
    if kids != [] {
      hide Resolve, ValidKid, Resolvable, Ends, Attest;
      var n: nat := |kids| - 1;
      AttestStep(t, kids);
      AttestContent(t, kids[..n]);
      var init := Positions(t, kids[..n]);
      assert forall i | 0 <= i < |init| :: init[i] in init && kids[..n][init[i]] == kids[init[i]];
    }
  }

  /** Kid n is malformed and the first to end the request. */
  ghost predicate FirstMalformed(t: KeyTable, kids: seq<string>, n: nat)
    requires ValidTable(t)
  {
    n < |kids| && !ValidKid(kids[n]) && forall j | 0 <= j < n :: !Ends(t, kids[j])
  }

  lemma {:induction false} AttestBad(t: KeyTable, kids: seq<string>)
    requires ValidTable(t)
    ensures Attest(t, kids).BadKid? <==> exists n: nat :: FirstMalformed(t, kids, n)
  {
    if kids != [] {
      hide Resolve, ValidKid, Resolvable, Ends, Attest;
      var n: nat := |kids| - 1;
      AttestStep(t, kids);
      AttestBad(t, kids[..n]);
      AttestSome(t, kids[..n]);
      assert forall m: nat | m < n :: FirstMalformed(t, kids[..n], m) <==> FirstMalformed(t, kids, m);
      assert forall j | 0 <= j < n :: kids[j] == kids[..n][j] && kids[j] in kids[..n];
      assert FirstMalformed(t, kids, n) <==> !ValidKid(kids[n]) && Attest(t, kids[..n]).Keys?;
      assert forall m: nat :: FirstMalformed(t, kids[..n], m) ==> m < n;
      assert forall m: nat :: FirstMalformed(t, kids, m) ==> m <= n;
    }
  }

  /** Main result: unless a kid ends the request, what is attested is, in request order,
      the published form of each resolvable key and nothing else; otherwise the first kid
      that ends it decides how the request fails. */
  lemma AttestIs(t: KeyTable, kids: seq<string>)
    requires ValidTable(t)
    ensures Attest(t, kids).Keys? <==> forall k | k in kids :: !Ends(t, k)
    ensures Attest(t, kids).BadKid? <==> exists n: nat :: FirstMalformed(t, kids, n)
    ensures Attest(t, kids).Keys? ==>
              var jwks, ps := Attest(t, kids).jwks, Positions(t, kids);
              && (forall k: nat | k < |kids| :: k in ps <==> Resolvable(t, kids[k]))
              && (forall i, j | 0 <= i < j < |ps| :: ps[i] < ps[j])
              && |jwks| == |ps|
              && forall i | 0 <= i < |ps| ::
                   && kids[ps[i]] in t.keys
                   && var k := t.keys[kids[ps[i]]];
                      jwks[i] == Jwk.Convert(t.curves, t.roots(k.curve), k.pubKey, k.curve)
  {
    hide Attest, Ends, FirstMalformed, Jwk.Convert;
    AttestSome(t, kids);
    AttestBad(t, kids);
    PositionsAre(t, kids);
    if Attest(t, kids).Keys? {
      AttestContent(t, kids);
      forall i | 0 <= i < |Positions(t, kids)| ensures kids[Positions(t, kids)[i]] in t.keys {
        assert Positions(t, kids)[i] in Positions(t, kids);
        ResolveIs(t, kids[Positions(t, kids)[i]]);
      }
    }
  }

  /** `WKAHandler.Handle`: exactly one index is allocated and recorded, and only once
      at least one key has been resolved. */
  method HandleWKA(store: MemoryStore, t: KeyTable, clientId: string, ver: string, kids: seq<string>) returns (r: Issue)
    requires ValidTable(t) && t.keys == store.publicKeys
    modifies store`counters, store`statuses, store`clientIndices
    ensures r.Issued? <==> ver == "draft-008" && Attest(t, kids).Keys? && Attest(t, kids).jwks != []
    ensures r.Panicked? <==> ver == "draft-008" && Attest(t, kids).Crashed?
    ensures r.Issued? ==>
              && r.jwks == Attest(t, kids).jwks
              && r.idx == NextIndex(old(store.counters), "ka") && r.list == r.idx / 1000
              && store.counters == old(store.counters)["ka" := r.idx + 1]
              && store.statuses == WithNewEntry(old(store.statuses), "ka", r.idx)
              && store.Contents() == Step(old(store.Contents()), Join(clientId, "ka"), RecordIndex(r.idx)).0
    ensures !r.Issued? ==>
              store.counters == old(store.counters) && store.statuses == old(store.statuses)
              && store.Contents() == old(store.Contents())
  {
    if ver != "draft-008" {
      return Refused;
    }
    if |kids| == 0 {
      return Refused;
    }
    var attestedKeys: seq<Jwk.JwkResult> := [];
    for i := 0 to |kids|
      invariant Attest(t, kids[..i]) == Keys(attestedKeys)
    {
      assert kids[..i + 1][..i] == kids[..i];
      if !ValidKid(kids[i]) {
        AttestPrefix(t, kids, i + 1);
        return Refused;
      }
      var jwk := Resolve(t, kids[i]);
      if jwk.Panicked? {
        AttestPrefix(t, kids, i + 1);
        return Panicked;
      }
      if jwk.Jwk? {
        attestedKeys := attestedKeys + [jwk];
      }
    }
    assert kids[..|kids|] == kids;
    if |attestedKeys| == 0 {
      return Refused;
    }
    var idx := AllocateAndRecord(store, clientId, WKA);
    return Issued(attestedKeys, idx, idx / 1000);
  }

  /** `WIAHandler.Handle`: the first key must resolve; the others are not looked at. */
  method HandleWIA(store: MemoryStore, t: KeyTable, clientId: string, ver: string, kids: seq<string>) returns (r: Issue)
    requires ValidTable(t) && t.keys == store.publicKeys
    modifies store`counters, store`statuses, store`clientIndices
    ensures r.Issued? <==> ver == "draft-008" && kids != [] && ValidKid(kids[0]) && Resolve(t, kids[0]).Jwk?
    ensures r.Panicked? <==> ver == "draft-008" && kids != [] && ValidKid(kids[0]) && Resolve(t, kids[0]).Panicked?
    ensures r.Issued? ==>
              && r.jwks == [Resolve(t, kids[0])]
              && r.idx == NextIndex(old(store.counters), "wia") && r.list == r.idx / 1000
              && store.counters == old(store.counters)["wia" := r.idx + 1]
              && store.statuses == WithNewEntry(old(store.statuses), "wia", r.idx)
              && store.Contents() == Step(old(store.Contents()), Join(clientId, "wia"), RecordIndex(r.idx)).0
    ensures !r.Issued? ==>
              store.counters == old(store.counters) && store.statuses == old(store.statuses)
              && store.Contents() == old(store.Contents())
  {
    if ver != "draft-008" || |kids| == 0 || !ValidKid(kids[0]) {
      return Refused;
    }
    var jwk := Resolve(t, kids[0]);
    if jwk.Panicked? {
      return Panicked;
    }
    if !jwk.Jwk? {
      return Refused;
    }
    var idx := AllocateAndRecord(store, clientId, WIA);
    return Issued([jwk], idx, idx / 1000);
  }

  /** The published list of a category; the list number in the URL is not looked at. */
  method Serve(store: MemoryStore, category: string, listId: string) returns (bits: array<bv8>)
    ensures fresh(bits)
    ensures forall idx: nat | HasEntry(store.statuses, category, idx) ::
              idx < 4 * bits.Length && StatusList.Read(bits[..], idx) == store.statuses[category][idx] & 3
    ensures forall idx: nat | idx < 4 * bits.Length && !HasEntry(store.statuses, category, idx) ::
              StatusList.Read(bits[..], idx) == 0
  {
    var entries := store.GetAllStatuses(category);
    bits := StatusList.Pack(entries);
    forall idx: nat ensures HasEntry(store.statuses, category, idx) <==> idx in entries {}
    hide StatusList.Read;
  }

  // ---------- runs, one store operation at a time ----------

  /** A handler that has allocated an index and has yet to record it. */
  datatype Pending = Pending(client: string, attestation: Attestation, idx: nat)

  /** The loop of revoke or suspend over one category: the list that it has fetched, and
      how much of it is written. */
  datatype Setting = Setting(attestation: Attestation, status: bv8, indices: seq<nat>, done: nat)

  datatype State = State(
    counters: map<string, nat>, statuses: StatusTable, clientIndices: map<string, seq<nat>>,
    pending: map<nat, Pending>, setting: map<nat, Setting>)

  /** The store operations of concurrent handlers, interleaved freely. A handler is
      named by a number. BeginSet fetches a client's list and each SetNext writes its
      next entry, or leaves the loop; AdminAllocate and AdminSet are the admin interface's. */
  datatype Event =
    | Allocate(handler: nat, client: string, attestation: Attestation)
    | RecordOwner(handler: nat)
    | BeginSet(handler: nat, client: string, attestation: Attestation, status: bv8)
    | SetNext(handler: nat)
    | AdminAllocate(category: string)
    | AdminSet(category: string, idx: nat, status: bv8)

  datatype EntryWrite = EntryWrite(category: string, idx: nat, status: bv8)

  /** The entry that an event writes, if it is there. */
  function WriteOf(s: State, e: Event): Option<EntryWrite> {
    match e
    case AdminSet(category, idx, status) => Some(EntryWrite(category, idx, status))
    case SetNext(h) =>
      if h in s.setting && s.setting[h].done < |s.setting[h].indices| then
        var l := s.setting[h];
        Some(EntryWrite(CategoryOf(l.attestation), l.indices[l.done], l.status))
      else None
    case _ => None
  }

  function Applied(statuses: StatusTable, w: Option<EntryWrite>): StatusTable {
    if w.Some? then WithStatus(statuses, w.value.category, w.value.idx, w.value.status) else statuses
  }

  function Allocated(s: State, category: string): State {
    var idx := NextIndex(s.counters, category);
    s.(counters := s.counters[category := idx + 1], statuses := WithNewEntry(s.statuses, category, idx))
  }

  function Next(s: State, e: Event): State {
    match e
    case Allocate(h, client, a) =>
      if h in s.pending then s
      else
        var p := Pending(client, a, NextIndex(s.counters, CategoryOf(a)));
        Allocated(s, CategoryOf(a)).(pending := s.pending[h := p])
    case RecordOwner(h) =>
      if h !in s.pending then s
      else
        var p := s.pending[h];
        var k := Join(p.client, CategoryOf(p.attestation));
        s.(clientIndices := s.clientIndices[k := At(s.clientIndices, k) + [p.idx]], pending := s.pending - {h})
    case BeginSet(h, client, a, status) =>
      if h in s.setting then s
      else s.(setting := s.setting[h := Setting(a, status, At(s.clientIndices, Join(client, CategoryOf(a))), 0)])
    case SetNext(h) =>
      if h !in s.setting then s
      else if WriteOf(s, e).None? then s.(setting := s.setting - {h})
      else
        s.(statuses := Applied(s.statuses, WriteOf(s, e)),
           setting := s.setting[h := s.setting[h].(done := s.setting[h].done + 1)])
    case AdminAllocate(category) => Allocated(s, category)
    case AdminSet(_, _, _) => s.(statuses := Applied(s.statuses, WriteOf(s, e)))
  }

  /** The state after the first n events. */
  function After(events: seq<Event>, n: nat): State
    requires n <= |events|
  {
    if n == 0 then State(map[], map[], map[], map[], map[]) else Next(After(events, n - 1), events[n - 1])
  }

  /** An index has an entry exactly when it is below the category's counter. */
  ghost predicate EntriesMatchCounter(s: State) {
    forall category: string, idx: nat :: HasEntry(s.statuses, category, idx) <==> idx < NextIndex(s.counters, category)
  }

  /** `idx` stands at position j of the client's list for the attestation. */
  ghost predicate Owns(s: State, client: string, a: Attestation, j: nat, idx: nat) {
    var mine := At(s.clientIndices, Join(client, CategoryOf(a)));
    j < |mine| && mine[j] == idx
  }

  ghost predicate OwnedInRange(s: State) {
    && (forall c, a, j: nat, idx: nat | Owns(s, c, a, j, idx) :: idx < NextIndex(s.counters, CategoryOf(a)))
    && (forall h | h in s.pending :: s.pending[h].idx < NextIndex(s.counters, CategoryOf(s.pending[h].attestation)))
  }

  /** No index of a category is recorded twice, recorded while pending, or pending twice. */
  ghost predicate OwnedOnce(s: State) {
    && (forall c, d, a, j: nat, i: nat, idx: nat {:trigger Owns(s, c, a, j, idx), Owns(s, d, a, i, idx)}
          | Owns(s, c, a, j, idx) && Owns(s, d, a, i, idx) :: c == d && j == i)
    && (forall h: nat, c, j: nat {:trigger Owns(s, c, s.pending[h].attestation, j, s.pending[h].idx)}
          | h in s.pending :: !Owns(s, c, s.pending[h].attestation, j, s.pending[h].idx))
    && (forall h, g | h in s.pending && g in s.pending && h != g
          && s.pending[h].attestation == s.pending[g].attestation :: s.pending[h].idx != s.pending[g].idx)
  }

  ghost predicate Invariant(s: State) {
    EntriesMatchCounter(s) && OwnedInRange(s) && OwnedOnce(s)
  }

  lemma AppliedKeeps(statuses: StatusTable, w: Option<EntryWrite>, category: string, idx: nat)
    ensures HasEntry(Applied(statuses, w), category, idx) <==> HasEntry(statuses, category, idx)
  {
  }

  lemma NextEntries(s: State, e: Event)
    requires EntriesMatchCounter(s)
    ensures EntriesMatchCounter(Next(s, e))
  {
    var t := Next(s, e);
    forall category: string, idx: nat {
      AppliedKeeps(s.statuses, WriteOf(s, e), category, idx);
    }
    hide Applied, WriteOf;
    forall category: string, idx: nat
      ensures HasEntry(t.statuses, category, idx) <==> idx < NextIndex(t.counters, category)
    {
      assert HasEntry(s.statuses, category, idx) <==> idx < NextIndex(s.counters, category);
    }
  }

  lemma OwnerKeyInjective(c: string, a: Attestation, d: string, b: Attestation)
    requires Join(c, CategoryOf(a)) == Join(d, CategoryOf(b))
    ensures c == d && a == b
  {
    var allowed := (s: string) => '|' !in s;
    StoreKeys.InjectiveIffUnambiguous(allowed);
    assert allowed(CategoryOf(a)) && allowed(CategoryOf(b));
  }

  /** What an event does to ownership: recording adds one position, nothing else does. */
  lemma NextOwns(s: State, e: Event, c: string, a: Attestation, j: nat, idx: nat)
    ensures var t := Next(s, e);
            if e.RecordOwner? && e.handler in s.pending then
              var p := s.pending[e.handler];
              var n := |At(s.clientIndices, Join(p.client, CategoryOf(p.attestation)))|;
              Owns(t, c, a, j, idx) <==>
                Owns(s, c, a, j, idx) || (c == p.client && a == p.attestation && j == n && idx == p.idx)
            else
              Owns(t, c, a, j, idx) <==> Owns(s, c, a, j, idx)
  {
    if e.RecordOwner? && e.handler in s.pending {
      var p := s.pending[e.handler];
      if Join(c, CategoryOf(a)) == Join(p.client, CategoryOf(p.attestation)) {
        OwnerKeyInjective(c, a, p.client, p.attestation);
      }
    }
  }

  lemma NextInRange(s: State, e: Event)
    requires OwnedInRange(s)
    ensures OwnedInRange(Next(s, e))
  {
    forall c, a, j: nat, idx: nat {
      NextOwns(s, e, c, a, j, idx);
    }
    hide Owns, CategoryOf, WithNewEntry, WithStatus, Applied, WriteOf;
  }

  lemma NextOnce(s: State, e: Event)
    requires OwnedInRange(s) && OwnedOnce(s)
    ensures OwnedOnce(Next(s, e))
  {
    forall c, a, j: nat, idx: nat {
      NextOwns(s, e, c, a, j, idx);
    }
    hide Owns, CategoryOf, WithNewEntry, WithStatus, Applied, WriteOf;
  }

  /** Main result: after every interleaving of issuing handlers, revocations,
      suspensions and admin calls, the allocated indices of each category are exactly
      0..counter-1, and each recorded index is recorded for one client, once. */
  lemma {:induction false} EveryRun(events: seq<Event>, n: nat)
    requires n <= |events|
    ensures Invariant(After(events, n))
  {
    if n > 0 {
      EveryRun(events, n - 1);
      NextEntries(After(events, n - 1), events[n - 1]);
      NextInRange(After(events, n - 1), events[n - 1]);
      NextOnce(After(events, n - 1), events[n - 1]);
    }
  }

  predicate Writes(s: State, e: Event, category: string, idx: nat) {
    WriteOf(s, e).Some? && WriteOf(s, e).value.category == category && WriteOf(s, e).value.idx == idx
  }

  lemma NextKeepsEntry(s: State, e: Event, category: string, idx: nat)
    requires EntriesMatchCounter(s) && HasEntry(s.statuses, category, idx)
    ensures HasEntry(Next(s, e).statuses, category, idx)
    ensures Next(s, e).statuses[category][idx] ==
              if Writes(s, e, category, idx) then WriteOf(s, e).value.status else s.statuses[category][idx]
  {
    assert !HasEntry(s.statuses, category, NextIndex(s.counters, category));
  }

  /** An index once allocated keeps its entry, so an issued reference resolves in every
      list published later; only a write to that entry changes its status. */
  lemma {:induction false} ReferenceStays(events: seq<Event>, n: nat, m: nat, category: string, idx: nat)
    requires n <= m <= |events|
    requires HasEntry(After(events, n).statuses, category, idx)
    ensures HasEntry(After(events, m).statuses, category, idx)
    ensures (forall k | n <= k < m :: !Writes(After(events, k), events[k], category, idx))
              ==> After(events, m).statuses[category][idx] == After(events, n).statuses[category][idx]
  {
    hide Next, EntriesMatchCounter, HasEntry, Writes;
    if n < m {
      ReferenceStays(events, n, m - 1, category, idx);
      EveryRun(events, m - 1);
      NextKeepsEntry(After(events, m - 1), events[m - 1], category, idx);
      HasEntryIsPresence(After(events, m).statuses, category, idx);
      HasEntryIsPresence(After(events, m - 1).statuses, category, idx);
    }
    HasEntryIsPresence(After(events, n).statuses, category, idx);
  }

  lemma HasEntryIsPresence(statuses: StatusTable, category: string, idx: nat)
    ensures HasEntry(statuses, category, idx) <==> category in statuses && idx in statuses[category]
  {
  }

  /** Main result: in every reachable state, revoking or suspending a client sets
      exactly the entries recorded for it, leaves every other entry of every category
      as it was, and counts as many entries as were recorded. */
  lemma SetsExactlyOwn(events: seq<Event>, n: nat, client: string, status: bv8)
    requires n <= |events|
    ensures var s := After(events, n);
            var ka, wia := At(s.clientIndices, Join(client, "ka")), At(s.clientIndices, Join(client, "wia"));
            var t := SetAll(SetAll(s.statuses, "ka", ka, status), "wia", wia, status);
            && CountFound(s.statuses, "ka", ka) + CountFound(s.statuses, "wia", wia) == |ka| + |wia|
            && (forall category: string, idx: nat ::
                  HasEntry(t, category, idx) <==> HasEntry(s.statuses, category, idx))
            && (forall category: string, idx: nat | HasEntry(s.statuses, category, idx) ::
                  t[category][idx] ==
                    if (category == "ka" && idx in ka) || (category == "wia" && idx in wia)
                    then status else s.statuses[category][idx])
  {
    var s := After(events, n);
    EveryRun(events, n);
    var ka, wia := At(s.clientIndices, Join(client, "ka")), At(s.clientIndices, Join(client, "wia"));
    forall i | i in ka ensures HasEntry(s.statuses, "ka", i) {
      var j :| 0 <= j < |ka| && ka[j] == i;
      assert Owns(s, client, WKA, j, i);
    }
    forall i | i in wia ensures HasEntry(s.statuses, "wia", i) {
      var j :| 0 <= j < |wia| && wia[j] == i;
      assert Owns(s, client, WIA, j, i);
    }
    AllFound(s.statuses, "ka", ka);
    AllFound(s.statuses, "wia", wia);
    var mid := SetAll(s.statuses, "ka", ka, status);
    var t := SetAll(mid, "wia", wia, status);
    forall category: string, idx: nat
      ensures HasEntry(t, category, idx) <==> HasEntry(s.statuses, category, idx)
    {
      SetAllKeepsEntries(s.statuses, "ka", ka, status, category, idx);
      SetAllKeepsEntries(mid, "wia", wia, status, category, idx);
    }
    forall category: string, idx: nat | HasEntry(s.statuses, category, idx)
      ensures t[category][idx] ==
                if (category == "ka" && idx in ka) || (category == "wia" && idx in wia)
                then status else s.statuses[category][idx]
    {
      SetAllEntry(s.statuses, "ka", ka, status, category, idx);
      SetAllEntry(mid, "wia", wia, status, category, idx);
    }
  }

  // ---------- the handlers as events ----------

  /** What `AllocateAndRecord` does to the store is what its two events do in a row. */
  lemma IssueIsEvents(s: State, store: Keyed<string>, h: nat, client: string, a: Attestation)
    requires h !in s.pending && store.indices == s.clientIndices
    ensures var t := Next(Next(s, Allocate(h, client, a)), RecordOwner(h));
            var idx := NextIndex(s.counters, CategoryOf(a));
            && t.counters == s.counters[CategoryOf(a) := idx + 1]
            && t.statuses == WithNewEntry(s.statuses, CategoryOf(a), idx)
            && t.clientIndices == Step(store, Join(client, CategoryOf(a)), RecordIndex(idx)).0.indices
            && t.pending == s.pending && t.setting == s.setting
  {
  }

  /** The loop of a handler, run without anything in between. */
  function Loop(s: State, h: nat, rounds: nat): State
    decreases rounds
  {
    if rounds == 0 then s else Loop(Next(s, SetNext(h)), h, rounds - 1)
  }

  /** What `SetCategory` does to the store is what its events do in a row. */
  lemma LoopIsSetAll(s: State, store: Keyed<string>, h: nat, client: string, a: Attestation, status: bv8)
    requires h !in s.setting && store.indices == s.clientIndices
    ensures var list := OwnedBy(store, client, CategoryOf(a));
            var t := Loop(Next(s, BeginSet(h, client, a, status)), h, |list| + 1);
            t == s.(statuses := SetAll(s.statuses, CategoryOf(a), list, status))
  {
    var list := OwnedBy(store, client, CategoryOf(a));
    var begun := s.(setting := s.setting[h := Setting(a, status, list, 0)]);
    assert Next(s, BeginSet(h, client, a, status)) == begun;
    LoopFrom(begun, h, a, status, list, 0);
    assert list[0..] == list;
    assert begun.setting - {h} == s.setting;
  }

  lemma {:induction false} LoopFrom(s: State, h: nat, a: Attestation, status: bv8, list: seq<nat>, done: nat)
    requires done <= |list| && h in s.setting && s.setting[h] == Setting(a, status, list, done)
    ensures Loop(s, h, |list| - done + 1)
         == s.(statuses := SetAll(s.statuses, CategoryOf(a), list[done..], status), setting := s.setting - {h})
    decreases |list| - done
  {
    if done < |list| {
      var t := Next(s, SetNext(h));
      assert t == s.(statuses := WithStatus(s.statuses, CategoryOf(a), list[done], status),
                     setting := s.setting[h := Setting(a, status, list, done + 1)]);
      LoopFrom(t, h, a, status, list, done + 1);
      assert list[done..][1..] == list[done + 1..];
      assert t.setting - {h} == s.setting - {h};
    } else {
      assert Next(s, SetNext(h)) == s.(setting := s.setting - {h});
    }
  }
}
