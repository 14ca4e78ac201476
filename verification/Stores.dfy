/** internal/store/memory.go: the in-memory store. */
module Stores {
  import opened Bytes
  import StatusList

  datatype Credential = Credential(
    credentialId: seq<byte>, publicKey: seq<byte>, signCount: nat, aaguid: seq<byte>, createdAt: int)

  datatype PublicKeyInfo = PublicKeyInfo(kid: string, curve: string, pubKey: seq<byte>, clientId: string)

  /** `validateKid`: ^[a-zA-Z0-9_-]{1,128}$ */
  predicate ValidKid(kid: string) {
    1 <= |kid| <= 128 &&
    forall c | c in kid :: 'a' <= c <= 'z' || 'A' <= c <= 'Z' || '0' <= c <= '9' || c == '_' || c == '-'
  }

  /** The composite keys of the maps: "clientID|context" or "clientID|category". */
  function Join(a: string, b: string): string {
    a + "|" + b
  }

  /** Base-ten digits, as `%d` prints a natural number. */
  function Decimal(n: nat): (s: string)
    ensures s != ""
  {
    var digit := ['0' + (n % 10) as char];
    if n < 10 then digit else Decimal(n / 10) + digit
  }

  function UsageKey(category: string, idx: nat): string {
    Join(category, Decimal(idx))
  }

  // ---------- the keyed part, for any kind of key ----------

  /** Records, credentials and client indices under keys of type K. */
  datatype Keyed<K(==)> = Keyed(
    records: map<K, seq<byte>>, credentials: map<K, seq<Credential>>, indices: map<K, seq<nat>>)

  function Empty<K(==)>(): Keyed<K> {
    Keyed(map[], map[], map[])
  }

  datatype Op =
    | PutRecord(record: seq<byte>)
    | GetRecord
    | PutCredential(credential: Credential)
    | GetCredentials
    | UpdateSignCount(credentialId: seq<byte>, signCount: nat)
    | RecordIndex(idx: nat)
    | GetIndices

  datatype Answer =
    | Done
    | Missing
    | Record(record: seq<byte>)
    | Credentials(credentials: seq<Credential>)
    | Indices(indices: seq<nat>)

  function At<K(==), V>(m: map<K, seq<V>>, k: K): seq<V> {
    if k in m then m[k] else []
  }

  /** The first credential with this id, which both lookup and update pick. */
  function FirstMatch(creds: seq<Credential>, id: seq<byte>): (i: nat)
    ensures i <= |creds|
    ensures forall j | 0 <= j < i :: creds[j].credentialId != id
    ensures i < |creds| ==> creds[i].credentialId == id
  {
    if creds == [] || creds[0].credentialId == id then 0 else 1 + FirstMatch(creds[1..], id)
  }

  function WithCount(creds: seq<Credential>, id: seq<byte>, signCount: nat): seq<Credential> {
    var i := FirstMatch(creds, id);
    if i < |creds| then creds[i := creds[i].(signCount := signCount)] else creds
  }

  function Step<K(==)>(s: Keyed<K>, k: K, op: Op): (Keyed<K>, Answer) {
    match op
    case PutRecord(record) => (s.(records := s.records[k := record]), Done)
    case GetRecord => (s, if k in s.records then Record(s.records[k]) else Missing)
    case PutCredential(c) => (s.(credentials := s.credentials[k := At(s.credentials, k) + [c]]), Done)
    case GetCredentials =>
      (s, if At(s.credentials, k) == [] then Missing else Credentials(s.credentials[k]))
    case UpdateSignCount(id, n) =>
      if FirstMatch(At(s.credentials, k), id) < |At(s.credentials, k)|
      then (s.(credentials := s.credentials[k := WithCount(s.credentials[k], id, n)]), Done)
      else (s, Missing)
    case RecordIndex(idx) => (s.(indices := s.indices[k := At(s.indices, k) + [idx]]), Done)
    case GetIndices => (s, Indices(At(s.indices, k)))
  }

  /** What each call does to the list, the record or the credentials of its own key, and
      what it answers; the other maps and all other keys stay. */
  lemma StepLaws<K>(s: Keyed<K>, k: K, op: Op)
    ensures var (t, answer) := Step(s, k, op);
            && (forall other | other != k ::
                  && (other in t.records <==> other in s.records)
                  && (other in s.records ==> t.records[other] == s.records[other])
                  && At(t.credentials, other) == At(s.credentials, other)
                  && At(t.indices, other) == At(s.indices, other))
            && match op
               case PutRecord(record) =>
                 k in t.records && t.records[k] == record && t.credentials == s.credentials && t.indices == s.indices
                 && answer == Done
               case GetRecord => t == s && answer == if k in s.records then Record(s.records[k]) else Missing
               case PutCredential(c) =>
                 At(t.credentials, k) == At(s.credentials, k) + [c] && t.records == s.records && t.indices == s.indices
                 && answer == Done
               case GetCredentials =>
                 t == s && answer == if At(s.credentials, k) == [] then Missing else Credentials(At(s.credentials, k))
               case UpdateSignCount(id, n) =>
                 var before, after := At(s.credentials, k), At(t.credentials, k);
                 && t.records == s.records && t.indices == s.indices && |after| == |before|
                 && (answer == Done <==> exists c :: c in before && c.credentialId == id)
                 && forall i | 0 <= i < |before| ::
                      after[i] ==
                        if before[i].credentialId == id && forall j | 0 <= j < i :: before[j].credentialId != id
                        then before[i].(signCount := n) else before[i]
               case RecordIndex(idx) =>
                 At(t.indices, k) == At(s.indices, k) + [idx] && answer == Done
                 && t.records == s.records && t.credentials == s.credentials
               case GetIndices => t == s && answer == Indices(At(s.indices, k))
  {
  }

  // ---------- the status part ----------

  type StatusTable = map<string, StatusList.Statuses>

  const STATUS_VALID: bv8 := 0
  const STATUS_INVALID: bv8 := 1
  const STATUS_SUSPENDED: bv8 := 2

  function Put(entries: StatusList.Statuses, idx: nat, status: bv8): StatusList.Statuses {
    entries[idx := status]
  }

  predicate HasEntry(statuses: StatusTable, category: string, idx: nat) {
    category in statuses && idx in statuses[category]
  }

  function WithStatus(statuses: StatusTable, category: string, idx: nat, status: bv8): StatusTable {
    if HasEntry(statuses, category, idx)
    then statuses[category := Put(statuses[category], idx, status)]
    else statuses
  }

  function NextIndex(counters: map<string, nat>, category: string): nat {
    if category in counters then counters[category] else 0
  }

  function EntriesOf(statuses: StatusTable, category: string): StatusList.Statuses {
    if category in statuses then statuses[category] else map[]
  }

  function WithNewEntry(statuses: StatusTable, category: string, idx: nat): StatusTable {
    statuses[category := Put(EntriesOf(statuses, category), idx, STATUS_VALID)]
  }

  /** The store; every method runs under its mutex. */
  class MemoryStore {
    var counters: map<string, nat>
    var statuses: StatusTable
    var clientIndices: map<string, seq<nat>>
    var usage: map<string, bool>
    var publicKeys: map<string, PublicKeyInfo>
    var records: map<string, seq<byte>>
    var webauthn: map<string, seq<Credential>>

    constructor ()
      ensures Contents() == Empty() && counters == map[] && statuses == map[] && usage == map[] && publicKeys == map[]
    {
      counters, statuses, clientIndices, usage := map[], map[], map[], map[];
      publicKeys, records, webauthn := map[], map[], map[];
    }

    function Contents(): Keyed<string>
      reads this
    {
      Keyed(records, webauthn, clientIndices)
    }

    method AllocateIndex(category: string) returns (idx: nat)
      modifies this`counters, this`statuses
      ensures idx == NextIndex(old(counters), category)
      ensures counters == old(counters)[category := idx + 1]
      ensures statuses == WithNewEntry(old(statuses), category, idx)
    {
      idx := if category in counters then counters[category] else 0;
      counters := counters[category := idx + 1];
      if category !in statuses {
        statuses := statuses[category := map[]];
      }
      statuses := statuses[category := Put(statuses[category], idx, STATUS_VALID)];
    }

    method GetStatus(category: string, idx: nat) returns (status: Option<bv8>)
      ensures status == if HasEntry(statuses, category, idx) then Some(statuses[category][idx]) else None
    {
      if category !in statuses {
        return None;
      }
      if idx !in statuses[category] {
        return None;
      }
      return Some(statuses[category][idx]);
    }

    method SetStatus(category: string, idx: nat, status: bv8) returns (ok: bool)
      modifies this`statuses
      ensures ok <==> HasEntry(old(statuses), category, idx)
      ensures statuses == WithStatus(old(statuses), category, idx, status)
    {
      if category !in statuses {
        return false;
      }
      if idx !in statuses[category] {
        return false;
      }
      statuses := statuses[category := Put(statuses[category], idx, status)];
      return true;
    }

    method GetAllStatuses(category: string) returns (entries: StatusList.Statuses)
      ensures entries == EntriesOf(statuses, category)
    {
      if category !in statuses {
        return map[];
      }
      return statuses[category];
    }

    method RecordWUA(clientId: string, category: string, idx: nat)
      modifies this`clientIndices
      ensures Contents() == Step(old(Contents()), Join(clientId, category), RecordIndex(idx)).0
    {
      var key := clientId + "|" + category;
      clientIndices := clientIndices[key := At(clientIndices, key) + [idx]];
    }

    method GetClientIndices(clientId: string, category: string) returns (indices: seq<nat>)
      ensures Step(Contents(), Join(clientId, category), GetIndices).1 == Indices(indices)
    {
      return At(clientIndices, clientId + "|" + category);
    }

    method RecordUsage(category: string, idx: nat)
      modifies this`usage
      ensures usage == old(usage)[UsageKey(category, idx) := true]
    {
      usage := usage[UsageKey(category, idx) := true];
    }

    method IsUsed(category: string, idx: nat) returns (used: bool)
      ensures used <==> UsageKey(category, idx) in usage && usage[UsageKey(category, idx)]
    {
      var key := UsageKey(category, idx);
      return key in usage && usage[key];
    }

    method PutRecordFor(clientId: string, ctx: string, record: seq<byte>)
      modifies this`records
      ensures Contents() == Step(old(Contents()), Join(clientId, ctx), PutRecord(record)).0
    {
      records := records[clientId + "|" + ctx := record];
    }

    method GetRecordOf(clientId: string, ctx: string) returns (record: Option<seq<byte>>)
      ensures Step(Contents(), Join(clientId, ctx), GetRecord).1
           == if record.Some? then Record(record.value) else Missing
    {
      var key := clientId + "|" + ctx;
      return if key in records then Some(records[key]) else None;
    }

    method PutWebAuthnCredential(clientId: string, ctx: string, cred: Credential)
      modifies this`webauthn
      ensures Contents() == Step(old(Contents()), Join(clientId, ctx), PutCredential(cred)).0
    {
      var key := clientId + "|" + ctx;
      webauthn := webauthn[key := At(webauthn, key) + [cred]];
    }

    method GetWebAuthnCredential(clientId: string, ctx: string) returns (creds: seq<Credential>)
      ensures Step(Contents(), Join(clientId, ctx), GetCredentials).1
           == if creds == [] then Missing else Credentials(creds)
      ensures creds == At(webauthn, Join(clientId, ctx))
    {
      return At(webauthn, clientId + "|" + ctx);
    }

    method UpdateWebAuthnSignCount(clientId: string, ctx: string, credentialId: seq<byte>, signCount: nat)
      returns (ok: bool)
      modifies this`webauthn
      ensures var (s, answer) := Step(old(Contents()), Join(clientId, ctx), UpdateSignCount(credentialId, signCount));
              Contents() == s && (ok <==> answer == Done)
    {
      var key := clientId + "|" + ctx;
      var creds := At(webauthn, key);
      for i := 0 to |creds|
        invariant FirstMatch(creds, credentialId) >= i
        invariant webauthn == old(webauthn)
      {
        if creds[i].credentialId == credentialId {
          webauthn := webauthn[key := creds[i := creds[i].(signCount := signCount)]];
          return true;
        }
      }
      return false;
    }
  }
}
