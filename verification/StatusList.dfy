/** The bit packing of internal/statuslist/statuslist.go: two bits per entry, entry
    4k in the low bits of byte k (section 4.1 of draft-ietf-oauth-status-list-20). */
module StatusList {

  type Statuses = map<nat, bv8>

  // ---------- one byte ----------

  /** `b | (status & 0x03) << bitOffset`, where the slot is bitOffset / 2. */
  function Place(b: bv8, slot: nat, status: bv8): bv8
    requires slot < 4
  {
    match slot
    case 0 => b | (status & 3)
    case 1 => b | ((status & 3) << 2)
    case 2 => b | ((status & 3) << 4)
    case 3 => b | ((status & 3) << 6)
  }

  /** The two bits of a slot, as a verifier of the list reads them. */
  function Field(b: bv8, slot: nat): bv8
    requires slot < 4
  {
    match slot
    case 0 => b & 3
    case 1 => (b >> 2) & 3
    case 2 => (b >> 4) & 3
    case 3 => (b >> 6) & 3
  }

  /** Placing a status in an empty slot stores it there and nowhere else. */
  lemma PlaceField(b: bv8, slot: nat, status: bv8, other: nat)
    requires slot < 4 && other < 4
    requires Field(b, slot) == 0
    ensures Field(Place(b, slot, status), other) == if other == slot then status & 3 else Field(b, other)
  {
    match slot {
      case 0 => match other { case 0 => case 1 => case 2 => case 3 => }
      case 1 => match other { case 0 => case 1 => case 2 => case 3 => }
      case 2 => match other { case 0 => case 1 => case 2 => case 3 => }
      case 3 => match other { case 0 => case 1 => case 2 => case 3 => }
    }
  }

  /** A byte is determined by its four fields. */
  lemma FieldsDetermine(a: bv8, b: bv8)
    requires forall slot: nat | slot < 4 :: Field(a, slot) == Field(b, slot)
    ensures a == b
  {
    assert Field(a, 0) == Field(b, 0) && Field(a, 1) == Field(b, 1);
    assert Field(a, 2) == Field(b, 2) && Field(a, 3) == Field(b, 3);
  }

  /** Entry 4k lies in the low bits of byte k and entry 4k + 3 in the high ones. */
  lemma ByteLayout(b: bv8)
    ensures b == Field(b, 0) | (Field(b, 1) << 2) | (Field(b, 2) << 4) | (Field(b, 3) << 6)
  {
  }

  // ---------- the whole list ----------

  /** Reads entry i of a published list. */
  function Read(bits: seq<bv8>, i: nat): bv8
    requires i < 4 * |bits|
  {
    Field(bits[i / 4], i % 4)
  }

  /** The published status of an entry: its low two bits, or 0 when it is absent. */
  function Published(entries: Statuses, i: nat): bv8 {
    if i in entries then entries[i] & 3 else 0
  }

  /** The largest index, at least 0. */
  ghost predicate IsMaxIndex(entries: Statuses, maxIdx: nat) {
    && (forall i | i in entries :: i <= maxIdx)
    && (maxIdx in entries || maxIdx == 0)
  }

  method MaxIndex(entries: Statuses) returns (maxIdx: nat)
    ensures IsMaxIndex(entries, maxIdx)
  {
    maxIdx := 0;
    var todo := entries.Keys;
    while todo != {}
      invariant todo <= entries.Keys
      invariant forall i | i in entries && i !in todo :: i <= maxIdx
      invariant maxIdx in entries || maxIdx == 0
      decreases |todo|
    {
      var idx :| idx in todo;
      todo := todo - {idx};
      if idx > maxIdx {
        maxIdx := idx;
      }
    }
  }

  /** `bitstring[byteIdx] |= (status & 0x03) << bitOffset`. */
  method Merge(bits: array<bv8>, idx: nat, status: bv8)
    requires idx < 4 * bits.Length && Read(bits[..], idx) == 0
    modifies bits
    ensures forall i: nat | i < 4 * bits.Length ::
              Read(bits[..], i) == if i == idx then status & 3 else Read(old(bits[..]), i)
  {
    var bitPos := idx * 2;
    var byteIdx := bitPos / 8;
    var bitOffset := bitPos % 8;
    assert byteIdx == idx / 4 && bitOffset / 2 == idx % 4;
    ghost var before := bits[..];
    bits[byteIdx] := Place(bits[byteIdx], bitOffset / 2, status);
    forall i: nat | i < 4 * bits.Length
      ensures Read(bits[..], i) == if i == idx then status & 3 else Read(before, i)
    {
      hide Place, Field;
      if i / 4 == byteIdx {
        PlaceField(before[byteIdx], idx % 4, status, i % 4);
      }
    }
  }

  /** Main result: for every status map and every order in which the map is iterated,
      reading any entry of the packed bytes, padding included, gives the stored status,
      or 0 where none is stored; and the list has ceil((maxIdx + 1) / 4) bytes. */
  method Pack(entries: Statuses) returns (bits: array<bv8>)
    ensures fresh(bits)
    ensures forall i: nat | i < 4 * bits.Length :: Read(bits[..], i) == Published(entries, i)
    ensures forall i | i in entries :: i < 4 * bits.Length
    ensures exists maxIdx: nat :: IsMaxIndex(entries, maxIdx) && bits.Length == maxIdx / 4 + 1
  {
    var maxIdx := MaxIndex(entries);
    var numEntries: int := maxIdx + 1;
    if numEntries == 0 {
      numEntries := 1;
    }
    var byteLen := (numEntries * 2 + 7) / 8;
    assert byteLen == maxIdx / 4 + 1;
    bits := new bv8[byteLen](_ => 0);
    forall i: nat | i < 4 * byteLen ensures Read(bits[..], i) == 0 {
      ZeroField(i % 4);
    }

    hide Read, Published;
    var todo := entries.Keys;
    while todo != {}
      invariant todo <= entries.Keys && fresh(bits) && bits.Length == byteLen
      invariant forall i: nat | i < 4 * byteLen ::
                  Read(bits[..], i) == if i in entries && i !in todo then entries[i] & 3 else 0
      decreases |todo|
    {
      var idx :| idx in todo;
      todo := todo - {idx};
      Merge(bits, idx, entries[idx]);
    }
    forall i: nat | i < 4 * byteLen ensures Read(bits[..], i) == Published(entries, i) {
      PublishedIs(entries, i);
    }
  }

  /** The bytes are a function of what they publish, so the iteration order is
      invisible in them. */
  lemma OrderIsInvisible(one: seq<bv8>, other: seq<bv8>)
    requires |one| == |other|
    requires forall i: nat | i < 4 * |one| :: Read(one, i) == Read(other, i)
    ensures one == other
  {
    forall k | 0 <= k < |one| ensures one[k] == other[k] {
      forall slot: nat | slot < 4 ensures Field(one[k], slot) == Field(other[k], slot) {
        assert Read(one, 4 * k + slot) == Read(other, 4 * k + slot);
      }
      FieldsDetermine(one[k], other[k]);
    }
  }

  lemma ZeroField(slot: nat)
    requires slot < 4
    ensures Field(0, slot) == 0
  {
  }

  lemma PublishedIs(entries: Statuses, i: nat)
    ensures Published(entries, i) == if i in entries then entries[i] & 3 else 0
  {
  }
}
