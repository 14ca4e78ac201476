/** `extractAuthDataFromAttestation` of internal/webauthn/verify.go: finding the
    authenticator data in an attestation object (Web Authentication Level 2,
    section 6.5.4). */
module Attestation {
  import opened Bytes
  import opened Cbor

  datatype ExtractError = TooShort | NotAMap | TruncatedKey | NotAByteString | TruncatedAuthData | NotFound

  datatype Extraction = Panicked | Failed(error: ExtractError) | Found(authData: seq<byte>)

  /** The UTF-8 bytes of "authData". */
  const AUTH_DATA: seq<byte> := [97, 117, 116, 104, 68, 97, 116, 97]

  lemma AuthDataIsText()
    ensures |AUTH_DATA| == |"authData"| && forall i | 0 <= i < |AUTH_DATA| :: AUTH_DATA[i] == "authData"[i] as int
  {
  }

  // ---------- the scanner ----------

  /** The one-byte length announced by `additional`: the form read for the number
      of pairs and for a key's length, where every value but 24 stands for itself. */
  function ReadShort(data: seq<byte>, pos: nat, additional: nat): (a: Option<Argument>)
    ensures a.Some? ==> pos <= a.value.pos <= pos + 1
  {
    if additional != 24 then Some(Argument(additional, pos))
    else if pos < |data| then Some(Argument(data[pos], pos + 1))
    else None
  }

  /** The byte string at `pos`, which must be what the "authData" key maps to. */
  function TakeByteString(data: seq<byte>, spare: seq<byte>, pos: nat): Extraction {
    if pos >= |data| then Panicked
    else if data[pos] / 32 != 2 then Failed(NotAByteString)
    else
      match ReadArgument(data, spare, pos + 1, data[pos] % 32, data[pos] % 32)
      case None => Panicked
      case Some(a) =>
        if a.pos + a.n > |data| then Failed(TruncatedAuthData)
        else Found(data[a.pos..a.pos + a.n])
  }

  /** The offset after a pair whose key is not a text string. */
  function SkipPair(data: seq<byte>, spare: seq<byte>, pos: nat): Scan {
    match Skip(data, spare, pos)
    case Panic => Panic
    case At(p) => Skip(data, spare, p)
  }

  /** What the scan of the `left` remaining pairs from `pos` finds. */
  function ScanPairs(data: seq<byte>, spare: seq<byte>, pos: nat, left: nat): Extraction
    decreases left
  {
    if left == 0 || pos >= |data| then Failed(NotFound)
    else if data[pos] / 32 != 3 then
      match SkipPair(data, spare, pos)
      case Panic => Panicked
      case At(p) => ScanPairs(data, spare, p, left - 1)
    else
      match ReadShort(data, pos + 1, data[pos] % 32)
      case None => Panicked
      case Some(key) =>
        var end := key.pos + key.n;
        if end > |data| then Failed(TruncatedKey)
        else if data[key.pos..end] == AUTH_DATA then TakeByteString(data, spare, end)
        else
          match Skip(data, spare, end)
          case Panic => Panicked
          case At(p) => ScanPairs(data, spare, p, left - 1)
  }

  function Extract(data: seq<byte>, spare: seq<byte>): Extraction {
    if |data| < 3 then Failed(TooShort)
    else if data[0] / 32 != 5 then Failed(NotAMap)
    else
      match ReadShort(data, 1, data[0] % 32)
      case None => Panicked
      case Some(pairs) => ScanPairs(data, spare, pairs.pos, pairs.n)
  }

  method SkipCBORPair(data: seq<byte>, spare: seq<byte>, pos: nat) returns (r: Scan)
    ensures r == SkipPair(data, spare, pos)
  {
    hide Skip;
    ghost var calls: nat;
    r, calls := SkipCBORValue(data, spare, pos);
    if r.At? {
      r, calls := SkipCBORValue(data, spare, r.pos);
    }
  }

  /** One round of the scan. */
  lemma ScanOne(data: seq<byte>, spare: seq<byte>, pos: nat, left: nat)
    requires left > 0 && pos < |data|
    ensures data[pos] / 32 != 3 ==>
              ScanPairs(data, spare, pos, left) ==
                match SkipPair(data, spare, pos)
                case Panic => Panicked
                case At(p) => ScanPairs(data, spare, p, left - 1)
    ensures data[pos] / 32 == 3 ==>
              match ReadShort(data, pos + 1, data[pos] % 32)
              case None => ScanPairs(data, spare, pos, left) == Panicked
              case Some(key) =>
                var end := key.pos + key.n;
                ScanPairs(data, spare, pos, left) ==
                  if end > |data| then Failed(TruncatedKey)
                  else if data[key.pos..end] == AUTH_DATA then TakeByteString(data, spare, end)
                  else
                    match Skip(data, spare, end)
                    case Panic => Panicked
                    case At(p) => ScanPairs(data, spare, p, left - 1)
  {
    hide SkipPair, Skip, ReadShort, TakeByteString;
  }

  lemma ScanOver(data: seq<byte>, spare: seq<byte>, pos: nat, left: nat)
    requires left == 0 || pos >= |data|
    ensures ScanPairs(data, spare, pos, left) == Failed(NotFound)
  {
  }

  /** The scanner with its loop. */
  method ExtractAuthData(data: seq<byte>, spare: seq<byte>) returns (r: Extraction)
    ensures r == Extract(data, spare)
  {
    hide Skip, SkipPair, TakeByteString;
    if |data| < 3 {
      return Failed(TooShort);
    }
    if data[0] / 32 != 5 {
      return Failed(NotAMap);
    }
    var pos := 1;
    var numPairs := data[0] % 32;
    if numPairs == 24 {
      numPairs := data[pos];
      pos := pos + 1;
    }

    assert Extract(data, spare) == ScanPairs(data, spare, pos, numPairs);
    hide Extract, ScanPairs;
    var i := 0;
    while i < numPairs && pos < |data|
      invariant 0 <= i <= numPairs && 0 <= pos
      invariant Extract(data, spare) == ScanPairs(data, spare, pos, numPairs - i)
      decreases numPairs - i
    {
      ScanOne(data, spare, pos, numPairs - i);
      var keyMajor, keyLen := data[pos] / 32, data[pos] % 32;
      pos := pos + 1;
      i := i + 1;
      if keyMajor != 3 {
        var scan := SkipCBORPair(data, spare, pos - 1);
        if scan.Panic? { return Panicked; }
        pos := scan.pos;
        continue;
      }
      if keyLen == 24 {
        if pos >= |data| { return Panicked; }
        keyLen := data[pos];
        pos := pos + 1;
      }
      if pos + keyLen > |data| {
        return Failed(TruncatedKey);
      }
      var key := data[pos..pos + keyLen];
      pos := pos + keyLen;
      if key == AUTH_DATA {
        return TakeByteString(data, spare, pos);
      }
      var scan, _ := SkipCBORValue(data, spare, pos);
      if scan.Panic? { return Panicked; }
      pos := scan.pos;
    }
    ScanOver(data, spare, pos, numPairs - i);
    return Failed(NotFound);
  }

  // ---------- what an attestation object means ----------

  predicate IsAuthDataKey(key: Item) {
    key.TextString? && key.payload == AUTH_DATA
  }

  /** The value that the first "authData" key maps to. */
  function Lookup(items: seq<Item>): Extraction {
    if |items| < 2 then Failed(NotFound)
    else if !IsAuthDataKey(items[0]) then Lookup(items[2..])
    else if items[1].ByteString? then Found(items[1].payload)
    else Failed(NotAByteString)
  }

  /** Every text key that the scan meets has a head of one or two bytes (any text
      of fewer than 256 bytes can be printed so). Keys of other kinds are free. */
  predicate TextKeysShort(items: seq<Item>) {
    |items| < 2 ||
    (&& (items[0].TextString? ==> items[0].w.W0? || items[0].w.W1?)
     && (IsAuthDataKey(items[0]) || TextKeysShort(items[2..])))
  }

  // ---------- extraction undoes printing ----------

  lemma ReadPrintedShort(data: seq<byte>, pos: nat, major: nat, w: Width, n: nat)
    requires major < 8 && Fits(w, n) && (w.W0? || w.W1?)
    requires HoldsAt(data, pos, Head(major, w, n))
    ensures data[pos] / 32 == major
    ensures ReadShort(data, pos + 1, data[pos] % 32) == Some(Argument(n, pos + |Head(major, w, n)|))
  {
    ReadPrintedHead(data, [], pos, major, w, n, 0);
    if w.W1? {
      assert data[pos + 1] == data[pos..pos + 2][1];
    }
  }

  lemma TakePrinted(data: seq<byte>, spare: seq<byte>, pos: nat, value: Item)
    requires WellFormed(value)
    requires HoldsAt(data, pos, Print(value))
    ensures TakeByteString(data, spare, pos)
         == if value.ByteString? then Found(value.payload) else Failed(NotAByteString)
  {
    hide ReadArgument, Head;
    match value
    case ByteString(w, payload) =>
      HoldsAtSplit(data, pos, Head(2, w, |payload|), payload);
      ReadPrintedHead(data, spare, pos, 2, w, |payload|, data[pos] % 32);
    case _ =>
      assert data[pos] == data[pos..pos + |Print(value)|][0];
  }

  /** A printed text key: its length and its bytes come back. */
  lemma ReadPrintedKey(data: seq<byte>, pos: nat, key: Item)
    requires WellFormed(key) && key.TextString? && (key.w.W0? || key.w.W1?)
    requires HoldsAt(data, pos, Print(key))
    ensures data[pos] / 32 == 3
    ensures var a := ReadShort(data, pos + 1, data[pos] % 32);
            && a.Some?
            && a.value.pos + a.value.n == pos + |Print(key)|
            && data[a.value.pos..a.value.pos + a.value.n] == key.payload
  {
    HoldsAtSplit(data, pos, Head(3, key.w, |key.payload|), key.payload);
    ReadPrintedShort(data, pos, 3, key.w, |key.payload|);
  }

  /** One step of the scan over a printed pair. */
  lemma ScanPrintedPair(data: seq<byte>, spare: seq<byte>, pos: nat, key: Item, value: Item, left: nat)
    requires WellFormed(key) && WellFormed(value) && left > 0
    requires key.TextString? ==> key.w.W0? || key.w.W1?
    requires HoldsAt(data, pos, Print(key)) && HoldsAt(data, pos + |Print(key)|, Print(value))
    ensures ScanPairs(data, spare, pos, left)
         == if !IsAuthDataKey(key) then
              ScanPairs(data, spare, pos + |Print(key)| + |Print(value)|, left - 1)
            else if value.ByteString? then Found(value.payload)
            else Failed(NotAByteString)
  {
    hide Skip, TakeByteString, ReadShort, Print;
    SkipPrinted(data, spare, pos, key);
    SkipPrinted(data, spare, pos + |Print(key)|, value);
    if key.TextString? {
      ReadPrintedKey(data, pos, key);
      TakePrinted(data, spare, pos + |Print(key)|, value);
    } else {
      assert data[pos] == data[pos..pos + |Print(key)|][0];
    }
  }

  lemma ScanNone(data: seq<byte>, spare: seq<byte>, pos: nat)
    ensures ScanPairs(data, spare, pos, 0) == Failed(NotFound)
  {
  }

  lemma {:induction false} ScanPrinted(data: seq<byte>, spare: seq<byte>, pos: nat, items: seq<Item>)
    requires |items| % 2 == 0 && AllWellFormed(items) && TextKeysShort(items)
    requires HoldsAt(data, pos, PrintAll(items))
    ensures ScanPairs(data, spare, pos, |items| / 2) == Lookup(items)
    decreases |items|
  {
    hide ScanPairs, Print, WellFormed, HoldsAt;
    if items == [] {
      ScanNone(data, spare, pos);
    } else {
      PrintPair(items);
      var k, v := Print(items[0]), Print(items[1]);
      HoldsAtSplit(data, pos, k, v + PrintAll(items[2..]));
      HoldsAtSplit(data, pos + |k|, v, PrintAll(items[2..]));
      ScanPrintedPair(data, spare, pos, items[0], items[1], |items| / 2);
      if !IsAuthDataKey(items[0]) {
        ScanPrinted(data, spare, pos + |k| + |v|, items[2..]);
        assert |items[2..]| / 2 == |items| / 2 - 1;
      }
    }
  }

  /** Main result: on any printed attestation object of at most 255 pairs, with keys
      in any order, values nested to any depth and any bytes after it, extraction
      yields exactly the payload of the first "authData" entry, and otherwise says
      what is wrong with it. It never panics. */
  lemma ExtractPrinted(obj: Item, post: seq<byte>, spare: seq<byte>)
    requires obj.Map? && WellFormed(obj) && (obj.w.W0? || obj.w.W1?)
    requires TextKeysShort(obj.items)
    ensures Extract(Print(obj) + post, spare)
         == if |Print(obj) + post| < 3 then Failed(TooShort) else Lookup(obj.items)
  {
    var data := Print(obj) + post;
    var head := Head(5, obj.w, |obj.items| / 2);
    assert HoldsAt(data, 0, head + PrintAll(obj.items)) by {
      assert data[0..|Print(obj)|] == Print(obj);
    }
    HoldsAtSplit(data, 0, head, PrintAll(obj.items));
    ReadPrintedShort(data, 0, 5, obj.w, |obj.items| / 2);
    ScanPrinted(data, spare, |head|, obj.items);
  }

  // ---------- when extraction panics, whatever the input ----------

  /** The end of the text key at `pos`, when its length can be read. */
  function KeyEnd(data: seq<byte>, pos: nat): Option<nat>
    requires pos < |data|
  {
    match ReadShort(data, pos + 1, data[pos] % 32)
    case None => None
    case Some(key) => Some(key.pos + key.n)
  }

  predicate IsAuthDataAt(data: seq<byte>, pos: nat)
    requires pos < |data|
  {
    data[pos] / 32 == 3 &&
    match ReadShort(data, pos + 1, data[pos] % 32)
    case None => false
    case Some(key) => key.pos + key.n <= |data| && data[key.pos..key.pos + key.n] == AUTH_DATA
  }

  /** The pair at `pos` panics. Its key is no text and a head inside key or value is
      truncated; or the text key's length byte is missing; or the key is "authData" with
      nothing after it or a byte string whose head is truncated; or the key is any other
      text that fits, and a head inside the value is truncated. */
  predicate PairPanics(data: seq<byte>, spare: seq<byte>, pos: nat)
    requires pos < |data|
  {
    if data[pos] / 32 != 3 then MeetsTruncated(data, spare, pos, 2)
    else
      match KeyEnd(data, pos)
      case None => true
      case Some(end) =>
        && end <= |data|
        && if IsAuthDataAt(data, pos) then
             end == |data| || (data[end] / 32 == 2 && TruncatedHead(data, spare, end))
           else MeetsTruncated(data, spare, end, 1)
  }

  /** Where the scan goes after the pair at `pos`, if it goes on. */
  function NextPair(data: seq<byte>, spare: seq<byte>, pos: nat): Scan
    requires pos < |data|
  {
    if data[pos] / 32 != 3 then SkipMany(data, spare, pos, 2)
    else
      match KeyEnd(data, pos)
      case None => Panic
      case Some(end) =>
        if end > |data| || IsAuthDataAt(data, pos) then Panic else SkipMany(data, spare, end, 1)
  }

  /** The offsets of the pairs that the scan comes to. */
  function PairsReached(data: seq<byte>, spare: seq<byte>, pos: nat, left: nat): (ps: seq<nat>)
    ensures forall p | p in ps :: p < |data|
    decreases left
  {
    if left == 0 || pos >= |data| then []
    else
      [pos] + match NextPair(data, spare, pos)
              case Panic => []
              case At(p) => PairsReached(data, spare, p, left - 1)
  }

  lemma SkipsAreMany(data: seq<byte>, spare: seq<byte>, pos: nat)
    ensures SkipPair(data, spare, pos) == SkipMany(data, spare, pos, 2)
    ensures Skip(data, spare, pos) == SkipMany(data, spare, pos, 1)
  {
    hide Skip;
    var r := Skip(data, spare, pos);
    if r.At? {
      assert SkipMany(data, spare, pos, 2) == SkipMany(data, spare, r.pos, 1) == Skip(data, spare, r.pos);
    }
  }

  lemma TakePanicsIff(data: seq<byte>, spare: seq<byte>, pos: nat)
    ensures TakeByteString(data, spare, pos).Panicked?
            <==> pos >= |data| || (data[pos] / 32 == 2 && TruncatedHead(data, spare, pos))
  {
  }

  /** One pair of the scan. */
  lemma ScanStep(data: seq<byte>, spare: seq<byte>, pos: nat, left: nat)
    requires pos < |data| && left > 0
    ensures ScanPairs(data, spare, pos, left).Panicked?
            <==> PairPanics(data, spare, pos)
                 || (NextPair(data, spare, pos).At?
                     && ScanPairs(data, spare, NextPair(data, spare, pos).pos, left - 1).Panicked?)
  {
    hide Skip, SkipMany, SkipPair, TakeByteString, MeetsTruncated, TruncatedHead;
    SkipsAreMany(data, spare, pos);
    SkipPanicsIff(data, spare, pos, 2);
    var end := KeyEnd(data, pos);
    if data[pos] / 32 == 3 && end.Some? {
      SkipsAreMany(data, spare, end.value);
      SkipPanicsIff(data, spare, end.value, 1);
      TakePanicsIff(data, spare, end.value);
    }
  }

  lemma {:induction false} ScanPanicsIff(data: seq<byte>, spare: seq<byte>, pos: nat, left: nat)
    ensures ScanPairs(data, spare, pos, left).Panicked?
            <==> exists p | p in PairsReached(data, spare, pos, left) :: PairPanics(data, spare, p)
    decreases left
  {
    hide PairPanics, NextPair;
    if left > 0 && pos < |data| {
      ScanStep(data, spare, pos, left);
      assert PairsReached(data, spare, pos, left)[0] == pos;
      var next := NextPair(data, spare, pos);
      if next.At? {
        ScanPanicsIff(data, spare, next.pos, left - 1);
      }
    }
  }

  /** The offset of the first pair and the number of pairs announced. */
  function MapHeader(data: seq<byte>): Argument
    requires |data| >= 3
  {
    ReadShort(data, 1, data[0] % 32).value
  }

  /** Main result: on arbitrary bytes extraction panics exactly when the object is at
      least three bytes of a map and one of the pairs that the scan comes to panics. */
  lemma ExtractPanicsIff(data: seq<byte>, spare: seq<byte>)
    ensures Extract(data, spare).Panicked? <==>
              && |data| >= 3 && data[0] / 32 == 5
              && exists p | p in PairsReached(data, spare, MapHeader(data).pos, MapHeader(data).n) ::
                   PairPanics(data, spare, p)
  {
    hide ScanPairs, PairsReached, PairPanics;
    if |data| >= 3 {
      ScanPanicsIff(data, spare, MapHeader(data).pos, MapHeader(data).n);
    }
  }

  /** A map whose only key is "authData" and that ends there makes extraction panic. */
  lemma MissingValuePanics(spare: seq<byte>)
    ensures Extract([0xA1, 0x68] + AUTH_DATA, spare).Panicked?
  {
    var data := [0xA1, 0x68] + AUTH_DATA;
    assert data[2..10] == AUTH_DATA;
  }
}
