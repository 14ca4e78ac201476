/** Authenticator data and the COSE key in it: `ParseAuthenticatorData`,
    `parseCOSEKey`, `decodeCBORMap` and `decodeCBORInt` of internal/webauthn/types.go
    (Web Authentication Level 2, sections 6.1 and 6.5.1; RFC 9053, section 7.1.1). */
module AuthData {
  import opened Bytes
  import opened Cbor
  import opened EcPoint

  const FLAG_UP: nat := 0x01
  const FLAG_UV: nat := 0x04
  const FLAG_AT: nat := 0x40

  /** Whether the bit `mask`, a power of two, is set. */
  predicate HasFlag(flags: byte, mask: nat)
    requires mask > 0
  {
    flags / mask % 2 == 1
  }

  datatype ParseError =
    | EmptyCbor | NotAMap | Truncated | UnsupportedArgument
    | BadX | BadY | OffCurve
    | TooShort | TooShortForAttested | TooShortForCredentialId

  // ---------- integers ----------

  datatype IntResult = IntFailed(error: ParseError) | IntRead(value: int, consumed: nat)

  function DecodeInt(data: seq<byte>): (r: IntResult)
    ensures r.IntRead? ==> 1 <= r.consumed <= |data|
  {
    if data == [] then IntFailed(Truncated)
    else
      var additional := data[0] % 32;
      if additional > 25 then IntFailed(UnsupportedArgument)
      else
        match ReadArgument(data, [], 1, additional, 0)
        case None => IntFailed(Truncated)
        case Some(a) => IntRead(if data[0] / 32 == 1 then -1 - a.n else a.n, a.pos)
  }

  method DecodeCborInt(data: seq<byte>) returns (r: IntResult)
    ensures r == DecodeInt(data)
  {
    if |data| == 0 {
      return IntFailed(Truncated);
    }
    var major, additional := data[0] / 32, data[0] % 32;
    var value, consumed := 0, 1;
    assert data + [] == data;
    if additional < 24 {
      value := additional;
    } else if additional == 24 {
      if |data| < 2 {
        return IntFailed(Truncated);
      }
      value := data[1];
      consumed := 2;
    } else if additional == 25 {
      if |data| < 3 {
        return IntFailed(Truncated);
      }
      value := FromBE(data[1..3]);
      consumed := 3;
    } else {
      return IntFailed(UnsupportedArgument);
    }
    if major == 1 {
      value := -1 - value;
    }
    return IntRead(value, consumed);
  }

  // ---------- the COSE map ----------

  type CoseMap = map<int, seq<byte>>

  datatype MapResult = MapFailed(error: ParseError) | MapRead(entries: CoseMap)

  /** What follows a key: a byte string, an integer to step over, or something that
      ends the decoding. Offsets may run past the end; the next step notices. */
  datatype ValueStep = Broken(error: ParseError) | Stored(payload: seq<byte>, pos: nat) | Stepped(pos: nat) | Stop

  function DecodeValue(data: seq<byte>, pos: nat): ValueStep {
    if pos >= |data| then Broken(Truncated)
    else
      var major, additional := data[pos] / 32, data[pos] % 32;
      if major == 2 then
        // Only one- and two-byte lengths are read: from 26 on, `additional` is the length.
        match ReadArgument(data, [], pos + 1, if additional > 25 then 31 else additional, additional)
        case None => Broken(Truncated)
        case Some(a) =>
          if a.pos + a.n > |data| then Broken(Truncated)
          else Stored(data[a.pos..a.pos + a.n], a.pos + a.n)
      else if major <= 1 then
        Stepped(pos + 1 + (if additional == 24 then 1 else if additional == 25 then 2 else 0))
      else Stop
  }

  function DecodePairs(data: seq<byte>, pos: nat, left: nat, result: CoseMap): MapResult
    decreases left
  {
    if left == 0 || pos >= |data| then MapRead(result)
    else
      match DecodeInt(data[pos..])
      case IntFailed(error) => MapFailed(error)
      case IntRead(key, n) =>
        match DecodeValue(data, pos + n)
        case Broken(error) => MapFailed(error)
        case Stored(payload, p) => DecodePairs(data, p, left - 1, result[key := payload])
        case Stepped(p) => DecodePairs(data, p, left - 1, result)
        case Stop => MapRead(result)
  }

  function DecodeMap(data: seq<byte>): MapResult {
    if data == [] then MapFailed(EmptyCbor)
    else if data[0] / 32 != 5 then MapFailed(NotAMap)
    else if data[0] % 32 != 24 then DecodePairs(data, 1, data[0] % 32, map[])
    else if |data| < 2 then MapFailed(Truncated)
    else DecodePairs(data, 2, data[1], map[])
  }

  /** The `switch` on the value's major type. */
  method DecodeCborValue(data: seq<byte>, start: nat) returns (r: ValueStep)
    ensures r == DecodeValue(data, start)
  {
    var pos := start;
    if pos >= |data| {
      return Broken(Truncated);
    }
    assert data + [] == data;
    var valMajor, valAdditional := data[pos] / 32, data[pos] % 32;
    pos := pos + 1;
    if valMajor == 2 {
      var length := valAdditional;
      if valAdditional == 24 {
        if pos >= |data| {
          return Broken(Truncated);
        }
        length := data[pos];
        pos := pos + 1;
      } else if valAdditional == 25 {
        if pos + 1 >= |data| {
          return Broken(Truncated);
        }
        length := FromBE(data[pos..pos + 2]);
        pos := pos + 2;
      }
      if pos + length > |data| {
        return Broken(Truncated);
      }
      return Stored(data[pos..pos + length], pos + length);
    } else if valMajor <= 1 {
      if valAdditional == 24 {
        pos := pos + 1;
      } else if valAdditional == 25 {
        pos := pos + 2;
      }
      return Stepped(pos);
    }
    return Stop;
  }

  method DecodeCborMap(data: seq<byte>) returns (r: MapResult)
    ensures r == DecodeMap(data)
  {
    hide DecodeInt, DecodeValue;
    if |data| == 0 {
      return MapFailed(EmptyCbor);
    }
    var result: CoseMap := map[];
    var pos := 0;
    var major, numPairs := data[pos] / 32, data[pos] % 32;
    if major != 5 {
      return MapFailed(NotAMap);
    }
    pos := pos + 1;
    if numPairs == 24 {
      if pos >= |data| {
        return MapFailed(Truncated);
      }
      numPairs := data[pos];
      pos := pos + 1;
    }

    var i := 0;
    while i < numPairs && pos < |data|
      invariant 0 <= i <= numPairs && 0 <= pos
      invariant DecodeMap(data) == DecodePairs(data, pos, numPairs - i, result)
      decreases numPairs - i
    {
      var key := DecodeCborInt(data[pos..]);
      if key.IntFailed? {
        return MapFailed(key.error);
      }
      var value := DecodeCborValue(data, pos + key.consumed);
      match value {
        case Broken(error) => return MapFailed(error);
        case Stored(payload, p) => result, pos := result[key.value := payload], p;
        case Stepped(p) => pos := p;
        case Stop => return MapRead(result);
      }
      i := i + 1;
    }
    return MapRead(result);
  }

  // ---------- what a printed COSE map means ----------

  function KeyOf(key: Item): int
    requires key.Integer?
  {
    if key.negative then -1 - key.n else key.n
  }

  /** The byte-string entries, a later duplicate replacing an earlier one, up to the
      first value that is neither a byte string nor an integer. */
  function ByteEntries(items: seq<Item>, result: CoseMap): CoseMap {
    if |items| < 2 || !items[0].Integer? then result
    else if items[1].ByteString? then ByteEntries(items[2..], result[KeyOf(items[0]) := items[1].payload])
    else if items[1].Integer? then ByteEntries(items[2..], result)
    else result
  }

  /** Integer keys; integers and byte strings with arguments of at most two bytes. */
  predicate CosePairs(items: seq<Item>) {
    |items| < 2 ||
    (&& items[0].Integer? && !items[0].w.W4?
     && (items[1].ByteString? || items[1].Integer? ==> !items[1].w.W4? && CosePairs(items[2..])))
  }

  predicate CoseMapItem(item: Item) {
    item.Map? && WellFormed(item) && (item.w.W0? || item.w.W1?) && CosePairs(item.items)
  }

  lemma DecodePrintedInt(data: seq<byte>, pos: nat, key: Item)
    requires key.Integer? && WellFormed(key) && !key.w.W4?
    requires HoldsAt(data, pos, Print(key))
    ensures DecodeInt(data[pos..]) == IntRead(KeyOf(key), |Print(key)|)
  {
    var tail := data[pos..];
    assert tail[0..|Print(key)|] == data[pos..pos + |Print(key)|];
    ReadPrintedHead(tail, [], 0, if key.negative then 1 else 0, key.w, key.n, 0);
  }

  lemma DecodePrintedValue(data: seq<byte>, pos: nat, value: Item)
    requires WellFormed(value)
    requires value.ByteString? || value.Integer? ==> !value.w.W4?
    requires HoldsAt(data, pos, Print(value))
    ensures DecodeValue(data, pos)
         == if value.ByteString? then Stored(value.payload, pos + |Print(value)|)
            else if value.Integer? then Stepped(pos + |Print(value)|)
            else Stop
  {
    if value.ByteString? {
      HoldsAtSplit(data, pos, Head(2, value.w, |value.payload|), value.payload);
      ReadPrintedHead(data, [], pos, 2, value.w, |value.payload|, data[pos] % 32);
    } else if value.Integer? {
      ReadPrintedHead(data, [], pos, if value.negative then 1 else 0, value.w, value.n, 0);
    } else {
      assert data[pos] == data[pos..pos + |Print(value)|][0];
    }
  }

  /** One step of the decoder over a printed pair. */
  lemma DecodePrintedPair(data: seq<byte>, pos: nat, key: Item, value: Item, left: nat, result: CoseMap)
    requires WellFormed(key) && WellFormed(value) && left > 0
    requires key.Integer? && !key.w.W4?
    requires value.ByteString? || value.Integer? ==> !value.w.W4?
    requires HoldsAt(data, pos, Print(key)) && HoldsAt(data, pos + |Print(key)|, Print(value))
    ensures var p := pos + |Print(key)| + |Print(value)|;
            DecodePairs(data, pos, left, result) ==
              if value.ByteString? then DecodePairs(data, p, left - 1, result[KeyOf(key) := value.payload])
              else if value.Integer? then DecodePairs(data, p, left - 1, result)
              else MapRead(result)
  {
    hide DecodeInt, DecodeValue, Print, KeyOf;
    DecodePrintedInt(data, pos, key);
    DecodePrintedValue(data, pos + |Print(key)|, value);
  }

  lemma DecodeNone(data: seq<byte>, pos: nat, result: CoseMap)
    ensures DecodePairs(data, pos, 0, result) == MapRead(result)
  {
  }

  lemma {:induction false} DecodePrintedPairs(data: seq<byte>, pos: nat, items: seq<Item>, result: CoseMap)
    requires |items| % 2 == 0 && AllWellFormed(items) && CosePairs(items)
    requires HoldsAt(data, pos, PrintAll(items))
    ensures DecodePairs(data, pos, |items| / 2, result) == MapRead(ByteEntries(items, result))
    decreases |items|
  {
    hide DecodePairs, Print, WellFormed, HoldsAt;
    if items == [] {
      DecodeNone(data, pos, result);
    } else {
      PrintPair(items);
      var k, v := Print(items[0]), Print(items[1]);
      HoldsAtSplit(data, pos, k, v + PrintAll(items[2..]));
      HoldsAtSplit(data, pos + |k|, v, PrintAll(items[2..]));
      DecodePrintedPair(data, pos, items[0], items[1], |items| / 2, result);
      assert |items[2..]| / 2 == |items| / 2 - 1;
      if items[1].ByteString? {
        DecodePrintedPairs(data, pos + |k| + |v|, items[2..], result[KeyOf(items[0]) := items[1].payload]);
      } else if items[1].Integer? {
        DecodePrintedPairs(data, pos + |k| + |v|, items[2..], result);
      }
    }
  }

  /** Decoding any printed COSE map of at most 255 pairs, followed by any bytes, yields
      exactly its byte-string entries, the last duplicate winning. */
  lemma DecodePrintedMap(cose: Item, post: seq<byte>)
    requires CoseMapItem(cose)
    ensures DecodeMap(Print(cose) + post) == MapRead(ByteEntries(cose.items, map[]))
  {
    var data := Print(cose) + post;
    var head := Head(5, cose.w, |cose.items| / 2);
    assert HoldsAt(data, 0, head + PrintAll(cose.items)) by {
      assert data[0..|Print(cose)|] == Print(cose);
    }
    HoldsAtSplit(data, 0, head, PrintAll(cose.items));
    ReadPrintedHead(data, [], 0, 5, cose.w, |cose.items| / 2, 0);
    DecodePrintedPairs(data, |head|, cose.items, map[]);
  }

  // ---------- the public key ----------

  datatype KeyResult = KeyFailed(error: ParseError) | KeyRead(key: Point)

  /** The EC2 key held by the x (-2) and y (-3) entries; the service uses P-256. */
  function KeyOfEntries(curve: Curve, m: CoseMap): KeyResult
    requires curve.p > 0
  {
    if -2 !in m || |m[-2]| != 32 then KeyFailed(BadX)
    else if -3 !in m || |m[-3]| != 32 then KeyFailed(BadY)
    else
      var q := Point(FromBE(m[-2]), FromBE(m[-3]));
      if OnCurve(curve, q) then KeyRead(q) else KeyFailed(OffCurve)
  }

  function ParseKey(curve: Curve, data: seq<byte>): KeyResult
    requires curve.p > 0
  {
    match DecodeMap(data)
    case MapFailed(error) => KeyFailed(error)
    case MapRead(m) => KeyOfEntries(curve, m)
  }

  // ---------- authenticator data ----------

  datatype AuthenticatorData = AuthenticatorData(
    rpIdHash: seq<byte>, flags: byte, signCount: nat,
    aaguid: seq<byte>, credentialId: seq<byte>, publicKey: Option<Point>)

  datatype AuthResult = Panicked | Failed(error: ParseError) | Parsed(authData: AuthenticatorData)

  /** `55+credIDLen` is computed in uint16, so it wraps from 65481 on; a wrapped end
      lies before 55 and slicing to it panics. */
  function CredentialEnd(credIdLen: nat): nat {
    (55 + credIdLen) % 0x1_0000
  }

  function ParseAttested(curve: Curve, data: seq<byte>, base: AuthenticatorData): AuthResult
    requires curve.p > 0 && |data| >= 37
  {
    if |data| < 55 then Failed(TooShortForAttested)
    else
      var credIdLen := FromBE(data[53..55]);
      if |data| < 55 + credIdLen then Failed(TooShortForCredentialId)
      else
        var end := CredentialEnd(credIdLen);
        if end < 55 then Panicked
        else
          match ParseKey(curve, data[end..])
          case KeyFailed(error) => Failed(error)
          case KeyRead(key) =>
            Parsed(base.(aaguid := data[37..53], credentialId := data[55..end], publicKey := Some(key)))
  }

  function Parse(curve: Curve, data: seq<byte>): AuthResult
    requires curve.p > 0
  {
    if |data| < 37 then Failed(TooShort)
    else
      var base := AuthenticatorData(data[0..32], data[32], FromBE(data[33..37]), [], [], None);
      if HasFlag(base.flags, FLAG_AT) then ParseAttested(curve, data, base) else Parsed(base)
  }

  /** `ParseAuthenticatorData`, filling in the fields one by one. */
  method ParseAuthenticatorData(curve: Curve, data: seq<byte>) returns (r: AuthResult)
    requires curve.p > 0
    ensures r == Parse(curve, data)
  {
    if |data| < 37 {
      return Failed(TooShort);
    }
    var ad := AuthenticatorData([], 0, 0, [], [], None);
    ad := ad.(rpIdHash := data[0..32]);
    ad := ad.(flags := data[32]);
    ad := ad.(signCount := FromBE(data[33..37]));
    if HasFlag(ad.flags, FLAG_AT) {
      if |data| < 55 {
        return Failed(TooShortForAttested);
      }
      ad := ad.(aaguid := data[37..53]);
      var credIdLen := FromBE(data[53..55]);
      if |data| < 55 + credIdLen {
        return Failed(TooShortForCredentialId);
      }
      var end := CredentialEnd(credIdLen);
      if end < 55 {
        return Panicked;
      }
      ad := ad.(credentialId := data[55..end]);
      var entries := DecodeCborMap(data[end..]);
      if entries.MapFailed? {
        return Failed(entries.error);
      }
      var key := KeyOfEntries(curve, entries.entries);
      if key.KeyFailed? {
        return Failed(key.error);
      }
      ad := ad.(publicKey := Some(key.key));
    }
    return Parsed(ad);
  }

  // ---------- parsing undoes printing ----------

  /** What an authenticator reports; `attested` is there when the AT flag is set. */
  datatype Report = Report(
    rpIdHash: seq<byte>, flags: byte, signCount: nat,
    attested: Option<Attested>)

  datatype Attested = Attested(aaguid: seq<byte>, credentialId: seq<byte>, cose: Item)

  predicate WellFormedReport(t: Report) {
    && |t.rpIdHash| == 32 && t.signCount < 0x1_0000_0000
    && (t.attested.Some? <==> HasFlag(t.flags, FLAG_AT))
    && (t.attested.Some? ==>
          && |t.attested.value.aaguid| == 16
          && |t.attested.value.credentialId| < 0x1_0000
          && CoseMapItem(t.attested.value.cose))
  }

  function PrintAttested(t: Attested): seq<byte>
    requires CoseMapItem(t.cose)
  {
    t.aaguid + ToBE(|t.credentialId|, 2) + t.credentialId + Print(t.cose)
  }

  function PrintReport(t: Report): seq<byte>
    requires WellFormedReport(t)
  {
    t.rpIdHash + [t.flags] + ToBE(t.signCount, 4)
    + if t.attested.Some? then PrintAttested(t.attested.value) else []
  }

  const MAX_CREDENTIAL_ID := 65480

  /** What parsing a report must give: its own fields and its key, unless the
      credential ID is longer than uint16 arithmetic allows. */
  function Meaning(curve: Curve, t: Report): AuthResult
    requires curve.p > 0
  {
    var base := AuthenticatorData(t.rpIdHash, t.flags, t.signCount, [], [], None);
    match t.attested
    case None => Parsed(base)
    case Some(a) =>
      if |a.credentialId| > MAX_CREDENTIAL_ID then Panicked
      else if !a.cose.Map? then Failed(NotAMap)
      else
        match KeyOfEntries(curve, ByteEntries(a.cose.items, map[]))
        case KeyFailed(error) => Failed(error)
        case KeyRead(key) =>
          Parsed(base.(aaguid := a.aaguid, credentialId := a.credentialId, publicKey := Some(key)))
  }

  lemma ParsePrintedAttested(curve: Curve, t: Attested, fixed: seq<byte>, post: seq<byte>, base: AuthenticatorData)
    requires curve.p > 0 && |fixed| == 37
    requires |t.aaguid| == 16 && |t.credentialId| < 0x1_0000 && CoseMapItem(t.cose)
    ensures ParseAttested(curve, fixed + PrintAttested(t) + post, base)
         == if |t.credentialId| > MAX_CREDENTIAL_ID then Panicked
            else match KeyOfEntries(curve, ByteEntries(t.cose.items, map[]))
                 case KeyFailed(error) => Failed(error)
                 case KeyRead(key) =>
                   Parsed(base.(aaguid := t.aaguid, credentialId := t.credentialId, publicKey := Some(key)))
  {
    hide DecodeMap, ByteEntries, KeyOfEntries, Print, WellFormed, CosePairs;
    var data := fixed + PrintAttested(t) + post;
    var n := |t.credentialId|;
    assert data[37..53] == t.aaguid;
    assert data[53..55] == ToBE(n, 2);
    assert FromBE(data[53..55]) == n by { Pow256Values(); FromToBE(n, 2); }
    assert data[55..55 + n] == t.credentialId;
    assert data[55 + n..] == Print(t.cose) + post;
    DecodePrintedMap(t.cose, post);
  }

  /** Main result: any printed authenticator data, with any COSE map in the handled
      subset and any extension bytes after it, parses back to exactly what it reports.
      Parsing panics exactly when the credential ID has more than 65480 bytes. */
  lemma ParsePrinted(curve: Curve, t: Report, post: seq<byte>)
    requires curve.p > 0 && WellFormedReport(t)
    ensures Parse(curve, PrintReport(t) + post) == Meaning(curve, t)
  {
    hide ByteEntries, KeyOfEntries, CoseMapItem, HasFlag, PrintAttested;
    var fixed := t.rpIdHash + [t.flags] + ToBE(t.signCount, 4);
    var data := PrintReport(t) + post;
    assert data[0..32] == t.rpIdHash;
    assert data[33..37] == ToBE(t.signCount, 4);
    Pow256Values();
    FromToBE(t.signCount, 4);
    if t.attested.Some? {
      var a := t.attested.value;
      assert data == fixed + PrintAttested(a) + post;
      ParsePrintedAttested(curve, a, fixed, post,
                           AuthenticatorData(t.rpIdHash, t.flags, t.signCount, [], [], None));
      assert a.cose.Map? by { MapItemIsMap(a.cose); }
    }
  }

  /** On arbitrary bytes: parsing panics exactly when the data announces, and is long
      enough to hold, a credential ID of more than 65480 bytes. */
  lemma PanicsIff(curve: Curve, data: seq<byte>)
    requires curve.p > 0
    ensures Parse(curve, data) == Panicked
       <==> && |data| >= 55
            && HasFlag(data[32], FLAG_AT)
            && FromBE(data[53..55]) > MAX_CREDENTIAL_ID
            && |data| >= 55 + FromBE(data[53..55])
  {
    hide DecodeMap, KeyOfEntries, HasFlag;
    if |data| >= 55 {
      FromBEBound(data[53..55]);
      Pow256Values();
    }
  }

  lemma MapItemIsMap(cose: Item)
    requires CoseMapItem(cose)
    ensures cose.Map?
  {
  }

  // ---------- what is accepted, byte by byte ----------

  lemma TwoBytes(data: seq<byte>, pos: nat)
    requires pos + 2 <= |data|
    ensures FromBE(data[pos..pos + 2]) == 256 * (data[pos] as int) + data[pos + 1]
  {
    var s := data[pos..pos + 2];
    assert s[..1][..0] == [] && s[..1] == [data[pos]];
    assert FromBE(s[..1]) == data[pos];
  }

  /** An integer is one head of one to three bytes; major type 1 negates. Otherwise there
      is nothing, or too little, or a longer argument. */
  lemma IntIff(data: seq<byte>)
    ensures DecodeInt(data) ==
              if data == [] || (data[0] % 32 == 24 && |data| < 2) || (data[0] % 32 == 25 && |data| < 3)
              then IntFailed(Truncated)
              else if data[0] % 32 > 25 then IntFailed(UnsupportedArgument)
              else
                var consumed := if data[0] % 32 == 25 then 3 else if data[0] % 32 == 24 then 2 else 1;
                var n: int := if consumed == 3 then 256 * (data[1] as int) + data[2]
                              else if consumed == 2 then data[1] else data[0] % 32;
                IntRead(if data[0] / 32 == 1 then -1 - n else n, consumed)
  {
    assert data + [] == data;
    if |data| >= 3 {
      TwoBytes(data, 1);
    }
  }

  /** A value is a byte string that fits, with a length of at most two more bytes, or an
      integer, whose bytes are not looked at, or anything else, which stops the map. */
  lemma ValueIff(data: seq<byte>, pos: nat)
    requires pos < |data|
    ensures var (major, additional) := (data[pos] / 32, data[pos] % 32);
            var more := if additional == 24 then 1 else if additional == 25 then 2 else 0;
            var start := pos + 1 + more;
            DecodeValue(data, pos) ==
              if major == 0 || major == 1 then Stepped(start)
              else if major != 2 then Stop
              else if start > |data| then Broken(Truncated)
              else
                var n: int := if more == 2 then 256 * (data[pos + 1] as int) + data[pos + 2]
                              else if more == 1 then data[pos + 1] else additional;
                if start + n > |data| then Broken(Truncated) else Stored(data[start..start + n], start + n)
  {
    assert data + [] == data;
    if pos + 3 <= |data| {
      TwoBytes(data, pos + 1);
    }
  }

  /** Only a map is decoded, with its number of pairs in one or two bytes. */
  lemma MapHead(data: seq<byte>)
    ensures DecodeMap(data).MapRead? ==> data != [] && data[0] / 32 == 5 && (data[0] % 32 == 24 ==> |data| >= 2)
    ensures DecodeMap(data).MapRead? && data[0] % 32 == 0 ==> DecodeMap(data) == MapRead(map[])
    ensures data != [] && data[0] / 32 != 5 ==> DecodeMap(data) == MapFailed(NotAMap)
  {
  }

  /** The key that the entries hold, if they hold one: x under -2 and y under -3, of 32
      bytes each, of a point of the curve. */
  lemma KeyIff(curve: Curve, m: CoseMap, key: Point)
    requires curve.p > 0
    ensures KeyOfEntries(curve, m) == KeyRead(key) <==>
              && -2 in m && |m[-2]| == 32 && -3 in m && |m[-3]| == 32
              && key.x == FromBE(m[-2]) && key.y == FromBE(m[-3])
              && key.x < curve.p && key.y < curve.p && SolvesCurve(curve, key.x, key.y)
  {
    hide SolvesCurve, Square, CurveRhs, FromBE;
    SolvesIff(curve, key.x, key.y);
  }

  /** Main result: what parsing arbitrary bytes yields. The first 37 bytes are the RP-ID
      hash, the flags and the count; when bit 6 of the flags is set, an AAGUID of 16
      bytes, a length of two and so many bytes of credential ID follow, and then a COSE
      map with a key. */
  lemma ParsedIff(curve: Curve, data: seq<byte>, ad: AuthenticatorData)
    requires curve.p > 0
    ensures Parse(curve, data) == Parsed(ad) <==>
              && |data| >= 37
              && ad.rpIdHash == data[..32] && ad.flags == data[32] && ad.signCount == FromBE(data[33..37])
              && if data[32] / 64 % 2 == 0 then ad.aaguid == ad.credentialId == [] && ad.publicKey.None?
                 else
                   && |data| >= 55 && ad.aaguid == data[37..53]
                   && var end := 55 + 256 * (data[53] as int) + data[54];
                      && 55 <= end <= |data| && end < 0x1_0000 && ad.credentialId == data[55..end]
                      && ad.publicKey.Some?
                      && DecodeMap(data[end..]).MapRead?
                      && KeyOfEntries(curve, DecodeMap(data[end..]).entries) == KeyRead(ad.publicKey.value)
  {
    hide DecodeMap, KeyOfEntries, FromBE;
    if |data| >= 55 {
      TwoBytes(data, 53);
    }
  }
}
