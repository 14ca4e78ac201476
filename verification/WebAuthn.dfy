/** The WebAuthn checks of internal/webauthn/verify.go: `VerifyAssertion` and
    `VerifyRegistration`. */
module WebAuthn {
  import opened Bytes
  import opened Cbor
  import opened EcPoint
  import Attestation
  import opened AuthData

  /** The parsed clientDataJSON. */
  datatype ClientData = ClientData(typ: string, challenge: string, origin: string)

  /** Library functions, taken as arbitrary deterministic functions. */
  datatype Primitives = Primitives(
    sha256: seq<byte> -> seq<byte>,
    parseClientData: seq<byte> -> Option<ClientData>,
    verifySignature: (Point, seq<byte>, seq<byte>) -> bool)

  datatype RelyingParty = RelyingParty(id: seq<byte>, origins: seq<string>, curve: Curve)

  datatype Verdict = Crashed | Refused | Verified(authData: AuthenticatorData)

  /** The clone-detection rule: a count must grow unless both counts are zero. */
  predicate CountAccepted(presented: nat, stored: nat) {
    (presented == 0 && stored == 0) || presented > stored
  }

  /** The clientDataJSON checks common to both ceremonies. */
  predicate ClientDataOk(prims: Primitives, rp: RelyingParty, raw: seq<byte>, typ: string, challenge: string) {
    match prims.parseClientData(raw)
    case None => false
    case Some(cd) => cd.typ == typ && cd.challenge == challenge && cd.origin in rp.origins
  }

  /** The bound relying party, with the user present and verified. */
  predicate UserVerified(prims: Primitives, rp: RelyingParty, ad: AuthenticatorData) {
    ad.rpIdHash == prims.sha256(rp.id) && HasFlag(ad.flags, FLAG_UP) && HasFlag(ad.flags, FLAG_UV)
  }

  /** What the authenticator signs. */
  function SignedHash(prims: Primitives, authData: seq<byte>, clientData: seq<byte>): seq<byte> {
    prims.sha256(authData + prims.sha256(clientData))
  }

  datatype Assertion = Assertion(authData: seq<byte>, clientData: seq<byte>, signature: seq<byte>)

  function JudgeAssertion(
      prims: Primitives, rp: RelyingParty, a: Assertion, key: Point, storedCount: nat, challenge: string): Verdict
    requires rp.curve.p > 0
  {
    if !ClientDataOk(prims, rp, a.clientData, "webauthn.get", challenge) then Refused
    else
      match Parse(rp.curve, a.authData)
      case Panicked => Crashed
      case Failed(_) => Refused
      case Parsed(ad) =>
        if && UserVerified(prims, rp, ad)
           && prims.verifySignature(key, SignedHash(prims, a.authData, a.clientData), a.signature)
           && CountAccepted(ad.signCount, storedCount)
        then Verified(ad)
        else Refused
  }

  function JudgeRegistration(
      prims: Primitives, rp: RelyingParty, attestation: seq<byte>, spare: seq<byte>, clientData: seq<byte>,
      challenge: string): (v: Verdict)
    requires rp.curve.p > 0
    ensures v.Verified? ==> v.authData.publicKey.Some?
  {
    if !ClientDataOk(prims, rp, clientData, "webauthn.create", challenge) then Refused
    else
      match Attestation.Extract(attestation, spare)
      case Panicked => Crashed
      case Failed(_) => Refused
      case Found(bytes) =>
        match Parse(rp.curve, bytes)
        case Panicked => Crashed
        case Failed(_) => Refused
        case Parsed(ad) =>
          if UserVerified(prims, rp, ad) && HasFlag(ad.flags, FLAG_AT) && ad.publicKey.Some?
          then Verified(ad)
          else Refused
  }

  /** The loop that raises the origin flag. */
  method OriginAllowed(origin: string, allowed: seq<string>) returns (valid: bool)
    ensures valid <==> origin in allowed
  {
    valid := false;
    for i := 0 to |allowed|
      invariant !valid && origin !in allowed[..i]
    {
      if origin == allowed[i] {
        valid := true;
        break;
      }
    }
  }

  method CheckClientData(prims: Primitives, rp: RelyingParty, raw: seq<byte>, typ: string, challenge: string)
    returns (ok: bool)
    ensures ok == ClientDataOk(prims, rp, raw, typ, challenge)
  {
    var parsed := prims.parseClientData(raw);
    if parsed.None? {
      return false;
    }
    var cd := parsed.value;
    if cd.typ != typ {
      return false;
    }
    if cd.challenge != challenge {
      return false;
    }
    ok := OriginAllowed(cd.origin, rp.origins);
  }

  method VerifyAssertion(
      prims: Primitives, rp: RelyingParty, a: Assertion, key: Point, storedCount: nat, challenge: string)
    returns (r: Verdict)
    requires rp.curve.p > 0
    ensures r == JudgeAssertion(prims, rp, a, key, storedCount, challenge)
  {
    var clientOk := CheckClientData(prims, rp, a.clientData, "webauthn.get", challenge);
    if !clientOk {
      return Refused;
    }
    var parsed := ParseAuthenticatorData(rp.curve, a.authData);
    if parsed.Panicked? {
      return Crashed;
    }
    if parsed.Failed? {
      return Refused;
    }
    var ad := parsed.authData;
    if ad.rpIdHash != prims.sha256(rp.id) || !HasFlag(ad.flags, FLAG_UP) || !HasFlag(ad.flags, FLAG_UV) {
      return Refused;
    }
    var clientDataHash := prims.sha256(a.clientData);
    var hash := prims.sha256(a.authData + clientDataHash);
    if !prims.verifySignature(key, hash, a.signature) {
      return Refused;
    }
    if ad.signCount != 0 || storedCount != 0 {
      if ad.signCount <= storedCount {
        return Refused;
      }
    }
    return Verified(ad);
  }

  method VerifyRegistration(
      prims: Primitives, rp: RelyingParty, attestation: seq<byte>, spare: seq<byte>, clientData: seq<byte>,
      challenge: string)
    returns (r: Verdict)
    requires rp.curve.p > 0
    ensures r == JudgeRegistration(prims, rp, attestation, spare, clientData, challenge)
  {
    var clientOk := CheckClientData(prims, rp, clientData, "webauthn.create", challenge);
    if !clientOk {
      return Refused;
    }
    var extracted := Attestation.ExtractAuthData(attestation, spare);
    if extracted.Panicked? {
      return Crashed;
    }
    if extracted.Failed? {
      return Refused;
    }
    var parsed := ParseAuthenticatorData(rp.curve, extracted.authData);
    if parsed.Panicked? {
      return Crashed;
    }
    if parsed.Failed? {
      return Refused;
    }
    var ad := parsed.authData;
    if ad.rpIdHash != prims.sha256(rp.id) {
      return Refused;
    }
    if !HasFlag(ad.flags, FLAG_UP) || !HasFlag(ad.flags, FLAG_UV) || !HasFlag(ad.flags, FLAG_AT) {
      return Refused;
    }
    if ad.publicKey.None? {
      return Refused;
    }
    return Verified(ad);
  }

  /** The credential in a report, if there is one, can be parsed and holds a key. */
  predicate CredentialParses(curve: Curve, t: Report)
    requires curve.p > 0 && WellFormedReport(t)
  {
    match t.attested
    case None => true
    case Some(a) =>
      && |a.credentialId| <= MAX_CREDENTIAL_ID
      && KeyOfEntries(curve, ByteEntries(a.cose.items, map[])).KeyRead?
  }

  /** Main result: on arbitrary bytes, an assertion is accepted exactly when its client
      data are of a "webauthn.get" with the expected challenge and an allowed origin, and
      its authenticator data parse, start with the hash of the RP ID, have bits 0 and 2 of
      the flags (user present and verified) and a count that passes the rule, and are
      signed together with the hash of the client data. */
  lemma AssertionIff(
      prims: Primitives, rp: RelyingParty, a: Assertion, key: Point, storedCount: nat, challenge: string)
    requires rp.curve.p > 0
    ensures var cd, d := prims.parseClientData(a.clientData), a.authData;
            var verdict := JudgeAssertion(prims, rp, a, key, storedCount, challenge);
            && (verdict.Verified? <==>
                  && cd.Some? && cd.value.typ == "webauthn.get" && cd.value.challenge == challenge
                  && cd.value.origin in rp.origins
                  && |d| >= 37 && d[..32] == prims.sha256(rp.id) && d[32] % 2 == 1 && d[32] / 4 % 2 == 1
                  && Parse(rp.curve, d).Parsed?
                  && prims.verifySignature(key, prims.sha256(d + prims.sha256(a.clientData)), a.signature)
                  && (FromBE(d[33..37]) > storedCount || FromBE(d[33..37]) == storedCount == 0))
            && (verdict.Verified? ==> Parse(rp.curve, d) == Parsed(verdict.authData)
                                      && verdict.authData.signCount == FromBE(d[33..37]))
            && (verdict.Crashed? <==>
                  && cd.Some? && cd.value.typ == "webauthn.get" && cd.value.challenge == challenge
                  && cd.value.origin in rp.origins && Parse(rp.curve, d).Panicked?)
  {
    hide DecodeMap, KeyOfEntries, FromBE;
  }

  /** Main result: on arbitrary bytes, a registration is accepted exactly when its client
      data are of a "webauthn.create" with the expected challenge and an allowed origin,
      and the authenticator data in its attestation parse, start with the hash of the RP
      ID, and have bits 0, 2 and 6 of the flags; what is registered is what they hold. */
  lemma RegistrationIff(
      prims: Primitives, rp: RelyingParty, attestation: seq<byte>, spare: seq<byte>, clientData: seq<byte>,
      challenge: string)
    requires rp.curve.p > 0
    ensures var cd, found := prims.parseClientData(clientData), Attestation.Extract(attestation, spare);
            var verdict := JudgeRegistration(prims, rp, attestation, spare, clientData, challenge);
            && (verdict.Verified? <==>
                  && cd.Some? && cd.value.typ == "webauthn.create" && cd.value.challenge == challenge
                  && cd.value.origin in rp.origins && found.Found?
                  && var d := found.authData;
                     && |d| >= 37 && d[..32] == prims.sha256(rp.id)
                     && d[32] % 2 == 1 && d[32] / 4 % 2 == 1 && d[32] / 64 % 2 == 1 && Parse(rp.curve, d).Parsed?)
            && (verdict.Verified? ==> Parse(rp.curve, found.authData) == Parsed(verdict.authData))
            && (verdict.Crashed? <==>
                  && cd.Some? && cd.value.typ == "webauthn.create" && cd.value.challenge == challenge
                  && cd.value.origin in rp.origins
                  && (found.Panicked? || (found.Found? && Parse(rp.curve, found.authData).Panicked?)))
  {
    hide Attestation.Extract, DecodeMap, KeyOfEntries, FromBE;
  }

  /** The same for printed authenticator data, read off the report `t` itself: with or
      without a credential, and followed by any extension bytes, an assertion is accepted
      exactly when each check holds of t and the credential parses, and t's own count is
      what is stored; it crashes exactly for a credential ID that is too long. */
  lemma PrintedAssertion(
      prims: Primitives, rp: RelyingParty, t: Report, extensions: seq<byte>,
      clientData: seq<byte>, signature: seq<byte>, key: Point, storedCount: nat, challenge: string)
    requires rp.curve.p > 0 && WellFormedReport(t)
    ensures var data, cd := PrintReport(t) + extensions, prims.parseClientData(clientData);
            var assertion := Assertion(data, clientData, signature);
            var verdict := JudgeAssertion(prims, rp, assertion, key, storedCount, challenge);
            var client := cd.Some? && cd.value.typ == "webauthn.get" && cd.value.challenge == challenge
                          && cd.value.origin in rp.origins;
            && (verdict.Crashed? <==>
                  client && t.attested.Some? && |t.attested.value.credentialId| > MAX_CREDENTIAL_ID)
            && (verdict.Verified? <==>
                  && client && CredentialParses(rp.curve, t)
                  && t.rpIdHash == prims.sha256(rp.id) && t.flags % 2 == 1 && t.flags / 4 % 2 == 1
                  && prims.verifySignature(key, prims.sha256(data + prims.sha256(clientData)), signature)
                  && (t.signCount > storedCount || t.signCount == storedCount == 0))
            && (verdict.Verified? ==> verdict.authData.signCount == t.signCount)
  {
    hide Parse, PrintReport, KeyOfEntries, ByteEntries, CoseMapItem;
    ParsePrinted(rp.curve, t, extensions);
    if t.attested.Some? {
      MapItemIsMap(t.attested.value.cose);
    }
  }

  /** Main result: for every attestation object printed from a map in the handled subset
      whose first "authData" entry is printed from a report `t`, followed by any extension
      bytes, registration crashes, accepts or refuses by the client data and t alone, and
      stores t's own credential ID, AAGUID, count and key. */
  lemma PrintedRegistration(
      prims: Primitives, rp: RelyingParty, obj: Item, t: Report, extensions: seq<byte>, post: seq<byte>,
      spare: seq<byte>, clientData: seq<byte>, challenge: string)
    requires rp.curve.p > 0
    requires obj.Map? && WellFormed(obj) && (obj.w.W0? || obj.w.W1?) && Attestation.TextKeysShort(obj.items)
    requires WellFormedReport(t)
    requires Attestation.Lookup(obj.items) == Attestation.Found(PrintReport(t) + extensions)
    ensures var cd := prims.parseClientData(clientData);
            var verdict := JudgeRegistration(prims, rp, Print(obj) + post, spare, clientData, challenge);
            var client := cd.Some? && cd.value.typ == "webauthn.create" && cd.value.challenge == challenge
                          && cd.value.origin in rp.origins;
            && (verdict.Crashed? <==>
                  client && t.attested.Some? && |t.attested.value.credentialId| > MAX_CREDENTIAL_ID)
            && (verdict.Verified? <==>
                  && client && t.attested.Some? && CredentialParses(rp.curve, t)
                  && t.rpIdHash == prims.sha256(rp.id) && t.flags % 2 == 1 && t.flags / 4 % 2 == 1)
            && (verdict.Verified? ==>
                  var a := t.attested.value;
                  && verdict.authData.rpIdHash == t.rpIdHash && verdict.authData.flags == t.flags
                  && verdict.authData.signCount == t.signCount && verdict.authData.aaguid == a.aaguid
                  && verdict.authData.credentialId == a.credentialId && verdict.authData.publicKey.Some?
                  && KeyOfEntries(rp.curve, ByteEntries(a.cose.items, map[]))
                     == KeyRead(verdict.authData.publicKey.value))
  {
    hide Attestation.Lookup, Attestation.TextKeysShort, Attestation.Extract, Parse, PrintReport, Print, ByteEntries,
         KeyOfEntries, CoseMapItem;
    Attestation.ExtractPrinted(obj, post, spare);
    LongEnough(obj, t, extensions);
    ParsePrinted(rp.curve, t, extensions);
    if t.attested.Some? {
      MapItemIsMap(t.attested.value.cose);
    }
  }

  /** Only points of the curve are registered. */
  lemma RegisteredKeyOnCurve(
      prims: Primitives, rp: RelyingParty, attestation: seq<byte>, spare: seq<byte>, clientData: seq<byte>,
      challenge: string)
    requires rp.curve.p > 0
    requires JudgeRegistration(prims, rp, attestation, spare, clientData, challenge).Verified?
    ensures var ad := JudgeRegistration(prims, rp, attestation, spare, clientData, challenge).authData;
            OnCurve(rp.curve, ad.publicKey.value)
  {
    hide Attestation.Extract, DecodeMap, OnCurve, HasFlag, ClientDataOk;
  }

  /** An object that holds a report is not too short. */
  lemma LongEnough(obj: Item, t: Report, extensions: seq<byte>)
    requires obj.Map? && WellFormed(obj) && WellFormedReport(t)
    requires Attestation.Lookup(obj.items) == Attestation.Found(PrintReport(t) + extensions)
    ensures |Print(obj)| >= 3
  {
    LookupIsPrinted(obj.items);
  }

  lemma {:induction false} LookupIsPrinted(items: seq<Item>)
    requires AllWellFormed(items) && Attestation.Lookup(items).Found?
    ensures |PrintAll(items)| >= |Attestation.Lookup(items).authData|
    decreases |items|
  {
    hide Print;
    PrintPair(items);
    if !Attestation.IsAuthDataKey(items[0]) {
      LookupIsPrinted(items[2..]);
    } else {
      PrintedPayload(items[1]);
    }
  }

  lemma PrintedPayload(item: Item)
    requires WellFormed(item) && item.ByteString?
    ensures |Print(item)| >= |item.payload|
  {
  }
}
