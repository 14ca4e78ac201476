/** The inputs of the key derivations: the length-prefixed info of internal/crypto/jwe.go
    and the transcript of internal/service/fido2.go. */
module KdfInfo {
  import opened Bytes
  import EcPoint

  const U32: nat := 0x1_0000_0000

  /** `PutUint32(uint32(len))`, which truncates the length, then the data. */
  function LenPrefixed(data: seq<byte>): (s: seq<byte>)
    ensures |s| == 4 + |data|
  {
    ToBE(|data| % U32, 4) + data
  }

  method AppendLenPrefixed(buf: seq<byte>, data: seq<byte>) returns (out: seq<byte>)
    ensures out == buf + LenPrefixed(data)
  {
    var lenBuf := ToBE(|data| % U32, 4);
    out := buf + lenBuf;
    out := out + data;
  }

  function Info(dst: seq<byte>, direction: seq<byte>, sessionId: seq<byte>): seq<byte> {
    LenPrefixed(dst) + (LenPrefixed(direction) + LenPrefixed(sessionId))
  }

  method HkdfInfo(dst: seq<byte>, direction: seq<byte>, sessionId: seq<byte>) returns (buf: seq<byte>)
    ensures buf == Info(dst, direction, sessionId)
  {
    buf := [];
    buf := AppendLenPrefixed(buf, dst);
    buf := AppendLenPrefixed(buf, direction);
    buf := AppendLenPrefixed(buf, sessionId);
    assert buf == Info(dst, direction, sessionId);
  }

  // ---------- unique parsing ----------

  /** One prefixed field and the bytes after it. */
  function TakeField(s: seq<byte>): Option<(seq<byte>, seq<byte>)> {
    if |s| < 4 then None
    else
      var n := FromBE(s[..4]);
      if |s| < 4 + n then None else Some((s[4..4 + n], s[4 + n..]))
  }

  function ParseInfo(s: seq<byte>): Option<(seq<byte>, seq<byte>, seq<byte>)> {
    var a := TakeField(s);
    if a.None? then None
    else
      var b := TakeField(a.value.1);
      if b.None? then None
      else
        var c := TakeField(b.value.1);
        if c.None? || c.value.1 != [] then None else Some((a.value.0, b.value.0, c.value.0))
  }

  lemma LengthPrefix(n: nat)
    requires n < U32
    ensures FromBE(ToBE(n, 4)) == n
  {
    hide ToBE, FromBE;
    Pow256Values();
    FromToBE(n, 4);
  }

  lemma TakePrefixed(data: seq<byte>, rest: seq<byte>)
    requires |data| < U32
    ensures TakeField(LenPrefixed(data) + rest) == Some((data, rest))
  {
    hide ToBE, FromBE;
    var s := LenPrefixed(data) + rest;
    assert s[..4] == ToBE(|data|, 4);
    assert FromBE(ToBE(|data|, 4)) == |data| by { LengthPrefix(|data|); }
    assert s[4..4 + |data|] == data && s[4 + |data|..] == rest;
  }

  lemma TakenIsPrefixed(s: seq<byte>)
    requires TakeField(s).Some?
    ensures |TakeField(s).value.0| < U32
    ensures s == LenPrefixed(TakeField(s).value.0) + TakeField(s).value.1
  {
    hide FromBE, ToBE;
    var n := FromBE(s[..4]);
    FromBEBound(s[..4]);
    Pow256Values();
    ToFromBE(s[..4]);
    assert s == s[..4] + (s[4..4 + n] + s[4 + n..]);
  }

  /** Main result: parsing inverts the encoding on all fields shorter than 2^32 bytes,
      and only encodings of such fields parse. */
  lemma InfoParses(dst: seq<byte>, direction: seq<byte>, sessionId: seq<byte>)
    requires |dst| < U32 && |direction| < U32 && |sessionId| < U32
    ensures ParseInfo(Info(dst, direction, sessionId)) == Some((dst, direction, sessionId))
  {
    TakePrefixed(dst, LenPrefixed(direction) + LenPrefixed(sessionId));
    TakePrefixed(direction, LenPrefixed(sessionId));
    TakePrefixed(sessionId, []);
    assert LenPrefixed(sessionId) + [] == LenPrefixed(sessionId);
  }

  lemma ParsedIsInfo(s: seq<byte>)
    requires ParseInfo(s).Some?
    ensures var (dst, direction, sessionId) := ParseInfo(s).value;
            s == Info(dst, direction, sessionId) && |dst| < U32 && |direction| < U32 && |sessionId| < U32
  {
    var a := TakeField(s).value;
    var b := TakeField(a.1).value;
    TakenIsPrefixed(s);
    TakenIsPrefixed(a.1);
    TakenIsPrefixed(b.1);
    assert LenPrefixed(TakeField(b.1).value.0) + [] == b.1;
  }

  /** Different inputs derive under different info. */
  lemma InfoInjective(
      dst: seq<byte>, direction: seq<byte>, sessionId: seq<byte>,
      dst': seq<byte>, direction': seq<byte>, sessionId': seq<byte>)
    requires |dst| < U32 && |direction| < U32 && |sessionId| < U32
    requires |dst'| < U32 && |direction'| < U32 && |sessionId'| < U32
    requires Info(dst, direction, sessionId) == Info(dst', direction', sessionId')
    ensures dst == dst' && direction == direction' && sessionId == sessionId'
  {
    InfoParses(dst, direction, sessionId);
    InfoParses(dst', direction', sessionId');
  }

  /** The uint32 prefix truncates: two different triples with a field of 2^32 bytes or
      more share their info. This is about the function alone: the server's dst is a
      constant, its direction "c2s" or "s2c", and request bodies end at 1 MB. */
  lemma LongFieldsCollide(x: seq<byte>, d: seq<byte>, s: seq<byte>)
    requires |x| == |s| == U32 - 4
    ensures Info(LenPrefixed(x), d, s) == Info([], x, d + LenPrefixed(s))
    ensures LenPrefixed(x) != []
  {
    var y := d + LenPrefixed(s);
    assert |LenPrefixed(x)| % U32 == 0 && |y| % U32 == |d| % U32;
    assert LenPrefixed(LenPrefixed(x)) == LenPrefixed([]) + LenPrefixed(x);
    assert LenPrefixed(y) == LenPrefixed(d) + LenPrefixed(s);
  }

  /** Different triples of fields of fewer than n bytes have different info. */
  ghost predicate InjectiveBelow(n: nat) {
    forall dst: seq<byte>, direction: seq<byte>, sessionId: seq<byte>,
           dst': seq<byte>, direction': seq<byte>, sessionId': seq<byte> |
      && |dst| < n && |direction| < n && |sessionId| < n
      && |dst'| < n && |direction'| < n && |sessionId'| < n
      && Info(dst, direction, sessionId) == Info(dst', direction', sessionId') ::
      dst == dst' && direction == direction' && sessionId == sessionId'
  }

  /** Main result: 2^32 is the exact bound for different info. */
  lemma InjectiveIffBelow(n: nat)
    ensures InjectiveBelow(n) <==> n <= U32
  {
    hide Info;
    if n <= U32 {
      forall dst, direction, sessionId, dst', direction', sessionId' |
          && |dst| < n && |direction| < n && |sessionId| < n && |dst'| < n && |direction'| < n && |sessionId'| < n
          && Info(dst, direction, sessionId) == Info(dst', direction', sessionId')
        ensures dst == dst' && direction == direction' && sessionId == sessionId'
      {
        InfoInjective(dst, direction, sessionId, dst', direction', sessionId');
      }
    } else {
      var x := Zeros(U32 - 4);
      LongFieldsCollide(x, [], x);
    }
  }

  // ---------- the FIDO2 transcript ----------

  /** "fido2" || client_epub || server_epub || task, without any lengths. */
  function Transcript(client: seq<byte>, server: seq<byte>, task: seq<byte>): seq<byte> {
    [102, 105, 100, 111, 50] + client + server + task
  }

  lemma TranscriptParts(client: seq<byte>, server: seq<byte>, task: seq<byte>)
    ensures var t := Transcript(client, server, task);
            && |t| == 5 + |client| + |server| + |task|
            && (forall i | 0 <= i < 5 :: t[i] == "fido2"[i] as int)
            && t[5..5 + |client|] == client && t[|t| - |task|..] == task
            && t[5 + |client|..|t| - |task|] == server
  {
  }

  /** The transcript binds both keys and the task: the client's key has been
      unmarshalled, so its length is fixed, and the server's has been marshalled. */
  lemma TranscriptInjective(
      c: EcPoint.Curve, client: seq<byte>, server: EcPoint.Point, task: seq<byte>,
      client': seq<byte>, server': EcPoint.Point, task': seq<byte>)
    requires EcPoint.ValidCurve(c) && EcPoint.OnCurve(c, server) && EcPoint.OnCurve(c, server')
    requires EcPoint.Unmarshal(c, client).Some? && EcPoint.Unmarshal(c, client').Some?
    requires Transcript(client, EcPoint.MarshalUncompressed(c, server), task)
          == Transcript(client', EcPoint.MarshalUncompressed(c, server'), task')
    ensures client == client' && server == server' && task == task'
  {
    hide EcPoint.OnCurve, EcPoint.IsPrime;
    var n := 1 + 2 * c.byteLen;
    var s, s' := EcPoint.MarshalUncompressed(c, server), EcPoint.MarshalUncompressed(c, server');
    var t := Transcript(client, s, task);
    assert t[5..5 + n] == client && t[5..5 + n] == client';
    assert t[5 + n..5 + 2 * n] == s && t[5 + n..5 + 2 * n] == s';
    assert t[5 + 2 * n..] == task && t[5 + 2 * n..] == task';
    EcPoint.UnmarshalMarshalled(c, server);
    EcPoint.UnmarshalMarshalled(c, server');
  }
}
