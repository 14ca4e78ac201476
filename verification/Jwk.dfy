/** `pubKeyToJWK` of internal/service/eudiw_handlers.go: the coordinates that a
    wallet attestation publishes for a stored key. */
module Jwk {
  import opened Bytes
  import opened EcPoint

  datatype JwkResult =
    | UnsupportedCurve
    | BadUncompressedPoint
    | BadCompressedPoint
    | BadPrefix
    | Panicked
    | Jwk(crv: string, x: seq<byte>, y: seq<byte>)

  /** The curves by name: "P-256", "P-384" and "P-521" in the service. */
  ghost predicate ValidCurves(curves: map<string, Curve>) {
    forall name | name in curves :: ValidCurve(curves[name])
  }

  /** `elliptic.UnmarshalCompressed`: unlike `Decompress` it insists on a reduced x
      and on a point of the curve. */
  function UnmarshalCompressed(c: Curve, sqrt: nat -> Option<nat>, data: seq<byte>): Option<Point>
    requires ValidCurve(c) && ModSqrt(c, sqrt)
    requires data != [] && (data[0] == 2 || data[0] == 3)
  {
    match Decompress(c, sqrt, data)
    case Rejected(_) => None
    case Accepted(q) => if OnCurve(c, q) then Some(q) else None
  }

  /** Left-pads the shortest encoding of n with one zero at a time. */
  method Pad(n: nat, byteLen: nat) returns (bytes: seq<byte>)
    requires n < Pow256(byteLen)
    ensures bytes == ToBE(n, byteLen)
  {
    bytes := BigBytes(n);
    PaddedBigBytes(n, byteLen);
    while |bytes| < byteLen
      invariant |bytes| <= byteLen
      invariant Zeros(byteLen - |bytes|) + bytes == ToBE(n, byteLen)
    {
      assert Zeros(byteLen - |bytes|) + bytes == Zeros(byteLen - |bytes| - 1) + ([0] + bytes);
      bytes := [0] + bytes;
    }
  }

  /** What the conversion yields. */
  function Convert(curves: map<string, Curve>, sqrt: nat -> Option<nat>, point: seq<byte>, name: string): JwkResult
    requires ValidCurves(curves) && (name in curves ==> ModSqrt(curves[name], sqrt))
  {
    if name !in curves then UnsupportedCurve
    else
      var c := curves[name];
      if point == [] then Panicked
      else if point[0] == 4 then
        if |point| != 1 + 2 * c.byteLen then BadUncompressedPoint
        else Jwk(name, point[1..1 + c.byteLen], point[1 + c.byteLen..])
      else if point[0] == 2 || point[0] == 3 then
        match UnmarshalCompressed(c, sqrt, point)
        case None => BadCompressedPoint
        case Some(q) => Jwk(name, ToBE(q.x, c.byteLen), ToBE(q.y, c.byteLen))
      else BadPrefix
  }

  method PubKeyToJwk(curves: map<string, Curve>, sqrt: nat -> Option<nat>, point: seq<byte>, name: string)
    returns (r: JwkResult)
    requires ValidCurves(curves) && (name in curves ==> ModSqrt(curves[name], sqrt))
    ensures r == Convert(curves, sqrt, point, name)
  {
    if name !in curves {
      return UnsupportedCurve;
    }
    var c := curves[name];
    if |point| > 0 && point[0] == 4 {
      if |point| != 1 + 2 * c.byteLen {
        return BadUncompressedPoint;
      }
      return Jwk(name, point[1..1 + c.byteLen], point[1 + c.byteLen..]);
    } else if |point| > 0 && (point[0] == 2 || point[0] == 3) {
      var q := UnmarshalCompressed(c, sqrt, point);
      if q.None? {
        return BadCompressedPoint;
      }
      var x := Pad(q.value.x, c.byteLen);
      var y := Pad(q.value.y, c.byteLen);
      return Jwk(name, x, y);
    } else {
      // The error message indexes point[0].
      return if point == [] then Panicked else BadPrefix;
    }
  }

  /** A key generated in the HSM is compressed for the store (`readECPoint`) and later
      published as a JWK. For every point of the curve the published coordinates are
      the ones the HSM reported, the same as publishing the uncompressed point. */
  lemma PublishedCoordinates(curves: map<string, Curve>, sqrt: nat -> Option<nat>, name: string, q: Point)
    requires ValidCurves(curves) && name in curves && ModSqrt(curves[name], sqrt)
    requires OnCurve(curves[name], q)
    ensures var c := curves[name];
            var reported := MarshalUncompressed(c, q);
            && Unmarshal(c, reported) == Some(q)
            && Convert(curves, sqrt, Compress(c, q), name) == Convert(curves, sqrt, reported, name)
            && var jwk := Convert(curves, sqrt, reported, name);
               jwk.Jwk? && FromBE(jwk.x) == q.x && FromBE(jwk.y) == q.y
  {
    var c := curves[name];
    var reported := MarshalUncompressed(c, q);
    assert reported[1..1 + c.byteLen] == ToBE(q.x, c.byteLen);
    assert reported[1 + c.byteLen..] == ToBE(q.y, c.byteLen);
    UnmarshalMarshalled(c, q);
    DecompressCompressed(c, sqrt, q);
    FromToBE(q.x, c.byteLen);
    FromToBE(q.y, c.byteLen);
  }

  /** The bytes publish these coordinates: both follow 04, or the first follows 02 or 03,
      as the second is even or odd, and together they are a point of the curve. */
  ghost predicate Publishes(c: Curve, point: seq<byte>, x: seq<byte>, y: seq<byte>)
    requires c.p > 0
  {
    && |x| == |y| == c.byteLen
    && (|| point == [4] + x + y
        || (&& point == [2 + FromBE(y) % 2] + x
            && FromBE(x) < c.p && FromBE(y) < c.p && SolvesCurve(c, FromBE(x), FromBE(y))))
  }

  lemma CompressedIff(c: Curve, sqrt: nat -> Option<nat>, point: seq<byte>, q: Point)
    requires ValidCurve(c) && ModSqrt(c, sqrt) && point != [] && (point[0] == 2 || point[0] == 3)
    ensures UnmarshalCompressed(c, sqrt, point) == Some(q) <==> OnCurve(c, q) && point == Compress(c, q)
  {
    hide Decompress, Compress, OnCurve, IsPrime, ModSqrt;
    if UnmarshalCompressed(c, sqrt, point) == Some(q) {
      CompressDecompressed(c, sqrt, point);
    }
    if OnCurve(c, q) && point == Compress(c, q) {
      DecompressCompressed(c, sqrt, q);
    }
  }

  /** The coordinates that a compressed point publishes. */
  lemma PublishesCompressed(c: Curve, point: seq<byte>, q: Point, x: seq<byte>, y: seq<byte>)
    requires ValidCurve(c) && point != [] && point[0] != 4
    requires x == ToBE(q.x, c.byteLen) && y == ToBE(q.y, c.byteLen) && q.x < c.p && q.y < c.p
    ensures Publishes(c, point, x, y) <==> OnCurve(c, q) && point == Compress(c, q)
  {
    hide ToBE, FromBE, Square, CurveRhs, SolvesCurve, IsPrime, Pow256;
    FromToBE(q.x, c.byteLen);
    FromToBE(q.y, c.byteLen);
    SolvesIff(c, q.x, q.y);
  }

  /** Main result: of the bytes stored for a key, on a curve that is known, exactly the
      encodings of coordinates of the right width are published, as those coordinates:
      compressed ones only of points of the curve. No point at all panics. */
  lemma ConvertIff(
      curves: map<string, Curve>, sqrt: nat -> Option<nat>, point: seq<byte>, name: string, x: seq<byte>, y: seq<byte>)
    requires ValidCurves(curves) && (name in curves ==> ModSqrt(curves[name], sqrt))
    ensures Convert(curves, sqrt, point, name) == Jwk(name, x, y) <==>
              name in curves && Publishes(curves[name], point, x, y)
    ensures var r := Convert(curves, sqrt, point, name);
            && (r.UnsupportedCurve? <==> name !in curves)
            && (r.Panicked? <==> name in curves && point == [])
            && (r.BadPrefix? <==> name in curves && point != [] && point[0] !in {2, 3, 4})
            && (r.BadUncompressedPoint? ==> point[0] == 4) && (r.BadCompressedPoint? ==> point[0] in {2, 3})
            && (r.Jwk? ==> r.crv == name)
  {
    hide UnmarshalCompressed, SolvesCurve, OnCurve, Compress, ModSqrt, ToBE, FromBE;
    if name in curves && point != [] {
      var c := curves[name];
      if point[0] == 4 {
        UncompressedIff(c, point, x, y);
      } else if point[0] == 2 || point[0] == 3 {
        CompressedConverts(curves, sqrt, point, name, x, y);
      }
    }
  }

  lemma UncompressedIff(c: Curve, point: seq<byte>, x: seq<byte>, y: seq<byte>)
    requires c.p > 0 && point != [] && point[0] == 4
    ensures Publishes(c, point, x, y) <==>
              && |point| == 1 + 2 * c.byteLen && x == point[1..1 + c.byteLen] && y == point[1 + c.byteLen..]
  {
    hide SolvesCurve, FromBE;
    if |point| == 1 + 2 * c.byteLen && x == point[1..1 + c.byteLen] && y == point[1 + c.byteLen..] {
      assert point == [4] + x + y;
    }
  }

  lemma CompressedConverts(
      curves: map<string, Curve>, sqrt: nat -> Option<nat>, point: seq<byte>, name: string, x: seq<byte>, y: seq<byte>)
    requires ValidCurves(curves) && name in curves && ModSqrt(curves[name], sqrt)
    requires point != [] && (point[0] == 2 || point[0] == 3)
    ensures Convert(curves, sqrt, point, name) == Jwk(name, x, y) <==> Publishes(curves[name], point, x, y)
  {
    hide UnmarshalCompressed, SolvesCurve, Compress, ModSqrt, ToBE, FromBE, IsPrime, Square, CurveRhs;
    var c := curves[name];
    var r := UnmarshalCompressed(c, sqrt, point);
    if r.Some? && Convert(curves, sqrt, point, name) == Jwk(name, x, y) {
      CompressedIff(c, sqrt, point, r.value);
      PublishesCompressed(c, point, r.value, x, y);
    }
    if Publishes(c, point, x, y) {
      var q := Point(FromBE(x), FromBE(y));
      ToFromBE(x);
      ToFromBE(y);
      PublishesCompressed(c, point, q, x, y);
      CompressedIff(c, sqrt, point, q);
    }
  }
}
