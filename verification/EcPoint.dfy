/** Elliptic-curve points in affine coordinates and their compressed encoding
    (SEC 1, sections 2.3.3 and 2.3.4), as in internal/crypto/ecdh.go, with real
    modular arithmetic over any odd prime. */
module EcPoint {
  import opened Bytes

  datatype Curve = Curve(p: nat, b: nat, byteLen: nat)

  datatype Point = Point(x: nat, y: nat)

  datatype PointError = Empty | BadLength | BadFormat | NoSquareRoot | NotOnCurve

  datatype Decoded = Rejected(error: PointError) | Accepted(point: Point)

  ghost predicate IsPrime(p: nat) {
    p >= 2 && forall d: nat {:trigger p % d} :: 1 < d < p ==> p % d != 0
  }

  /** An odd prime modulus whose residues fit the encoded width. */
  ghost predicate ValidCurve(c: Curve) {
    IsPrime(c.p) && c.p % 2 == 1 && c.p <= Pow256(c.byteLen)
  }

  /** x^3 - 3x + b mod p, the right-hand side of a NIST curve equation. */
  function CurveRhs(c: Curve, x: nat): (a: nat)
    requires c.p > 0
    ensures a < c.p
  {
    (x * x * x - 3 * x + c.b) % c.p
  }

  function Square(y: nat, p: nat): nat
    requires p > 0
  {
    y * y % p
  }

  /** Reduced coordinates that satisfy the curve equation (`IsOnCurve`). */
  predicate OnCurve(c: Curve, q: Point)
    requires c.p > 0
  {
    q.x < c.p && q.y < c.p && Square(q.y, c.p) == CurveRhs(c, q.x)
  }

  // ---------- modular facts ----------

  lemma ProductSize(p: int, d: int)
    requires p >= 0
    ensures d >= 1 ==> p * d >= p
    ensures d <= -1 ==> p * d + p <= 0
  {
  }

  lemma ModUnique(p: nat, k: int, r: nat)
    requires r < p
    ensures (p * k + r) % p == r
  {
    var n := p * k + r;
    var d := k - n / p;
    assert n == p * (n / p) + n % p;
    assert p * d == n % p - r;
    ProductSize(p, d);
  }

  /** Divisibility survives subtracting a multiple. */
  lemma DividesLinear(p: nat, a: int, k: int, b: int)
    requires p > 0 && a % p == 0 && b % p == 0
    ensures (a - k * b) % p == 0 && (a + k * b) % p == 0
  {
    var i, j := a / p, b / p;
    assert a == p * i && b == p * j;
    assert k * b == p * (k * j);
    assert a - k * b == p * (i - k * j) + 0;
    assert a + k * b == p * (i + k * j) + 0;
    ModUnique(p, i - k * j, 0);
    ModUnique(p, i + k * j, 0);
  }

  lemma ModDifference(p: nat, a: int, b: int)
    requires p > 0
    ensures a % p == b % p <==> (a - b) % p == 0
  {
    var i, j := a / p, b / p;
    assert a == p * i + a % p && b == p * j + b % p;
    var d := a % p - b % p;
    assert a - b == p * (i - j) + d;
    if d >= 0 {
      ModUnique(p, i - j, d);
    } else {
      assert a - b == p * (i - j - 1) + (p + d);
      ModUnique(p, i - j - 1, p + d);
    }
  }

  /** Euclid's algorithm: some common divisor of n and m keeps `p | _ * b`. */
  lemma {:induction false} CommonDivisor(p: nat, b: int, n: nat, m: nat) returns (g: nat)
    requires p > 0 && n > 0
    requires (n * b) % p == 0 && (m * b) % p == 0
    ensures g > 0 && n % g == 0 && m % g == 0 && (g * b) % p == 0
    decreases m
  {
    if m == 0 {
      g := n;
    } else {
      var q, r := n / m, n % m;
      assert n == q * m + r;
      assert r * b == n * b - q * (m * b);
      DividesLinear(p, n * b, q, m * b);
      g := CommonDivisor(p, b, m, r);
      DividesLinear(g, r, q, m);
    }
  }

  /** Euclid's lemma. */
  lemma PrimeDividesProduct(p: nat, a: nat, b: int)
    requires IsPrime(p) && (a * b) % p == 0
    ensures a % p == 0 || b % p == 0
  {
    assert (p * b) % p == 0 by { ModUnique(p, b, 0); }
    var g := CommonDivisor(p, b, p, a);
    assert g == 1 || g == p by {
      if g > p { ModUnique(g, 0, p); }
    }
  }

  lemma SmallMultiple(p: nat, n: nat)
    requires 0 < n < 2 * p && n % p == 0
    ensures n == p
  {
    if n < p {
      ModUnique(p, 0, n);
    } else {
      ModUnique(p, 1, n - p);
    }
  }

  lemma DifferenceOrSum(p: nat, y: nat, r: nat)
    requires IsPrime(p) && r <= y
    requires Square(y, p) == Square(r, p)
    ensures (y - r) % p == 0 || (y + r) % p == 0
  {
    var d, s := y - r, y + r;
    assert (d * s) % p == 0 by {
      ModDifference(p, y * y, r * r);
      assert y * y - r * r == d * s;
    }
    hide Square, IsPrime;
    PrimeDividesProduct(p, d, s);
  }

  /** Two square roots of the same residue are equal or sum to the modulus. */
  lemma TwoRoots(p: nat, y: nat, r: nat)
    requires IsPrime(p) && y < p && r < p
    requires Square(y, p) == Square(r, p)
    ensures y == r || y + r == p
  {
    hide Square, IsPrime;
    if y != r {
      var hi, lo := if y < r then r else y, if y < r then y else r;
      DifferenceOrSum(p, hi, lo);
      if (hi - lo) % p == 0 {
        SmallMultiple(p, hi - lo);
      } else {
        SmallMultiple(p, hi + lo);
      }
    }
  }

  /** Negation squares to the same residue. */
  lemma SquareOfNegation(p: nat, r: nat)
    requires p > 0 && r <= p
    ensures Square(p - r, p) == Square(r, p)
  {
    assert (p - r) * (p - r) - r * r == p * (p - 2 * r) + 0;
    ModUnique(p, p - 2 * r, 0);
    ModDifference(p, (p - r) * (p - r), r * r);
  }

  lemma SquareOfZero(p: nat)
    requires p > 0
    ensures Square(0, p) == 0
  {
  }

  // ---------- encoding ----------

  /** 02 or 03 by the parity of y, then x in fixed width. */
  function Compress(c: Curve, q: Point): (s: seq<byte>)
    ensures |s| == 1 + c.byteLen
  {
    [if q.y % 2 == 0 then 2 else 3] + ToBE(q.x, c.byteLen)
  }

  /** `MarshalCompressedPublicKey`: x is copied, in its shortest form, into the tail
      of a zeroed buffer. */
  method MarshalCompressedPublicKey(c: Curve, q: Point) returns (compressed: array<byte>)
    requires q.x < Pow256(c.byteLen)
    ensures fresh(compressed) && compressed[..] == Compress(c, q)
  {
    compressed := new byte[1 + c.byteLen](_ => 0);
    compressed[0] := if q.y % 2 == 0 then 2 else 3;
    var xBytes := BigBytes(q.x);
    PaddedBigBytes(q.x, c.byteLen);
    var start := 1 + c.byteLen - |xBytes|;
    forall i | 0 <= i < |xBytes| {
      compressed[start + i] := xBytes[i];
    }
    assert compressed[1..] == Zeros(c.byteLen - |xBytes|) + xBytes;
    assert compressed[..] == [compressed[0]] + compressed[1..];
  }

  // ---------- decoding ----------

  /** What `big.Int.ModSqrt(a, p)` may answer: any root in [0, p), or none when
      there is none. */
  ghost predicate SqrtAnswer(root: Option<nat>, a: nat, p: nat)
    requires p > 0
  {
    match root
    case Some(r) => r < p && Square(r, p) == a
    case None => forall r: nat | r < p :: Square(r, p) != a
  }

  ghost predicate ModSqrt(c: Curve, sqrt: nat -> Option<nat>)
    requires c.p > 0
  {
    forall a: nat | a < c.p :: SqrtAnswer(sqrt(a), a, c.p)
  }

  /** The root of the right parity, when x has one (`decompressY`). */
  function ChooseY(c: Curve, sqrt: nat -> Option<nat>, x: nat, odd: bool): Option<nat>
    requires c.p > 0 && ModSqrt(c, sqrt)
  {
    match sqrt(CurveRhs(c, x))
    case None => None
    case Some(r) =>
      assert SqrtAnswer(sqrt(CurveRhs(c, x)), CurveRhs(c, x), c.p);
      Some(if (r % 2 == 1) == odd then r else c.p - r)
  }

  /** An uncompressed encoding 04 || x || y of a point (`elliptic.Unmarshal`). */
  function Unmarshal(c: Curve, data: seq<byte>): Option<Point>
    requires c.p > 0
  {
    if |data| != 1 + 2 * c.byteLen || data[0] != 4 then None
    else
      var q := Point(FromBE(data[1..1 + c.byteLen]), FromBE(data[1 + c.byteLen..]));
      if OnCurve(c, q) then Some(q) else None
  }

  function MarshalUncompressed(c: Curve, q: Point): (s: seq<byte>)
    ensures |s| == 1 + 2 * c.byteLen && s[0] == 4
  {
    [4] + ToBE(q.x, c.byteLen) + ToBE(q.y, c.byteLen)
  }

  function Decompress(c: Curve, sqrt: nat -> Option<nat>, data: seq<byte>): Decoded
    requires c.p > 0 && ModSqrt(c, sqrt)
  {
    if data == [] then Rejected(Empty)
    else if data[0] == 4 then
      match Unmarshal(c, data)
      case None => Rejected(NotOnCurve)
      case Some(q) => Accepted(q)
    else if data[0] == 2 || data[0] == 3 then
      if |data| != 1 + c.byteLen then Rejected(BadLength)
      else
        match ChooseY(c, sqrt, FromBE(data[1..]), data[0] == 3)
        case None => Rejected(NoSquareRoot)
        case Some(y) => Accepted(Point(FromBE(data[1..]), y))
    else Rejected(BadFormat)
  }

  lemma ReducedRhs(c: Curve, x: nat, x3: nat, threeX: nat)
    requires c.p > 0
    requires x3 == x * x * x % c.p && threeX == 3 * x % c.p
    ensures (x3 - threeX + c.b) % c.p == CurveRhs(c, x)
  {
    var i, j := x * x * x / c.p, 3 * x / c.p;
    assert x * x * x == c.p * i + x3 && 3 * x == c.p * j + threeX;
    var full := x * x * x - 3 * x + c.b;
    assert full - (x3 - threeX + c.b) == c.p * (i - j) + 0;
    ModUnique(c.p, i - j, 0);
    ModDifference(c.p, full, x3 - threeX + c.b);
  }

  /** `decompressY`, with big integers updated step by step. */
  method DecompressY(c: Curve, sqrt: nat -> Option<nat>, x: nat, odd: bool) returns (result: Option<nat>)
    requires c.p > 0 && ModSqrt(c, sqrt)
    ensures result == ChooseY(c, sqrt, x, odd)
  {
    var x3 := x * x;
    x3 := x3 * x;
    x3 := x3 % c.p;
    var threeX := 3 * x;
    threeX := threeX % c.p;
    var y2 := x3 - threeX;
    y2 := y2 + c.b;
    y2 := y2 % c.p;
    ReducedRhs(c, x, x3, threeX);

    result := sqrt(y2);
    if result.None? {
      return;
    }
    var y := result.value;
    if (y % 2 == 1) != odd {
      assert SqrtAnswer(sqrt(y2), y2, c.p);
      y := c.p - y;
    }
    return Some(y);
  }

  /** `DecompressPublicKey`. */
  method DecompressPublicKey(c: Curve, sqrt: nat -> Option<nat>, data: seq<byte>) returns (r: Decoded)
    requires c.p > 0 && ModSqrt(c, sqrt)
    ensures r == Decompress(c, sqrt, data)
  {
    if data == [] {
      return Rejected(Empty);
    }
    match data[0] {
      case 4 =>
        var q := Unmarshal(c, data);
        return if q.Some? then Accepted(q.value) else Rejected(NotOnCurve);
      case 2 | 3 =>
        if |data| != 1 + c.byteLen {
          return Rejected(BadLength);
        }
        var x := FromBE(data[1..]);
        var y := DecompressY(c, sqrt, x, data[0] == 3);
        return if y.Some? then Accepted(Point(x, y.value)) else Rejected(NoSquareRoot);
      case _ =>
        return Rejected(BadFormat);
    }
  }

  // ---------- the encodings are inverse ----------

  lemma ChosenY(c: Curve, sqrt: nat -> Option<nat>, q: Point)
    requires ValidCurve(c) && ModSqrt(c, sqrt) && OnCurve(c, q)
    ensures ChooseY(c, sqrt, q.x, q.y % 2 == 1) == Some(q.y)
  {
    hide Square, CurveRhs, IsPrime;
    var a := CurveRhs(c, q.x);
    assert SqrtAnswer(sqrt(a), a, c.p);
    assert Square(q.y, c.p) == a;
    assert sqrt(a).Some?;
    TwoRoots(c.p, q.y, sqrt(a).value);
  }

  /** Decompressing the compressed form of any point on the curve returns that point,
      whichever square root is picked. */
  lemma DecompressCompressed(c: Curve, sqrt: nat -> Option<nat>, q: Point)
    requires ValidCurve(c) && ModSqrt(c, sqrt) && OnCurve(c, q)
    ensures Decompress(c, sqrt, Compress(c, q)) == Accepted(q)
  {
    var data := Compress(c, q);
    assert data[1..] == ToBE(q.x, c.byteLen);
    FromToBE(q.x, c.byteLen);
    ChosenY(c, sqrt, q);
  }

  /** A chosen y has the requested parity, is at most p, and is a root. */
  lemma ChosenYIsRoot(c: Curve, sqrt: nat -> Option<nat>, x: nat, odd: bool)
    requires ValidCurve(c) && ModSqrt(c, sqrt)
    ensures match ChooseY(c, sqrt, x, odd)
            case Some(y) =>
              && y <= c.p
              && (y % 2 == 1) == odd
              && Square(y, c.p) == CurveRhs(c, x)
              && (y == c.p <==> CurveRhs(c, x) == 0 && odd)
            case None => forall y: nat | y < c.p :: Square(y, c.p) != CurveRhs(c, x)
  {
    hide Square, CurveRhs, IsPrime;
    SquareOfZero(c.p);
    var a := CurveRhs(c, x);
    assert SqrtAnswer(sqrt(a), a, c.p);
    if sqrt(a).Some? {
      var r := sqrt(a).value;
      SquareOfNegation(c.p, r);
      if a == 0 {
        TwoRoots(c.p, 0, r);
      }
    }
  }

  /** Recompressing any accepted 02/03 encoding gives back the same bytes, and the
      decoded pair satisfies the curve equation modulo p. */
  lemma CompressDecompressed(c: Curve, sqrt: nat -> Option<nat>, data: seq<byte>)
    requires ValidCurve(c) && ModSqrt(c, sqrt)
    requires data != [] && data[0] != 4
    requires Decompress(c, sqrt, data).Accepted?
    ensures var q := Decompress(c, sqrt, data).point;
            Compress(c, q) == data && Square(q.y, c.p) == CurveRhs(c, q.x)
  {
    ChosenYIsRoot(c, sqrt, FromBE(data[1..]), data[0] == 3);
    ToFromBE(data[1..]);
    assert data == [data[0]] + data[1..];
  }

  /** When a compressed encoding is accepted: exactly when it has the right length
      and its x, reduced or not, is the coordinate of some point. */
  lemma AcceptedIffOnCurve(c: Curve, sqrt: nat -> Option<nat>, data: seq<byte>)
    requires ValidCurve(c) && ModSqrt(c, sqrt)
    requires data != [] && (data[0] == 2 || data[0] == 3)
    ensures Decompress(c, sqrt, data).Accepted?
       <==> |data| == 1 + c.byteLen
            && exists y: nat | y < c.p :: Square(y, c.p) == CurveRhs(c, FromBE(data[1..]))
  {
    var x := FromBE(data[1..]);
    ChosenYIsRoot(c, sqrt, x, data[0] == 3);
    var a := CurveRhs(c, x);
    assert SqrtAnswer(sqrt(a), a, c.p);
    if sqrt(a).Some? {
      assert Square(sqrt(a).value, c.p) == a;
    }
  }

  /** An accepted compressed encoding decodes to reduced coordinates, hence to a point
      of the curve, exactly when its x is below p and it does not ask for the odd
      root of zero. The code makes neither check. */
  lemma AcceptedIsReduced(c: Curve, sqrt: nat -> Option<nat>, data: seq<byte>)
    requires ValidCurve(c) && ModSqrt(c, sqrt)
    requires data != [] && data[0] != 4
    requires Decompress(c, sqrt, data).Accepted?
    ensures OnCurve(c, Decompress(c, sqrt, data).point)
       <==> FromBE(data[1..]) < c.p && !(CurveRhs(c, FromBE(data[1..])) == 0 && data[0] == 3)
  {
    ChosenYIsRoot(c, sqrt, FromBE(data[1..]), data[0] == 3);
  }

  lemma RhsPeriodic(c: Curve, x: nat)
    requires c.p > 0
    ensures CurveRhs(c, x + c.p) == CurveRhs(c, x)
  {
    var p, z := c.p, x + c.p;
    var k := 3 * x * x + 3 * x * p + p * p - 3;
    var a, b := z * z * z - 3 * z + c.b, x * x * x - 3 * x + c.b;
    assert a - b == p * k + 0 by {
      assert z * z == x * x + 2 * (x * p) + p * p;
      assert z * z * z == x * x * x + p * (3 * x * x + 3 * x * p + p * p);
    }
    ModUnique(p, k, 0);
    ModDifference(p, a, b);
  }

  /** Decompression of a prefix and a coordinate that fits. */
  lemma DecompressPrefixed(c: Curve, sqrt: nat -> Option<nat>, prefix: byte, x: nat)
    requires c.p > 0 && ModSqrt(c, sqrt) && x < Pow256(c.byteLen) && (prefix == 2 || prefix == 3)
    ensures var r := Decompress(c, sqrt, [prefix] + ToBE(x, c.byteLen));
            match ChooseY(c, sqrt, x, prefix == 3)
            case None => r == Rejected(NoSquareRoot)
            case Some(y) => r == Accepted(Point(x, y))
  {
    hide ChooseY;
    var data := [prefix] + ToBE(x, c.byteLen);
    assert data[1..] == ToBE(x, c.byteLen);
    FromToBE(x, c.byteLen);
  }

  /** An accepted compressed encoding is such a prefix and coordinate. */
  lemma AcceptedIsPrefixed(c: Curve, sqrt: nat -> Option<nat>, data: seq<byte>)
    requires c.p > 0 && ModSqrt(c, sqrt) && data != [] && data[0] != 4
    requires Decompress(c, sqrt, data).Accepted?
    ensures data[0] == 2 || data[0] == 3
    ensures data == [data[0]] + ToBE(FromBE(data[1..]), c.byteLen) && FromBE(data[1..]) < Pow256(c.byteLen)
  {
    hide ChooseY;
    ToFromBE(data[1..]);
    FromBEBound(data[1..]);
  }

  /** The missing check matters: every accepted encoding of an x with room for x + p
      has a second accepted encoding, of x + p, with the same y. */
  lemma NonReducedAccepted(c: Curve, sqrt: nat -> Option<nat>, data: seq<byte>)
    requires ValidCurve(c) && ModSqrt(c, sqrt)
    requires data != [] && data[0] != 4
    requires Decompress(c, sqrt, data).Accepted?
    requires FromBE(data[1..]) + c.p < Pow256(c.byteLen)
    ensures var q := Decompress(c, sqrt, data).point;
            var twin := [data[0]] + ToBE(q.x + c.p, c.byteLen);
            twin != data && Decompress(c, sqrt, twin) == Accepted(Point(q.x + c.p, q.y))
  {
    hide Decompress, CurveRhs, Square, IsPrime, ToBE, FromBE, Pow256, ModSqrt;
    var x := FromBE(data[1..]);
    AcceptedIsPrefixed(c, sqrt, data);
    DecompressPrefixed(c, sqrt, data[0], x);
    DecompressPrefixed(c, sqrt, data[0], x + c.p);
    RhsPeriodic(c, x);
    FromToBE(x + c.p, c.byteLen);
    assert ([data[0]] + ToBE(x + c.p, c.byteLen))[1..] == ToBE(x + c.p, c.byteLen);
  }

  // ---------- on the server's own curve ----------

  /** The P-256 curve of FIPS 186-4, appendix D.1.2.3. */
  const P256 := Curve(
    0xffffffff_00000001_00000000_00000000_00000000_ffffffff_ffffffff_ffffffff,
    0x5ac635d8_aa3a93e7_b3ebbd55_769886bc_651d06b0_cc53b0f6_3bce3c3e_27d2604b,
    32)

  /** A square root of b modulo p, hence the y of a point with x = 0. */
  const P256_ROOT: nat := 0x66485c78_0e2f83d7_2433bd5d_84a06bb6_541c2af3_1dae8717_28bf856a_174f93f4

  /** P256_ROOT squared, divided by p. */
  const P256_QUOTIENT: nat := 18484299446284197684144414341734473199757642899935467386529302760226016477115

  lemma P256Fits()
    ensures P256.p < Pow256(32)
  {
    hide Pow256;
    Pow256Values();
    PowTwice(4);
    PowTwice(8);
    PowTwice(16);
  }

  lemma P256Root()
    ensures P256_ROOT < P256.p && Square(P256_ROOT, P256.p) == P256.b
  {
    assert P256_ROOT * P256_ROOT == P256.p * P256_QUOTIENT + P256.b;
    ModUnique(P256.p, P256_QUOTIENT, P256.b);
  }

  lemma P256Facts()
    ensures P256.p < Pow256(32)
    ensures CurveRhs(P256, 0) == P256.b && CurveRhs(P256, P256.p) == P256.b
    ensures P256_ROOT < P256.p && Square(P256_ROOT, P256.p) == P256.b
    ensures OnCurve(P256, Point(0, P256_ROOT))
  {
    hide Square, Pow256;
    P256Fits();
    P256Root();
    RhsPeriodic(P256, 0);
  }

  lemma PowTwice(n: nat)
    ensures Pow256(2 * n) == Pow256(n) * Pow256(n)
  {
    PowSum(n, n);
  }

  lemma {:induction false} PowSum(m: nat, n: nat)
    ensures Pow256(m + n) == Pow256(m) * Pow256(n)
  {
    if m > 0 {
      PowSum(m - 1, n);
    }
  }

  /** The root of b that the code picks for the prefix 02. */
  lemma P256Choice(sqrt: nat -> Option<nat>) returns (y: nat)
    requires ModSqrt(P256, sqrt)
    ensures ChooseY(P256, sqrt, 0, false) == ChooseY(P256, sqrt, P256.p, false) == Some(y)
    ensures IsPrime(P256.p) ==> y == P256_ROOT
  {
    hide CurveRhs, Square, IsPrime;
    P256Facts();
    assert SqrtAnswer(sqrt(P256.b), P256.b, P256.p);
    if IsPrime(P256.p) {
      TwoRoots(P256.p, P256_ROOT, sqrt(P256.b).value);
    }
    y := ChooseY(P256, sqrt, 0, false).value;
  }

  /** Main result: on P-256, whatever roots are picked, 02 followed by 32 zero bytes and 02
      followed by p itself are both accepted, with the same y; the second is no point. */
  lemma NonReducedOnP256(sqrt: nat -> Option<nat>) returns (y: nat)
    requires ModSqrt(P256, sqrt)
    ensures Decompress(P256, sqrt, [2] + ToBE(0, 32)) == Accepted(Point(0, y))
    ensures Decompress(P256, sqrt, [2] + ToBE(P256.p, 32)) == Accepted(Point(P256.p, y))
    ensures !OnCurve(P256, Point(P256.p, y))
    ensures IsPrime(P256.p) ==> y == P256_ROOT
  {
    hide CurveRhs, Square, IsPrime, ChooseY, Decompress, ToBE, ModSqrt, Pow256;
    P256Facts();
    y := P256Choice(sqrt);
    DecompressPrefixed(P256, sqrt, 2, 0);
    DecompressPrefixed(P256, sqrt, 2, P256.p);
  }

  const THREE := Curve(3, 1, 1)

  lemma OneByte(b: byte)
    ensures FromBE([b]) == b
  {
    assert [b][..0] == [];
  }

  lemma OneByteFits()
    ensures Pow256(1) == 256
  {
    assert Pow256(0) == 1;
  }

  /** With y^2 = x^3 - 3x + 1 modulo 3 the encodings of 0 and of 3 decode to the same y. */
  lemma NonReducedWitness(sqrt: nat -> Option<nat>)
    requires ModSqrt(THREE, sqrt)
    ensures ValidCurve(THREE)
    ensures Decompress(THREE, sqrt, [2, 0]) == Accepted(Point(0, 2))
    ensures Decompress(THREE, sqrt, [2, 3]) == Accepted(Point(3, 2))
  {
    hide Pow256, FromBE;
    OneByteFits();
    OneByte(0);
    OneByte(3);
    assert [2, 0][1..] == [0] && [2, 3][1..] == [3];
    assert SqrtAnswer(sqrt(1), 1, 3) && Square(1, 3) == 1;
  }

  /** With y^2 = x^3 - 3x modulo 3 the odd root of zero is 3. */
  lemma OddRootOfZeroWitness(sqrt: nat -> Option<nat>)
    requires ModSqrt(THREE.(b := 0), sqrt)
    ensures ValidCurve(THREE.(b := 0))
    ensures Decompress(THREE.(b := 0), sqrt, [3, 0]) == Accepted(Point(0, 3))
  {
    hide Pow256, FromBE;
    OneByteFits();
    OneByte(0);
    assert [3, 0][1..] == [0];
    assert SqrtAnswer(sqrt(0), 0, 3) && Square(0, 3) == 0;
  }

  /** Unmarshalling undoes the uncompressed encoding of any point on the curve. */
  lemma UnmarshalMarshalled(c: Curve, q: Point)
    requires ValidCurve(c) && OnCurve(c, q)
    ensures Unmarshal(c, MarshalUncompressed(c, q)) == Some(q)
  {
    var data := MarshalUncompressed(c, q);
    assert data[1..1 + c.byteLen] == ToBE(q.x, c.byteLen);
    assert data[1 + c.byteLen..] == ToBE(q.y, c.byteLen);
    FromToBE(q.x, c.byteLen);
    FromToBE(q.y, c.byteLen);
  }

  // ---------- which encodings are accepted ----------

  /** p divides y^2 - (x^3 - 3x + b). */
  predicate SolvesCurve(c: Curve, x: nat, y: nat)
    requires c.p > 0
  {
    (y * y - (x * x * x - 3 * x + c.b)) % c.p == 0
  }

  /** Unmarshalling byte by byte: 04, then x and y of the fixed width, most significant
      byte first, of a point of the curve. */
  lemma UnmarshalBytes(c: Curve, data: seq<byte>, q: Point)
    requires c.p > 0
    ensures Unmarshal(c, data) == Some(q) <==>
              && |data| == 1 + 2 * c.byteLen && data[0] == 4
              && q.x == FromBE(data[1..1 + c.byteLen]) && q.y == FromBE(data[1 + c.byteLen..])
              && q.x < c.p && q.y < c.p && SolvesCurve(c, q.x, q.y)
  {
    hide CurveRhs, Square, FromBE, SolvesCurve;
    SolvesIff(c, q.x, q.y);
  }

  /** Main result: for every byte string, unmarshalling yields a point exactly when the
      point is on the curve and the bytes are its uncompressed encoding. */
  lemma UnmarshalIff(c: Curve, data: seq<byte>, q: Point)
    requires 0 < c.p <= Pow256(c.byteLen)
    ensures Unmarshal(c, data) == Some(q) <==> OnCurve(c, q) && data == MarshalUncompressed(c, q)
  {
    hide CurveRhs, Square, FromBE, ToBE, Pow256;
    var n := c.byteLen;
    if |data| == 1 + 2 * n && data[0] == 4 {
      ToFromBE(data[1..1 + n]);
      ToFromBE(data[1 + n..]);
      assert data == [data[0]] + data[1..1 + n] + data[1 + n..];
    }
    if OnCurve(c, q) && data == MarshalUncompressed(c, q) {
      FromToBE(q.x, n);
      FromToBE(q.y, n);
      assert data[1..1 + n] == ToBE(q.x, n) && data[1 + n..] == ToBE(q.y, n);
    }
  }

  /** Main result: on the prefix 04 decompression accepts exactly the encodings of points
      of the curve, each as its own point. */
  lemma DecompressUncompressed(c: Curve, sqrt: nat -> Option<nat>, data: seq<byte>, q: Point)
    requires 0 < c.p <= Pow256(c.byteLen) && ModSqrt(c, sqrt) && data != [] && data[0] == 4
    ensures Decompress(c, sqrt, data) == Accepted(q) <==> OnCurve(c, q) && data == MarshalUncompressed(c, q)
  {
    hide Unmarshal, OnCurve, MarshalUncompressed;
    UnmarshalIff(c, data, q);
  }

  /** Every rejection with its cause. */
  lemma RejectedIff(c: Curve, sqrt: nat -> Option<nat>, data: seq<byte>)
    requires 0 < c.p <= Pow256(c.byteLen) && ModSqrt(c, sqrt)
    ensures var r := Decompress(c, sqrt, data);
            && (r == Rejected(Empty) <==> data == [])
            && (r == Rejected(BadFormat) <==> data != [] && data[0] !in {2, 3, 4})
            && (r == Rejected(BadLength) <==> data != [] && data[0] in {2, 3} && |data| != 1 + c.byteLen)
            && (r == Rejected(NotOnCurve) <==>
                  data != [] && data[0] == 4 && forall q :: OnCurve(c, q) ==> data != MarshalUncompressed(c, q))
            && (r == Rejected(NoSquareRoot) <==>
                  && data != [] && data[0] in {2, 3} && |data| == 1 + c.byteLen
                  && !HasPoint(c, FromBE(data[1..])))
  {
    hide FromBE, ToBE, Pow256, OnCurve, MarshalUncompressed, Unmarshal, HasPoint, CurveRhs, Square, ModSqrt;
    forall q ensures Unmarshal(c, data) == Some(q) <==> OnCurve(c, q) && data == MarshalUncompressed(c, q) {
      UnmarshalIff(c, data, q);
    }
    if data != [] {
      NoRootIff(c, sqrt, FromBE(data[1..]));
    }
  }

  ghost predicate HasPoint(c: Curve, x: nat)
    requires c.p > 0
  {
    exists y: nat | y < c.p :: SolvesCurve(c, x, y)
  }

  lemma SolvesIff(c: Curve, x: nat, y: nat)
    requires c.p > 0
    ensures SolvesCurve(c, x, y) <==> Square(y, c.p) == CurveRhs(c, x)
  {
    ModDifference(c.p, y * y, x * x * x - 3 * x + c.b);
  }

  lemma NoRootIff(c: Curve, sqrt: nat -> Option<nat>, x: nat)
    requires c.p > 0 && ModSqrt(c, sqrt)
    ensures ChooseY(c, sqrt, x, false).None? <==> !HasPoint(c, x)
    ensures ChooseY(c, sqrt, x, true).None? <==> !HasPoint(c, x)
  {
    hide SolvesCurve, Square, CurveRhs;
    var a := CurveRhs(c, x);
    assert SqrtAnswer(sqrt(a), a, c.p);
    forall y: nat | y < c.p ensures SolvesCurve(c, x, y) <==> Square(y, c.p) == a {
      SolvesIff(c, x, y);
    }
    if sqrt(a).Some? {
      assert Square(sqrt(a).value, c.p) == a;
    }
  }
}
