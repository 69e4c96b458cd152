/** The group of section 5.1 of RFC 8032: the points of the curve under the affine addition law. The
    coordinates of the limb code represent its points, and its encoding is that of sections 5.1.2 and 5.1.3. */
module EdwardsCurve {
  import opened Arith
  import opened Common
  import opened Digits
  import opened Field25519
  import opened ScalarModL
  import opened Edwards
  import opened Decompress
  import opened EdwardsLaw
  import opened Ed25519
  import X25519
  import NumberTheory

  datatype XY = XY(x: int, y: int)

  type CurvePoint = p: XY | 0 <= p.x < P && 0 <= p.y < P && OnCurve(p.x, p.y) witness XY(0, 1)

  // ------------------------------------------------------------------ addition

  /** a / b modulo the prime. */
  function Quotient(a: int, b: int): int
  {
    (a * (Pow(b, P - 2) % P)) % P
  }

  lemma QuotientOk(a: int, b: int)
    requires NumberTheory.Prime(P) && b % P != 0
    ensures (Quotient(a, b) * b) % P == a % P && 0 <= Quotient(a, b) < P
  {
    NumberTheory.Fermat(P, b);
    FermatQuotient(a, b, Pow(b, P - 2), P);
  }

  lemma FermatQuotient(a: int, b: int, v: int, m: int)
    requires m > 1 && (b * v) % m == 1
    ensures (((a * (v % m)) % m) * b) % m == a % m
  {
    ModMod(v, m);
    ModMul(a, a, v % m, v, m);
    ModMod(a * (v % m), m);
    ModMul((a * (v % m)) % m, a * v, b, b, m);
    ModSmall(1, m);
    ModMul(a, a, b * v, 1, m);
    assert (a * v) * b == a * (b * v) by { MulAssoc(a, v, b); }
  }

  /** x1 y2 + x2 y1 over 1 + d x1 x2 y1 y2, and y1 y2 + x1 x2 over 1 - d x1 x2 y1 y2. */
  function AddPoints(p: CurvePoint, q: CurvePoint): CurvePoint
  {
    var w := D * Mixed(p.x, p.y, q.x, q.y);
    var x, y := Quotient(Cross(p.x, p.y, q.x, q.y), 1 + w), Quotient(Along(p.x, p.y, q.x, q.y), 1 - w);
    // only a point of the curve can come out, as AddPointsSum shows
    if OnCurve(x, y) then XY(x, y) else XY(0, 1)
  }

  function NegPoint(p: CurvePoint): CurvePoint
  {
    OppositeOnCurve(p.x, (-p.x) % P, p.y, D, P);
    XY((-p.x) % P, p.y)
  }

  lemma AddPointsSum(p: CurvePoint, q: CurvePoint)
    requires NumberTheory.Prime(P) && NonSquare(D, P)
    ensures var w, r := D * Mixed(p.x, p.y, q.x, q.y), AddPoints(p, q);
      (1 + w) % P != 0 && (1 - w) % P != 0 && IsSum(p.x, p.y, q.x, q.y, r.x, r.y, D, P)
  {
    var w := D * Mixed(p.x, p.y, q.x, q.y);
    ITable();
    Complete(P, p.x, p.y, q.x, q.y, D, I);
    QuotientOk(Cross(p.x, p.y, q.x, q.y), 1 + w);
    QuotientOk(Along(p.x, p.y, q.x, q.y), 1 - w);
    SumOnCurve(p.x, p.y, q.x, q.y, Quotient(Cross(p.x, p.y, q.x, q.y), 1 + w),
               Quotient(Along(p.x, p.y, q.x, q.y), 1 - w), D, P);
  }

  /** Two residues that make the same product with an invertible number are the same. */
  lemma SameQuotient(a: int, b: int, c: int, m: int)
    requires NumberTheory.Prime(m) && c % m != 0 && (a * c) % m == (b * c) % m && 0 <= a < m && 0 <= b < m
    ensures a == b
  {
    assert c * a == a * c && c * b == b * c;
    NumberTheory.Cancel(m, c, a, b);
    ModSmall(a, m);
    ModSmall(b, m);
  }

  /** Only one point satisfies the law. */
  lemma SumUnique(x1: int, y1: int, x2: int, y2: int, p: XY, q: XY, d: int, m: int)
    requires NumberTheory.Prime(m) && 0 <= p.x < m && 0 <= p.y < m && 0 <= q.x < m && 0 <= q.y < m
    requires var w := d * Mixed(x1, y1, x2, y2); (1 + w) % m != 0 && (1 - w) % m != 0
    requires IsSum(x1, y1, x2, y2, p.x, p.y, d, m) && IsSum(x1, y1, x2, y2, q.x, q.y, d, m)
    ensures p == q
  {
    var w := d * Mixed(x1, y1, x2, y2);
    SameQuotient(p.x, q.x, 1 + w, m);
    SameQuotient(p.y, q.y, 1 - w, m);
  }

  lemma AddCommutes(p: CurvePoint, q: CurvePoint)
    requires NumberTheory.Prime(P) && NonSquare(D, P)
    ensures AddPoints(p, q) == AddPoints(q, p)
  {
    var r := AddPoints(q, p);
    AddPointsSum(q, p);
    AddPointsSum(p, q);
    SumSymmetric(p.x, p.y, q.x, q.y);
    SumUnique(p.x, p.y, q.x, q.y, AddPoints(p, q), r, D, P);
  }

  lemma SumSymmetric(x1: int, y1: int, x2: int, y2: int)
    ensures Mixed(x1, y1, x2, y2) == Mixed(x2, y2, x1, y1)
    ensures Cross(x1, y1, x2, y2) == Cross(x2, y2, x1, y1) && Along(x1, y1, x2, y2) == Along(x2, y2, x1, y1)
  {}

  lemma AddZero(p: CurvePoint)
    requires NumberTheory.Prime(P) && NonSquare(D, P)
    ensures AddPoints(p, XY(0, 1)) == p
  {
    assert Mixed(p.x, p.y, 0, 1) == 0 && Cross(p.x, p.y, 0, 1) == p.x && Along(p.x, p.y, 0, 1) == p.y;
    AddPointsSum(p, XY(0, 1));
    SumUnique(p.x, p.y, 0, 1, AddPoints(p, XY(0, 1)), p, D, P);
  }

  lemma AddOpposite(p: CurvePoint)
    requires NumberTheory.Prime(P) && NonSquare(D, P)
    ensures AddPoints(p, NegPoint(p)) == XY(0, 1)
  {
    var q: CurvePoint := NegPoint(p);
    OppositeSum(p.x, p.y, q.x, D, P);
    AddPointsSum(p, q);
    SumUnique(p.x, p.y, q.x, q.y, AddPoints(p, q), XY(0, 1), D, P);
  }

  lemma OppositeSum(x: int, y: int, x': int, d: int, m: int)
    requires m > 0 && x' == (-x) % m && OnCurveMod(x, y, d, m)
    ensures IsSum(x, y, x', y, 0, 1, d, m)
  {
    ModMod(-x, m);
    ModMul(x', -x, y, y, m);
    assert (-x) * y == -(x * y);
    ModAdd(x * y, x * y, x' * y, -(x * y), m);
    // the denominator of y is its numerator
    var t := x * y;
    ModMul(t, t, x' * y, -t, m);
    assert t * -t == -(t * t);
    ModMul(d, d, t * (x' * y), -(t * t), m);
    assert d * -(t * t) == -(d * (t * t));
    ModSub(1, 1, d * (t * (x' * y)), -(d * (t * t)), m);
    ModMul(x, x, x', -x, m);
    assert x * -x == -(x * x);
    ModAdd(y * y, y * y, x * x', -(x * x), m);
    CurveForm(x, y, d, m);
    MulSwap(x, y, x, y);
  }

  // ------------------------------------------------------------------ the group and its encoding

  const BASE_POINT: CurvePoint := XY(BASE_X, BASE_Y)

  ghost function CurveGroup(): Group<CurvePoint>
  {
    Group<CurvePoint>.Group(XY(0, 1), AddPoints, NegPoint)
  }

  /** What is taken from the RFC: that P is prime and d no square, that the addition is associative, and that
      the order of the base point is as stated. */
  ghost predicate RfcCurve()
  {
    && NumberTheory.Prime(P) && NonSquare(D, P)
    && (forall p: CurvePoint, q: CurvePoint, r: CurvePoint :: Associates(CurveGroup(), p, q, r))
    && Kills(CurveGroup(), ORDER, BASE_POINT)
  }

  lemma PointsAbelian()
    requires RfcCurve()
    ensures Abelian(CurveGroup())
  {
    forall p: CurvePoint, q: CurvePoint ensures Commutes(CurveGroup(), p, q) { AddCommutes(p, q); }
    forall p: CurvePoint ensures Neutral(CurveGroup(), p) { AddZero(p); }
    forall p: CurvePoint ensures Cancels(CurveGroup(), p) { AddOpposite(p); }
  }

  /** Section 5.1.2 of RFC 8032: y in 255 bits, and the sign of x above. */
  function EncodePoint(p: CurvePoint): (b: seq<u8>)
    ensures |b| == 32 && Number(b) == p.y + (p.x % 2) * TWO255
  {
    X25519.TopBytePower(31);
    assert Pow(0x100, 32) == 0x100 * Pow(0x100, 31);
    LittleEndian(p.y + (p.x % 2) * TWO255, 32)
  }

  /** x is on the curve with the y of the bytes, and has the sign that they do not have. */
  predicate Found(b: seq<u8>, x: int)
    requires |b| == 32
  {
    0 <= x < P && OnCurve(x, YOf(b)) && (x == 0 || x % 2 != SignOf(b))
  }

  /** The inverse of the point behind the bytes. */
  ghost function DecodeNeg(b: seq<u8>): Option<CurvePoint>
  {
    if |b| == 32 && exists x :: Found(b, x) then
      var x :| Found(b, x);
      Some(XY(x, YOf(b)))
    else None
  }

  ghost function Curve(hash: seq<u8> -> seq<u8>): Suite<CurvePoint>
  {
    Suite<CurvePoint>.Suite(CurveGroup(), BASE_POINT, hash, EncodePoint, b => DecodeNeg(b))
  }

  /** There is only one x of a sign. */
  lemma OneOfSign(x: int, x': int, y: int, sign: int, d: int, m: int)
    requires NumberTheory.Prime(m) && m % 2 == 1 && (1 + d) % m != 0 && 0 <= x < m && 0 <= x' < m
    requires OnCurveMod(x, y, d, m) && OnCurveMod(x', y, d, m)
    requires (x == 0 || x % 2 != sign) && (x' == 0 || x' % 2 != sign) && 0 <= sign <= 1
    ensures x == x'
  {
    Opposite(x, m);
    TwoX(m, d, x, x', y);
    if (x - x') % m == 0 {
      var k := ModElim(x - x', 0, m);
      MultipleBelow(m, k, x - x');
    } else {
      var k := ModElim(x + x', 0, m);
      OneMultiple(x + x', k, m);
    }
  }

  lemma DecodesTo(b: seq<u8>, x: int)
    requires NumberTheory.Prime(P) && |b| == 32 && Found(b, x)
    ensures DecodeNeg(b) == Some(XY(x, YOf(b)))
  {
    DNotMinusOne();
    forall x' | Found(b, x') ensures x' == x { OneOfSign(x, x', YOf(b), SignOf(b), D, P); }
  }

  /** The fields of an encoding. */
  lemma EncodedFields(b: seq<u8>, y: int, sign: int)
    requires |b| == 32 && Number(b) == y + sign * TWO255 && 0 <= y < P && 0 <= sign <= 1
    ensures YOf(b) == y && SignOf(b) == sign
  {
    ModIntro(Number(b), y, sign, TWO255);
    ModSmall(y, TWO255);
    ModSmall(y, P);
    TopByte(b, y, sign);
  }

  lemma TopByte(b: seq<u8>, y: int, sign: int)
    requires |b| == 32 && Number(b) == y + sign * TWO255 && 0 <= y < P && 0 <= sign <= 1
    ensures b[31] / 0x80 == sign
  {
    var w := Pow(0x100, 31);
    X25519.TopBytePower(31);
    EvalNormal(b[..31], 0x100);
    assert Number(b) == Eval(b[..31], 0x100) + b[31] * w;
    if b[31] >= 0x80 { MulMonotone(0x80, b[31], w); } else { MulMonotone(b[31], 0x7f, w); }
  }

  lemma OppositeSign(x: int, n: int, m: int)
    requires m > 0 && m % 2 == 1 && 0 <= x < m && n == (-x) % m
    ensures n == 0 || n % 2 != x % 2
  {
    Opposite(x, m);
  }

  /** The curve is what the signature scheme asks for: the bytes that encode a point decode to its inverse. */
  lemma CurveSound(hash: seq<u8> -> seq<u8>)
    requires RfcCurve() && Hashes(hash)
    ensures Sound(Curve(hash))
  {
    PointsAbelian();
    forall p: CurvePoint ensures Curve(hash).decodeNeg(Curve(hash).encode(p)) == Some(NegPoint(p)) {
      var q: CurvePoint := NegPoint(p);
      OppositeSign(p.x, q.x, P);
      EncodedFields(EncodePoint(p), p.y, p.x % 2);
      DecodesTo(EncodePoint(p), q.x);
    }
  }

  // ------------------------------------------------------------------ the coordinates of the limb code

  /** Coordinates stand for the point that they represent, and the formulas add. */
  ghost function Coordinates(): Meaning<Coords, CurvePoint>
  {
    Meaning<Coords, CurvePoint>.Meaning(AddCoords, ZERO, (c: Coords, p: CurvePoint) => Represents(c, p.x, p.y, P))
  }

  lemma CoordinatesAdd(c: Coords, d: Coords, p: CurvePoint, q: CurvePoint)
    requires NumberTheory.Prime(P) && NonSquare(D, P)
    ensures Respects(CurveGroup(), Coordinates(), c, d, p, q)
  {
    if Represents(c, p.x, p.y, P) && Represents(d, q.x, q.y, P) {
      AddPointsSum(p, q);
      AddRepresents(c, d, p.x, p.y, q.x, q.y, AddPoints(p, q).x, AddPoints(p, q).y, D, P);
    }
  }

  lemma CoordinatesModel()
    requires RfcCurve()
    ensures Models(CurveGroup(), Coordinates()) && Coordinates().stands(BASE, BASE_POINT)
  {
    PointsAbelian();
    forall c, d, p: CurvePoint, q: CurvePoint ensures Respects(CurveGroup(), Coordinates(), c, d, p, q) {
      CoordinatesAdd(c, d, p, q);
    }
    assert Represents(ZERO, 0, 1, P);
    BaseRepresents();
  }

  lemma BaseRepresents()
    ensures Represents(BASE, BASE_X, BASE_Y, P)
  {
    ModMod(BASE_X * BASE_Y, P);
  }

  /** Division gives the coordinate back. */
  lemma Divides(a: int, z: int, u: int, m: int)
    requires NumberTheory.Prime(m) && z % m != 0 && a % m == (u * z) % m && 0 <= u < m
    ensures (a * (Pow(z, m - 2) % m)) % m == u
  {
    var r := (a * (Pow(z, m - 2) % m)) % m;
    NumberTheory.Fermat(m, z);
    FermatQuotient(a, z, Pow(z, m - 2), m);
    SameQuotient(r, u, z, m);
  }

  /** Coordinates with z = 1 represent themselves. */
  lemma AffineRepresents(c: Coords, m: int)
    requires m > 1 && c.z == 1 && c.t == (c.x * c.y) % m
    ensures Represents(c, c.x, c.y, m)
  {
    ModSmall(1, m);
    ModMod(c.x * c.y, m);
  }
}
