/** The addition law of the twisted Edwards curve -x^2 + y^2 = 1 + d x^2 y^2 (section 5.1.4 of RFC 8032),
    modulo any prime: what the formulas on four coordinates compute of the points that they represent. */
module EdwardsLaw {
  import opened Arith
  import opened NumberTheory
  import opened Edwards
  import opened Decompress

  /** The coordinates are those of the affine point (x, y). */
  predicate Represents(c: Coords, x: int, y: int, m: int)
    requires m > 0
  {
    c.z % m != 0 && c.x % m == (x * c.z) % m && c.y % m == (y * c.z) % m && c.t % m == (x * y * c.z) % m
  }

  /** The numerators and denominators of the sum of two points. */
  function Cross(x1: int, y1: int, x2: int, y2: int): int { x1 * y2 + x2 * y1 }
  function Along(x1: int, y1: int, x2: int, y2: int): int { y1 * y2 + x1 * x2 }
  function Mixed(x1: int, y1: int, x2: int, y2: int): int { (x1 * y1) * (x2 * y2) }

  /** (x, y) is the sum: x (1 + d K) = x1 y2 + x2 y1 and y (1 - d K) = y1 y2 + x1 x2, where K = x1 x2 y1 y2. */
  predicate IsSum(x1: int, y1: int, x2: int, y2: int, x: int, y: int, d: int, m: int)
    requires m > 0
  {
    var w := d * Mixed(x1, y1, x2, y2);
    && (x * (1 + w)) % m == Cross(x1, y1, x2, y2) % m
    && (y * (1 - w)) % m == Along(x1, y1, x2, y2) % m
  }

  // ------------------------------------------------------------------ the formulas

  /** (u z)(v w) is (u v)(z w). */
  lemma ScaledTerms(a: int, b: int, u: int, v: int, z: int, w: int, m: int)
    requires m > 0 && a % m == (u * z) % m && b % m == (v * w) % m
    ensures (a * b) % m == ((u * v) * (z * w)) % m
  {
    ModMul(a, u * z, b, v * w, m);
    MulSwap(u, z, v, w);
  }

  lemma CoordinateSums(p: Coords, x: int, y: int, m: int)
    requires m > 0 && Represents(p, x, y, m)
    ensures (p.y - p.x) % m == ((y - x) * p.z) % m && (p.y + p.x) % m == ((y + x) * p.z) % m
  {
    ModSub(p.y, y * p.z, p.x, x * p.z, m);
    ModAdd(p.y, y * p.z, p.x, x * p.z, m);
    MulDistribute(y, -x, p.z);
    MulDistribute(y, x, p.z);
  }

  /** The four products of the formulas, for points that the coordinates represent. */
  lemma FormulaProducts(p: Coords, q: Coords, x1: int, y1: int, x2: int, y2: int, d: int, m: int)
    requires m > 0 && Represents(p, x1, y1, m) && Represents(q, x2, y2, m)
    ensures var z := p.z * q.z;
      && ((p.y - p.x) * (q.y - q.x)) % m == (((y1 - x1) * (y2 - x2)) * z) % m
      && ((p.y + p.x) * (q.y + q.x)) % m == (((y1 + x1) * (y2 + x2)) * z) % m
      && (p.t * (2 * d) * q.t) % m == ((2 * d * Mixed(x1, y1, x2, y2)) * z) % m
      && p.z * 2 * q.z == 2 * z
  {
    var z := p.z * q.z;
    CoordinateSums(p, x1, y1, m);
    CoordinateSums(q, x2, y2, m);
    ScaledTerms(p.y - p.x, q.y - q.x, y1 - x1, y2 - x2, p.z, q.z, m);
    ScaledTerms(p.y + p.x, q.y + q.x, y1 + x1, y2 + x2, p.z, q.z, m);
    ScaledTerms(p.t, q.t, x1 * y1, x2 * y2, p.z, q.z, m);
    var k := Mixed(x1, y1, x2, y2);
    ModMul(2 * d, 2 * d, p.t * q.t, k * z, m);
    assert p.t * (2 * d) * q.t == (2 * d) * (p.t * q.t) by { MulAssoc(2 * d, p.t, q.t); }
    MulAssoc(2 * d, k, z);
    assert p.z * 2 * q.z == 2 * z by { MulAssoc(2, p.z, q.z); }
  }

  lemma DoubledTerms(x1: int, y1: int, x2: int, y2: int)
    ensures (y1 + x1) * (y2 + x2) - (y1 - x1) * (y2 - x2) == 2 * Cross(x1, y1, x2, y2)
    ensures (y1 + x1) * (y2 + x2) + (y1 - x1) * (y2 - x2) == 2 * Along(x1, y1, x2, y2)
  {
    MulDistribute(y1, x1, y2 + x2);
    MulDistribute(y1, -x1, y2 - x2);
  }

  /** E, F, G and H of the formulas: twice the numerators and denominators, scaled. */
  lemma FormulaTerms(p: Coords, q: Coords, x1: int, y1: int, x2: int, y2: int, d: int, m: int)
    requires m > 0 && Represents(p, x1, y1, m) && Represents(q, x2, y2, m)
    ensures var z, w := p.z * q.z, d * Mixed(x1, y1, x2, y2);
      var a, b := (p.y - p.x) * (q.y - q.x), (p.y + p.x) * (q.y + q.x);
      var c, e := p.t * (2 * d) * q.t, p.z * 2 * q.z;
      && (b - a) % m == (Cross(x1, y1, x2, y2) * (2 * z)) % m && (b + a) % m == (Along(x1, y1, x2, y2) * (2 * z)) % m
      && (e - c) % m == ((1 - w) * (2 * z)) % m && (e + c) % m == ((1 + w) * (2 * z)) % m
  {
    var z, k := p.z * q.z, Mixed(x1, y1, x2, y2);
    FormulaProducts(p, q, x1, y1, x2, y2, d, m);
    DoubledTerms(x1, y1, x2, y2);
    MulAssoc(2, d, k);
    HalfTerms((p.y - p.x) * (q.y - q.x), (p.y + p.x) * (q.y + q.x), (y1 - x1) * (y2 - x2), (y1 + x1) * (y2 + x2), z,
              Cross(x1, y1, x2, y2), Along(x1, y1, x2, y2), m);
    HalfTerms(p.t * (2 * d) * q.t, p.z * 2 * q.z, 2 * d * k, 2, z, 1 - d * k, 1 + d * k, m);
  }

  /** Sum and difference of two multiples of z. */
  lemma HalfTerms(a: int, b: int, a': int, b': int, z: int, e: int, h: int, m: int)
    requires m > 0 && a % m == (a' * z) % m && b % m == (b' * z) % m && b' - a' == 2 * e && b' + a' == 2 * h
    ensures (b - a) % m == (e * (2 * z)) % m && (b + a) % m == (h * (2 * z)) % m
  {
    ModSub(b, b' * z, a, a' * z, m);
    ModAdd(b, b' * z, a, a' * z, m);
    Factored(b', a', z, 2 * e, 2 * h);
    Twice(e, z);
    Twice(h, z);
  }

  lemma Factored(a: int, b: int, z: int, minus: int, plus: int)
    requires a - b == minus && a + b == plus
    ensures a * z - b * z == minus * z && a * z + b * z == plus * z
  {}

  lemma Twice(a: int, z: int)
    ensures (2 * a) * z == a * (2 * z)
  {}

  /** The four coordinates of the sum. */
  lemma FormulaResult(p: Coords, q: Coords, x1: int, y1: int, x2: int, y2: int, d: int, m: int)
    requires m > 0 && Represents(p, x1, y1, m) && Represents(q, x2, y2, m)
    ensures var u, w := (2 * (p.z * q.z)) * (2 * (p.z * q.z)), d * Mixed(x1, y1, x2, y2);
      var e, h, r := Cross(x1, y1, x2, y2), Along(x1, y1, x2, y2), AddMod(p, q, 2 * d, m);
      && r.x == ((e * (1 - w)) * u) % m && r.y == (((1 + w) * h) * u) % m
      && r.z == (((1 - w) * (1 + w)) * u) % m && r.t == ((e * h) * u) % m
  {
    FormulaTerms(p, q, x1, y1, x2, y2, d, m);
    var z, w := 2 * (p.z * q.z), d * Mixed(x1, y1, x2, y2);
    var a, b := (p.y - p.x) * (q.y - q.x), (p.y + p.x) * (q.y + q.x);
    var c, e := p.t * (2 * d) * q.t, p.z * 2 * q.z;
    ScaledTerms(b - a, e - c, Cross(x1, y1, x2, y2), 1 - w, z, z, m);
    ScaledTerms(e + c, b + a, 1 + w, Along(x1, y1, x2, y2), z, z, m);
    ScaledTerms(e - c, e + c, 1 - w, 1 + w, z, z, m);
    ScaledTerms(b - a, b + a, Cross(x1, y1, x2, y2), Along(x1, y1, x2, y2), z, z, m);
  }

  /** The affine law as a property of the formulas: the coordinates of the sum divide to its numerators over
      its denominators. */
  lemma AffineLaw(p: Coords, q: Coords, x1: int, y1: int, x2: int, y2: int, d: int, m: int)
    requires m > 0 && Represents(p, x1, y1, m) && Represents(q, x2, y2, m)
    ensures var w, r := d * Mixed(x1, y1, x2, y2), AddMod(p, q, 2 * d, m);
      && (r.x * (1 + w)) % m == (r.z * Cross(x1, y1, x2, y2)) % m
      && (r.y * (1 - w)) % m == (r.z * Along(x1, y1, x2, y2)) % m
  {
    FormulaResult(p, q, x1, y1, x2, y2, d, m);
    var u, w := (2 * (p.z * q.z)) * (2 * (p.z * q.z)), d * Mixed(x1, y1, x2, y2);
    var e, h, r := Cross(x1, y1, x2, y2), Along(x1, y1, x2, y2), AddMod(p, q, 2 * d, m);
    var f, g := 1 - w, 1 + w;
    ScaleBoth(r.x, (e * f) * u, g, m);
    ScaleBoth(r.z, (f * g) * u, e, m);
    ScaleBoth(r.y, (g * h) * u, f, m);
    ScaleBoth(r.z, (f * g) * u, h, m);
    Rotate(e, f, g, u);
    Rotate(h, g, f, u);
    assert f * g == g * f && g * h == h * g;
  }

  lemma ScaleBoth(r: int, v: int, s: int, m: int)
    requires m > 0 && r == v % m
    ensures (r * s) % m == (v * s) % m
  {
    ModMod(v, m);
    ModMul(r, v, s, s, m);
  }

  lemma Rotate(e: int, f: int, g: int, u: int)
    ensures ((e * f) * u) * g == ((f * g) * u) * e
  {
    MulAssoc(e * f, u, g);
    MulAssoc(f * g, u, e);
    MulSwap(e, f, u, g);
    MulSwap(f, g, u, e);
    assert (e * u) * (f * g) == (f * g) * (u * e);
  }

  // ------------------------------------------------------------------ sums of points

  /** The formulas represent the sum of the points, wherever the denominators are not zero. */
  lemma AddRepresents(p: Coords, q: Coords, x1: int, y1: int, x2: int, y2: int, x: int, y: int, d: int, m: int)
    requires Prime(m) && m > 2 && Represents(p, x1, y1, m) && Represents(q, x2, y2, m)
    requires var w := d * Mixed(x1, y1, x2, y2); (1 + w) % m != 0 && (1 - w) % m != 0
    requires IsSum(x1, y1, x2, y2, x, y, d, m)
    ensures Represents(AddMod(p, q, 2 * d, m), x, y, m)
  {
    FormulaResult(p, q, x1, y1, x2, y2, d, m);
    var z, w := 2 * (p.z * q.z), d * Mixed(x1, y1, x2, y2);
    ModSmall(2, m);
    NotDivisible(m, p.z, q.z);
    NotDivisible(m, 2, p.z * q.z);
    NotDivisible(m, z, z);
    DividedOut(AddMod(p, q, 2 * d, m), Cross(x1, y1, x2, y2), Along(x1, y1, x2, y2), 1 - w, 1 + w, z * z, x, y, m);
  }

  lemma DividedOut(r: Coords, e: int, h: int, f: int, g: int, u: int, x: int, y: int, m: int)
    requires Prime(m) && f % m != 0 && g % m != 0 && u % m != 0
    requires r.x == ((e * f) * u) % m && r.y == ((g * h) * u) % m
    requires r.z == ((f * g) * u) % m && r.t == ((e * h) * u) % m
    requires (x * g) % m == e % m && (y * f) % m == h % m
    ensures Represents(r, x, y, m)
  {
    NotDivisible(m, f, g);
    NotDivisible(m, f * g, u);
    var v := (f * g) * u;
    ModMod(v, m);
    Quotients(r.x, e, x, g, f, u, m);
    Quotients(r.y, h, y, f, g, u, m);
    assert (x * g) * f * u == x * v by { MulAssoc(x, g, f); MulAssoc(x, g * f, u); }
    assert (y * f) * g * u == y * v by { MulAssoc(y, f, g); MulAssoc(y, f * g, u); }
    ModMul(x, x, r.z, v, m);
    ModMul(y, y, r.z, v, m);
    ModMul(e, x * g, h, y * f, m);
    ModMul(e * h, (x * g) * (y * f), u, u, m);
    ModMod((e * h) * u, m);
    MulSwap(x, g, y, f);
    assert (x * y) * (g * f) * u == (x * y) * v by { MulAssoc(x * y, g * f, u); }
    ModMul(x * y, x * y, r.z, v, m);
  }

  lemma Quotients(r: int, e: int, x: int, g: int, f: int, u: int, m: int)
    requires m > 0 && (r == ((e * f) * u) % m || r == ((f * e) * u) % m) && (x * g) % m == e % m
    ensures r % m == ((x * g) * f * u) % m
  {
    assert e * f == f * e;
    ModMod((e * f) * u, m);
    ModMul(e, x * g, f, f, m);
    ModMul(e * f, (x * g) * f, u, u, m);
  }

  /** The sum with the neutral element is the same point. */
  lemma ZeroRepresents(c: Coords, x: int, y: int, d: int, m: int)
    requires Prime(m) && m > 2 && Represents(c, x, y, m)
    ensures Represents(AddMod(ZERO, c, 2 * d, m), x, y, m)
  {
    assert Represents(ZERO, 0, 1, m) by { ModSmall(1, m); }
    assert Mixed(0, 1, x, y) == 0 && Cross(0, 1, x, y) == x && Along(0, 1, x, y) == y;
    ModSmall(1, m);
    AddRepresents(ZERO, c, 0, 1, x, y, x, y, d, m);
  }

  // ------------------------------------------------------------------ the sum is on the curve

  /** With a = v - u, s = v + u and n = u v of each point, where u = x^2 and v = y^2. */
  lemma SumSquares(x1: int, y1: int, x2: int, y2: int)
    ensures var e, h := Cross(x1, y1, x2, y2), Along(x1, y1, x2, y2);
      var u1, v1, u2, v2, k := x1 * x1, y1 * y1, x2 * x2, y2 * y2, Mixed(x1, y1, x2, y2);
      && e * e == u1 * v2 + u2 * v1 + 2 * k && h * h == v1 * v2 + u1 * u2 + 2 * k
      && k * k == (u1 * v1) * (u2 * v2)
  {
    var k := Mixed(x1, y1, x2, y2);
    SquareOfSum(x1 * y2, x2 * y1);
    SquareOfSum(y1 * y2, x1 * x2);
    MulSwap(x1, y2, x1, y2);
    MulSwap(x2, y1, x2, y1);
    MulSwap(y1, y2, y1, y2);
    MulSwap(x1, x2, x1, x2);
    assert (x1 * y2) * (x2 * y1) == k by { MulSwap(x1, y2, y1, x2); }
    assert (y1 * y2) * (x1 * x2) == k by { MulSwap(y1, y2, x1, x2); }
    MulSwap(x1 * y1, x2 * y2, x1 * y1, x2 * y2);
    MulSwap(x1, y1, x1, y1);
    MulSwap(x2, y2, x2, y2);
  }

  lemma SquareOfSum(a: int, b: int)
    ensures (a + b) * (a + b) == a * a + b * b + 2 * (a * b)
  {
    MulDistribute(a, b, a + b);
  }

  lemma CurveTerms(u1: int, v1: int, u2: int, v2: int, k: int, ee: int, hh: int)
    requires ee == u1 * v2 + u2 * v1 + 2 * k && hh == v1 * v2 + u1 * u2 + 2 * k && k * k == (u1 * v1) * (u2 * v2)
    ensures hh - ee == (v1 - u1) * (v2 - u2) && hh + ee == (v1 + u1) * (v2 + u2) + 4 * k
    ensures var s1, s2, n1, n2 := v1 + u1, v2 + u2, u1 * v1, u2 * v2;
      ee * hh == n1 * (s2 * s2) + n2 * (s1 * s1) + 2 * (k * (s1 * s2))
  {
    MulDistribute(v1, -u1, v2 - u2);
    MulDistribute(v1, u1, v2 + u2);
    var al, be := u1 * v2 + u2 * v1, v1 * v2 + u1 * u2;
    ShiftedProduct(al, be, 2 * k);
    assert (2 * k) * (2 * k) == 4 * (k * k);
    assert al + be == (v1 + u1) * (v2 + u2);
    assert (2 * k) * (al + be) == 2 * (k * (al + be)) by { MulAssoc(2, k, al + be); }
    CrossProducts(u1, v1, u2, v2);
  }

  lemma ShiftedProduct(a: int, b: int, c: int)
    ensures (a + c) * (b + c) == a * b + c * (a + b) + c * c
  {
    MulDistribute(a, c, b + c);
  }

  lemma CrossProducts(u1: int, v1: int, u2: int, v2: int)
    ensures var s1, s2, n1, n2 := v1 + u1, v2 + u2, u1 * v1, u2 * v2;
      (u1 * v2 + u2 * v1) * (v1 * v2 + u1 * u2) + 4 * (n1 * n2) == n1 * (s2 * s2) + n2 * (s1 * s1)
  {
    var n1, n2 := u1 * v1, u2 * v2;
    var p, q, r, t := u1 * v2, u2 * v1, v1 * v2, u1 * u2;
    assert (p + q) * (r + t) == p * r + p * t + q * r + q * t by { MulDistribute(p, q, r + t); }
    assert p * r == n1 * (v2 * v2) by { MulSwap(u1, v2, v1, v2); }
    assert p * t == (u1 * u1) * n2 by { MulSwap(u1, v2, u1, u2); }
    assert q * r == n2 * (v1 * v1) by { MulSwap(u2, v1, v2, v1); }
    assert q * t == (u2 * u2) * n1 by { MulSwap(u2, v1, u2, u1); }
    SquareOfSum(v2, u2);
    SquareOfSum(v1, u1);
    Collect(n1, v2 * v2, u2 * u2, n2);
    Collect(n2, v1 * v1, u1 * u1, n1);
  }

  lemma Collect(n: int, a: int, b: int, c: int)
    ensures n * (a + b + 2 * c) == n * a + b * n + 2 * (n * c)
  {
    assert n * (a + b + 2 * c) == n * a + n * b + n * (2 * c);
  }

  /** How far numerators and denominators are from a point of the curve. */
  function Defect(ee: int, hh: int, w: int, d: int): int
  {
    var ff, gg := (1 - w) * (1 - w), (1 + w) * (1 + w);
    hh * gg - ee * ff - ff * gg - d * (ee * hh)
  }

  /** The same in terms of the two points. */
  function PointDefect(a1: int, a2: int, b1: int, b2: int): int
  {
    (a1 * a2) * (1 + b1 * b2) - (1 - b1 * b2) * (1 - b1 * b2) - b1 * (a2 * a2) - b2 * (a1 * a1)
  }

  lemma DefectForm(ee: int, hh: int, w: int, d: int)
    ensures Defect(ee, hh, w, d) ==
      (hh - ee) * (1 + w * w) + 2 * (w * (hh + ee)) - (1 - w * w) * (1 - w * w) - d * (ee * hh)
  {
    var ww := w * w;
    SquareOfSum(1, -w);
    SquareOfSum(1, w);
    assert (1 - w) * (1 - w) == 1 + ww - 2 * w && (1 + w) * (1 + w) == 1 + ww + 2 * w;
    assert (1 - w) * (1 + w) == 1 - ww by { MulDistribute(1, -w, 1 + w); }
    MulSwap(1 - w, 1 - w, 1 + w, 1 + w);
    Spread(hh, ww, w);
    Spread(ee, ww, -w);
    assert (hh - ee) * (1 + ww) == hh * (1 + ww) - ee * (1 + ww) by { MulDistribute(hh, -ee, 1 + ww); }
    assert w * (hh + ee) == w * hh + w * ee;
  }

  lemma Spread(h: int, ww: int, w: int)
    ensures h * (1 + ww + 2 * w) == h * (1 + ww) + 2 * (w * h)
  {
    assert h * (1 + ww + 2 * w) == h * (1 + ww) + h * (2 * w);
    MulAssoc(2, w, h);
  }

  lemma DefectsAgree(u1: int, v1: int, u2: int, v2: int, k: int, ee: int, hh: int, d: int)
    requires ee == u1 * v2 + u2 * v1 + 2 * k && hh == v1 * v2 + u1 * u2 + 2 * k && k * k == (u1 * v1) * (u2 * v2)
    ensures Defect(ee, hh, d * k, d) == PointDefect(v1 - u1, v2 - u2, d * (u1 * v1), d * (u2 * v2))
  {
    var s1, s2, n1, n2 := v1 + u1, v2 + u2, u1 * v1, u2 * v2;
    var a1, a2, w := v1 - u1, v2 - u2, d * k;
    CurveTerms(u1, v1, u2, v2, k, ee, hh);
    DefectForm(ee, hh, w, d);
    assert w * w == (d * n1) * (d * n2) by { MulSwap(d, k, d, k); MulSwap(d, n1, d, n2); }
    SumAndDifference(v1, u1);
    SumAndDifference(v2, u2);
    Cancelled(d, k, n1, n2, a1 * a1, a2 * a2, s1 * s2, s1 * s1, s2 * s2, ee * hh, hh + ee);
  }

  lemma SumAndDifference(v: int, u: int)
    ensures (v + u) * (v + u) == (v - u) * (v - u) + 4 * (u * v)
  {
    SquareOfSum(v, u);
    SquareOfSum(v, -u);
  }

  lemma Cancelled(d: int, k: int, n1: int, n2: int, aa1: int, aa2: int, s: int, ss1: int, ss2: int, eh: int, sum: int)
    requires k * k == n1 * n2 && ss1 == aa1 + 4 * n1 && ss2 == aa2 + 4 * n2 && sum == s + 4 * k
    requires eh == n1 * ss2 + n2 * ss1 + 2 * (k * s)
    ensures 2 * ((d * k) * sum) - d * eh == -((d * n1) * aa2) - (d * n2) * aa1
  {
    assert n1 * ss2 == n1 * aa2 + 4 * (n1 * n2) && n2 * ss1 == n2 * aa1 + 4 * (n1 * n2);
    assert (d * k) * sum == d * (k * s + 4 * (n1 * n2)) by {
      MulAssoc(d, k, sum);
      assert k * sum == k * s + 4 * (k * k);
    }
    MulAssoc(d, n1, aa2);
    MulAssoc(d, n2, aa1);
    var t, p, q := k * s, n1 * aa2, n2 * aa1;
    assert eh == p + q + 8 * (n1 * n2) + 2 * t;
    assert d * eh == d * p + d * q + d * (8 * (n1 * n2) + 2 * t);
    assert d * (8 * (n1 * n2) + 2 * t) == 2 * (d * (t + 4 * (n1 * n2)));
  }

  /** For two points of the curve it vanishes. */
  lemma NoDefect(b1: int, b2: int)
    ensures PointDefect(1 + b1, 1 + b2, b1, b2) == 0
  {
    var c := b1 * b2;
    assert (1 + b1) * (1 + b2) == 1 + b1 + b2 + c by { MulDistribute(1, b1, 1 + b2); }
    SquareOfSum(1, b1);
    SquareOfSum(1, b2);
    SquareOfSum(1, -c);
    assert (1 + b1 + b2 + c) * (1 + c) == (1 + b1 + b2 + c) + (c + b1 * c + b2 * c + c * c);
    assert b1 * (1 + b2 * b2 + 2 * b2) == b1 + b2 * c + 2 * c by { MulAssoc(b1, b2, b2); }
    assert b2 * (1 + b1 * b1 + 2 * b1) == b2 + b1 * c + 2 * c by { MulAssoc(b2, b1, b1); }
  }

  lemma CurveForm(x: int, y: int, d: int, m: int)
    requires m > 0 && OnCurveMod(x, y, d, m)
    ensures (y * y - x * x) % m == (1 + d * ((x * x) * (y * y))) % m
  {
    MulAssoc(d, x * x, y * y);
  }

  lemma DefectVanishes(a1: int, a2: int, b1: int, b2: int, m: int)
    requires m > 0 && a1 % m == (1 + b1) % m && a2 % m == (1 + b2) % m
    ensures PointDefect(a1, a2, b1, b2) % m == 0
  {
    var c1, c2, t := 1 + b1, 1 + b2, 1 + b1 * b2;
    ModMul(a1, c1, a2, c2, m);
    ModMul(a1 * a2, c1 * c2, t, t, m);
    ModMul(a1, c1, a1, c1, m);
    ModMul(a2, c2, a2, c2, m);
    ModMul(b1, b1, a2 * a2, c2 * c2, m);
    ModMul(b2, b2, a1 * a1, c1 * c1, m);
    var q := (1 - b1 * b2) * (1 - b1 * b2);
    ModSub((a1 * a2) * t, (c1 * c2) * t, q, q, m);
    ModSub((a1 * a2) * t - q, (c1 * c2) * t - q, b1 * (a2 * a2), b1 * (c2 * c2), m);
    ModSub((a1 * a2) * t - q - b1 * (a2 * a2), (c1 * c2) * t - q - b1 * (c2 * c2), b2 * (a1 * a1), b2 * (c1 * c1), m);
    NoDefect(b1, b2);
  }

  /** Numerators and denominators of the sum of two points of the curve satisfy its equation. */
  lemma SumDefect(x1: int, y1: int, x2: int, y2: int, d: int, m: int)
    requires m > 0 && OnCurveMod(x1, y1, d, m) && OnCurveMod(x2, y2, d, m)
    ensures var e, h := Cross(x1, y1, x2, y2), Along(x1, y1, x2, y2);
      Defect(e * e, h * h, d * Mixed(x1, y1, x2, y2), d) % m == 0
  {
    var e, h := Cross(x1, y1, x2, y2), Along(x1, y1, x2, y2);
    var u1, v1, u2, v2 := x1 * x1, y1 * y1, x2 * x2, y2 * y2;
    SumSquares(x1, y1, x2, y2);
    DefectsAgree(u1, v1, u2, v2, Mixed(x1, y1, x2, y2), e * e, h * h, d);
    CurveForm(x1, y1, d, m);
    CurveForm(x2, y2, d, m);
    DefectVanishes(v1 - u1, v2 - u2, d * (u1 * v1), d * (u2 * v2), m);
  }

  /** So the sum of two points of the curve is on the curve, wherever the denominators are not zero. */
  lemma SumOnCurve(x1: int, y1: int, x2: int, y2: int, x: int, y: int, d: int, m: int)
    requires Prime(m) && OnCurveMod(x1, y1, d, m) && OnCurveMod(x2, y2, d, m)
    requires var w := d * Mixed(x1, y1, x2, y2); (1 + w) % m != 0 && (1 - w) % m != 0
    requires IsSum(x1, y1, x2, y2, x, y, d, m)
    ensures OnCurveMod(x, y, d, m)
  {
    SumDefect(x1, y1, x2, y2, d, m);
    DefectDivided(Cross(x1, y1, x2, y2), Along(x1, y1, x2, y2), d * Mixed(x1, y1, x2, y2), x, y, d, m);
  }

  lemma DefectDivided(e: int, h: int, w: int, x: int, y: int, d: int, m: int)
    requires Prime(m) && Defect(e * e, h * h, w, d) % m == 0 && (1 + w) % m != 0 && (1 - w) % m != 0
    requires (x * (1 + w)) % m == e % m && (y * (1 - w)) % m == h % m
    ensures OnCurveMod(x, y, d, m)
  {
    var f, g, xx, yy := 1 - w, 1 + w, x * x, y * y;
    var ff, gg := f * f, g * g;
    var q := ff * gg;
    SquaredQuotient(e, x, g, m);
    SquaredQuotient(h, y, f, m);
    ModMul(h * h, yy * ff, gg, gg, m);
    ModMul(e * e, xx * gg, ff, ff, m);
    ModMul(e * e, xx * gg, h * h, yy * ff, m);
    ModMul(d, d, (e * e) * (h * h), (xx * gg) * (yy * ff), m);
    assert (yy * ff) * gg == yy * q by { MulAssoc(yy, ff, gg); }
    assert (xx * gg) * ff == xx * q by { MulAssoc(xx, gg, ff); }
    assert d * ((xx * gg) * (yy * ff)) == (d * xx * yy) * q by {
      MulSwap(xx, gg, yy, ff);
      MulAssoc(d, xx * yy, gg * ff);
      MulAssoc(d, xx, yy);
    }
    DefectTerms((h * h) * gg, yy * q, (e * e) * ff, xx * q, q, d * ((e * e) * (h * h)), (d * xx * yy) * q, m);
    assert yy * q - xx * q - q - (d * xx * yy) * q == q * (yy - xx - (1 + d * xx * yy)) by {
      OverQ(q, yy, xx, d * xx * yy);
    }
    NotDivisible(m, f, f);
    NotDivisible(m, g, g);
    NotDivisible(m, ff, gg);
    EuclidLemma(m, q, yy - xx - (1 + d * xx * yy));
    ModAdd(yy - xx - (1 + d * xx * yy), 0, 1 + d * xx * yy, 1 + d * xx * yy, m);
  }

  lemma OverQ(q: int, a: int, b: int, c: int)
    ensures a * q - b * q - q - c * q == q * (a - b - (1 + c))
  {}

  lemma DefectTerms(a: int, a': int, b: int, b': int, q: int, c: int, c': int, m: int)
    requires m > 0 && a % m == a' % m && b % m == b' % m && c % m == c' % m && (a - b - q - c) % m == 0
    ensures (a' - b' - q - c') % m == 0
  {
    ModSub(a', a, b', b, m);
    ModSub(a' - b', a - b, q, q, m);
    ModSub(a' - b' - q, a - b - q, c', c, m);
  }

  lemma SquaredQuotient(e: int, x: int, g: int, m: int)
    requires m > 0 && (x * g) % m == e % m
    ensures (e * e) % m == ((x * x) * (g * g)) % m
  {
    ModMul(e, x * g, e, x * g, m);
    MulSwap(x, g, x, g);
  }

  // ------------------------------------------------------------------ the denominators

  ghost predicate NonSquare(d: int, p: int)
    requires p > 0
  {
    forall s: int :: !IsSquareRoot(s, d, p)
  }

  predicate IsSquareRoot(s: int, d: int, p: int)
    requires p > 0
  {
    (s * s) % p == d % p
  }

  /** A square that is d times a square other than 0 makes d a square. */
  lemma SquareQuotient(p: int, a: int, b: int, d: int)
    requires Prime(p) && (a * a) % p == (d * (b * b)) % p && b % p != 0
    ensures !NonSquare(d, p)
  {
    var c := PrimeInverse(p, b);
    InverseRoot(p, a, b, c, d);
  }

  lemma InverseRoot(p: int, a: int, b: int, c: int, d: int)
    requires p > 0 && (a * a) % p == (d * (b * b)) % p && (b * c) % p == 1 % p
    ensures IsSquareRoot(a * c, d, p)
  {
    MulSwap(a, c, a, c);
    ModMul(a * a, d * (b * b), c * c, c * c, p);
    MulAssoc(d, b * b, c * c);
    MulSwap(b, b, c, c);
    ModMul(b * c, 1, b * c, 1, p);
    ModMul(d, d, (b * c) * (b * c), 1, p);
  }

  /** (i x1 + n y1)^2 is d (x1 y1)^2 (i x2 + y2)^2 when d x1 y1 x2 y2 = n = 1 or -1 and i^2 = -1. */
  lemma Descent(x1: int, y1: int, x2: int, y2: int, d: int, i: int, n: int, m: int)
    requires m > 0 && OnCurveMod(x1, y1, d, m) && OnCurveMod(x2, y2, d, m) && (i * i) % m == (-1) % m
    requires (d * Mixed(x1, y1, x2, y2)) % m == n % m && (n * n) % m == 1 % m
    ensures var a, b := i * x1 + n * y1, (x1 * y1) * (i * x2 + y2); (a * a) % m == (d * (b * b)) % m
  {
    var t, t2, q1, q2 := x1 * y1, x2 * y2, y1 * y1 - x1 * x1, y2 * y2 - x2 * x2;
    var a, c := i * x1 + n * y1, i * x2 + y2;
    SquareForm(i, x1, n, y1, m);
    SquareForm(i, x2, 1, y2, m);
    CurveForm(x1, y1, d, m);
    CurveForm(x2, y2, d, m);
    MulSwap(x1, y1, x1, y1);
    MulSwap(x2, y2, x2, y2);
    RightSide(t, t2, d, i, n, q2, m);
    MulSwap(t, c, t, c);
    ModMul(t * t, t * t, c * c, q2 + 2 * (i * t2), m);
    ModMul(d, d, (t * t) * (c * c), (t * t) * (q2 + 2 * (i * t2)), m);
    ModAdd(q1, 1 + d * (t * t), 2 * (n * (i * t)), 2 * (n * (i * t)), m);
  }

  lemma RightSide(t: int, t2: int, d: int, i: int, n: int, q: int, m: int)
    requires m > 0 && q % m == (1 + d * (t2 * t2)) % m && (d * (t * t2)) % m == n % m && (n * n) % m == 1 % m
    ensures (d * ((t * t) * (q + 2 * (i * t2)))) % m == (1 + d * (t * t) + 2 * (n * (i * t))) % m
  {
    var tt, k := t * t, d * (t * t2);
    ModMul(d * tt, d * tt, q, 1 + d * (t2 * t2), m);
    assert (d * tt) * (d * (t2 * t2)) == k * k by {
      MulSwap(d, tt, d, t2 * t2);
      MulSwap(t, t, t2, t2);
      MulSwap(d, t * t2, d, t * t2);
    }
    assert (d * tt) * (1 + d * (t2 * t2)) == d * tt + k * k;
    ModMul(k, n, k, n, m);
    ModAdd(d * tt, d * tt, k * k, 1, m);
    SwapFactors(d, t, t2, i);
    ModMul(k, n, i * t, i * t, m);
    ModMul(2, 2, k * (i * t), n * (i * t), m);
    ModAdd((d * tt) * q, d * tt + 1, 2 * (k * (i * t)), 2 * (n * (i * t)), m);
    assert d * (tt * (q + 2 * (i * t2))) == (d * tt) * q + 2 * ((d * tt) * (i * t2)) by {
      MulAssoc(d, tt, q + 2 * (i * t2));
      Spread2(d * tt, q, i * t2);
    }
  }

  lemma Spread2(a: int, q: int, c: int)
    ensures a * (q + 2 * c) == a * q + 2 * (a * c)
  {}

  lemma SwapFactors(d: int, t: int, t2: int, i: int)
    ensures (d * (t * t)) * (i * t2) == (d * (t * t2)) * (i * t)
  {
    MulAssoc(d, t * t, i * t2);
    MulAssoc(d, t * t2, i * t);
    MulSwap(t, t, i, t2);
    MulSwap(t, t2, i, t);
    assert (t * i) * (t * t2) == (t * i) * (t2 * t);
  }

  /** (i x + n y)^2 is y^2 - x^2 + 2 n i x y. */
  lemma SquareForm(i: int, x: int, n: int, y: int, m: int)
    requires m > 0 && (i * i) % m == (-1) % m && (n * n) % m == 1 % m
    ensures var a := i * x + n * y; (a * a) % m == (y * y - x * x + 2 * (n * (i * (x * y)))) % m
  {
    var a, b := i * x, n * y;
    SquareOfSum(a, b);
    MulSwap(i, x, i, x);
    MulSwap(n, y, n, y);
    ModMul(i * i, -1, x * x, x * x, m);
    ModMul(n * n, 1, y * y, y * y, m);
    assert a * b == n * (i * (x * y)) by { MulSwap(i, x, n, y); MulAssoc(i, n, x * y); MulAssoc(n, i, x * y); }
    var c := 2 * (n * (i * (x * y)));
    ModAdd(a * a, -(x * x), b * b, y * y, m);
    ModAdd(a * a + b * b, y * y - x * x, c, c, m);
  }

  /** The denominators of a sum are never zero when -1 is a square and d is not: the law is complete. */
  lemma Complete(p: int, x1: int, y1: int, x2: int, y2: int, d: int, i: int)
    requires Prime(p) && p > 2 && OnCurveMod(x1, y1, d, p) && OnCurveMod(x2, y2, d, p)
    requires (i * i) % p == (-1) % p && NonSquare(d, p)
    ensures var w := d * Mixed(x1, y1, x2, y2); (1 + w) % p != 0 && (1 - w) % p != 0
  {
    var w := d * Mixed(x1, y1, x2, y2);
    if (1 - w) % p == 0 {
      ModAdd(1 - w, 0, w, w, p);
      NotUnit(p, x1, y1, x2, y2, d, i, 1);
    }
    if (1 + w) % p == 0 {
      ModSub(1 + w, 0, 1, 1, p);
      NotUnit(p, x1, y1, x2, y2, d, i, -1);
    }
  }

  lemma NotUnit(p: int, x1: int, y1: int, x2: int, y2: int, d: int, i: int, n: int)
    requires Prime(p) && p > 2 && OnCurveMod(x1, y1, d, p) && OnCurveMod(x2, y2, d, p) && (i * i) % p == (-1) % p
    requires (n == 1 || n == -1) && (d * Mixed(x1, y1, x2, y2)) % p == n % p
    ensures !NonSquare(d, p)
  {
    var t, t2, c, c' := x1 * y1, x2 * y2, i * x2 + y2, i * x2 - y2;
    assert n % p != 0 by { UnitNotZero(p, n); }
    if t % p == 0 { ProductZero(p, t, t2, d); }
    if t2 % p == 0 { ProductZero(p, t2, t, d); }
    if c % p != 0 {
      Descent(x1, y1, x2, y2, d, i, n, p);
      NotDivisible(p, t, c);
      SquareQuotient(p, i * x1 + n * y1, t * c, d);
    } else {
      OtherDescent(p, x1, y1, x2, y2, d, i, n);
    }
  }

  lemma UnitNotZero(p: int, n: int)
    requires p > 2 && (n == 1 || n == -1)
    ensures n % p != 0
  {
    if n == 1 { ModSmall(1, p); } else { ModIntro(-1, p - 1, -1, p); ModSmall(p - 1, p); }
  }

  lemma ProductZero(p: int, t: int, t2: int, d: int)
    requires p > 0 && t % p == 0
    ensures (d * (t * t2)) % p == 0 && (d * (t2 * t)) % p == 0
  {
    assert t2 * t == t * t2;
    ModMul(t, 0, t2, t2, p);
    ModMul(d, d, t * t2, 0, p);
  }

  /** The other sign, for a second point with i x2 + y2 = 0. */
  lemma OtherDescent(p: int, x1: int, y1: int, x2: int, y2: int, d: int, i: int, n: int)
    requires Prime(p) && p > 2 && OnCurveMod(x1, y1, d, p) && OnCurveMod(x2, y2, d, p) && (i * i) % p == (-1) % p
    requires (n == 1 || n == -1) && (d * Mixed(x1, y1, x2, y2)) % p == n % p
    requires (x1 * y1) % p != 0 && (x2 * y2) % p != 0 && (i * x2 + y2) % p == 0
    ensures !NonSquare(d, p)
  {
    var t, c := x1 * y1, i * x2 + (-y2);
    Reflected(x2, y2, d, p);
    assert Mixed(x1, y1, x2, -y2) == -Mixed(x1, y1, x2, y2) by { MulNegated(x1 * y1, x2, y2); }
    assert d * Mixed(x1, y1, x2, -y2) == -(d * Mixed(x1, y1, x2, y2)) by { MulNegated(1, d, Mixed(x1, y1, x2, y2)); }
    ModSub(0, 0, d * Mixed(x1, y1, x2, y2), n, p);
    if c % p == 0 {
      ModSub(i * x2 + y2, 0, c, 0, p);
      ModSmall(2, p);
      if y2 % p != 0 { NotDivisible(p, 2, y2); }
      ModMul(x2, x2, y2, 0, p);
    }
    Descent(x1, y1, x2, -y2, d, i, -n, p);
    NotDivisible(p, t, c);
    SquareQuotient(p, i * x1 + (-n) * y1, t * c, d);
  }

  lemma MulNegated(a: int, b: int, c: int)
    ensures b * -c == -(b * c) && a * (b * -c) == -(a * (b * c))
  {}

  lemma Reflected(x: int, y: int, d: int, m: int)
    requires m > 0 && OnCurveMod(x, y, d, m)
    ensures OnCurveMod(x, -y, d, m)
  {
    assert (-y) * (-y) == y * y;
  }
}
