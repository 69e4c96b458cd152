/** What the ladder of X25519 computes: each step doubles one point of the curve v^2 = u^3 + 486662 u^2 + u
    and adds two whose difference is known, on the u coordinate alone, and the ladder multiplies. */
module Montgomery {
  import opened Arith
  import opened Digits
  import opened Field25519
  import opened X25519
  import opened NumberTheory

  /** The coefficient of the curve. */
  const COEFF: int := 486662

  // ------------------------------------------------------------------ one step

  /** Doubling (x : z). */
  function DoubleX(x: int, z: int): int { (x * x - z * z) * (x * x - z * z) }
  function DoubleZ(x: int, z: int): int { 4 * (x * z) * (x * x + COEFF * (x * z) + z * z) }

  /** Adding (x : z) and (u : v), whose difference has the coordinate x1. */
  function SumX(x: int, z: int, u: int, v: int): int { 4 * ((x * u - z * v) * (x * u - z * v)) }
  function SumZ(x: int, z: int, u: int, v: int, x1: int): int { 4 * (x1 * ((x * v - z * u) * (x * v - z * u))) }

  lemma SquareOf(r: int, v: int, s: int, m: int)
    requires m > 0 && r == v % m && s == (r * r) % m
    ensures s % m == (v * v) % m
  {
    ModMod(v, m);
    ModMul(r, v, r, v, m);
    ModMod(r * r, m);
  }

  lemma DoubleLaw(x: int, z: int, a: int, aa: int, b: int, bb: int, e: int, k: int, c: int, m: int)
    requires m > 0 && a == (x + z) % m && aa == (a * a) % m && b == (x - z) % m && bb == (b * b) % m
    requires e == (aa - bb) % m && 4 * k + 2 == c
    ensures (aa * bb) % m == ((x * x - z * z) * (x * x - z * z)) % m
    ensures (e * ((aa + (k * e) % m) % m)) % m == (4 * (x * z) * (x * x + c * (x * z) + z * z)) % m
  {
    var p, q, w := x + z, x - z, x * z;
    SquareOf(a, p, aa, m);
    SquareOf(b, q, bb, m);
    ModMul(aa, p * p, bb, q * q, m);
    MulSwap(p, p, q, q);
    assert p * q == x * x - z * z;
    assert p * p == x * x + z * z + 2 * w && q * q == x * x + z * z - 2 * w;
    ModSub(aa, p * p, bb, q * q, m);
    ModMod(aa - bb, m);
    assert e % m == (4 * w) % m;
    ModMul(k, k, e, 4 * w, m);
    ModMod(k * e, m);
    ModAdd(aa, p * p, (k * e) % m, k * (4 * w), m);
    ModMod(aa + (k * e) % m, m);
    assert p * p + k * (4 * w) == x * x + c * w + z * z by { assert c * w == (4 * k) * w + 2 * w; MulAssoc(k, 4, w); }
    ModMul(e, 4 * w, (aa + (k * e) % m) % m, x * x + c * w + z * z, m);
  }

  lemma SumTerms(x: int, z: int, u: int, v: int)
    ensures (u - v) * (x + z) + (u + v) * (x - z) == 2 * (x * u - z * v)
    ensures (u - v) * (x + z) - (u + v) * (x - z) == -2 * (x * v - z * u)
  {
    MulDistribute(u, -v, x + z);
    MulDistribute(u, v, x - z);
  }

  lemma CrossTerm(d: int, d': int, a: int, a': int, r: int, m: int)
    requires m > 0 && d == d' % m && a == a' % m && r == (d * a) % m
    ensures r % m == (d' * a') % m
  {
    ModMod(d', m);
    ModMod(a', m);
    ModMul(d, d', a, a', m);
    ModMod(d * a, m);
  }

  lemma DoubledSquare(r: int, v: int, w: int, s: int, m: int)
    requires m > 0 && r % m == v % m && (v == 2 * w || v == -2 * w) && s == (r * r) % m
    ensures s % m == (4 * (w * w)) % m
  {
    ModMul(r, v, r, v, m);
    ModMod(r * r, m);
    assert v * v == 4 * (w * w);
  }

  lemma SumLaw(x1: int, x: int, z: int, u: int, v: int, da: int, cb: int, plus: int, minus: int, m: int)
    requires m > 0 && da % m == ((u - v) * (x + z)) % m && cb % m == ((u + v) * (x - z)) % m
    requires plus == (da + cb) % m && minus == (da - cb) % m
    ensures (plus * plus) % m == (4 * ((x * u - z * v) * (x * u - z * v))) % m
    ensures (x1 * ((minus * minus) % m)) % m == (4 * (x1 * ((x * v - z * u) * (x * v - z * u)))) % m
  {
    var p, q := (u - v) * (x + z), (u + v) * (x - z);
    SumTerms(x, z, u, v);
    ModAdd(da, p, cb, q, m);
    ModSub(da, p, cb, q, m);
    ModMod(da + cb, m);
    ModMod(da - cb, m);
    DoubledSquare(plus, p + q, x * u - z * v, (plus * plus) % m, m);
    ModMod(plus * plus, m);
    var w := x * v - z * u;
    DoubledSquare(minus, p - q, w, (minus * minus) % m, m);
    ModMul(x1, x1, (minus * minus) % m, 4 * (w * w), m);
    assert x1 * (4 * (w * w)) == 4 * (x1 * (w * w)) by { MulAssoc(4, x1, w * w); MulAssoc(x1, 4, w * w); }
  }

  /** The step of X25519 modulo any m. */
  function StepMod(x1: int, s: Pair, m: int): Pair
    requires m > 0
  {
    var a, b := (s.x2 + s.z2) % m, (s.x2 - s.z2) % m;
    var aa, bb := (a * a) % m, (b * b) % m;
    var e := (aa - bb) % m;
    var c, d := (s.x3 + s.z3) % m, (s.x3 - s.z3) % m;
    var da, cb := (d * a) % m, (c * b) % m;
    var plus, minus := (da + cb) % m, (da - cb) % m;
    Pair((aa * bb) % m, (e * ((aa + (A24 * e) % m) % m)) % m,
         (plus * plus) % m, (x1 * ((minus * minus) % m)) % m)
  }

  lemma StepIs(x1: int, s: Pair)
    ensures Step(x1, s) == StepMod(x1, s, P)
  {}

  /** A step doubles the first point and adds the two, with the coefficient of the curve. */
  lemma StepLaw(x1: int, s: Pair, m: int)
    requires m > 0
    ensures StepMod(x1, s, m) == Pair(DoubleX(s.x2, s.z2) % m, DoubleZ(s.x2, s.z2) % m,
                                      SumX(s.x2, s.z2, s.x3, s.z3) % m, SumZ(s.x2, s.z2, s.x3, s.z3, x1) % m)
  {
    var a, b := (s.x2 + s.z2) % m, (s.x2 - s.z2) % m;
    var aa, bb := (a * a) % m, (b * b) % m;
    DoubleLaw(s.x2, s.z2, a, aa, b, bb, (aa - bb) % m, A24, COEFF, m);
    var c, d := (s.x3 + s.z3) % m, (s.x3 - s.z3) % m;
    var da, cb := (d * a) % m, (c * b) % m;
    CrossTerm(d, s.x3 - s.z3, a, s.x2 + s.z2, da, m);
    CrossTerm(c, s.x3 + s.z3, b, s.x2 - s.z2, cb, m);
    SumLaw(x1, s.x2, s.z2, s.x3, s.z3, da, cb, (da + cb) % m, (da - cb) % m, m);
  }

  // ------------------------------------------------------------------ tangents and chords

  /** The right side of the curve equation. */
  function Cubic(u: int, c: int): int
  {
    u * (u * u + c * u + 1)
  }

  /** The tangent of slope t at (u, v) meets the curve b v^2 = u^3 + c u^2 + u again at b t^2 - c - 2u. */
  predicate OnTangent(u: int, v: int, t: int, w: int, b: int, c: int, m: int)
    requires m > 0
  {
    (2 * (b * v) * t) % m == (3 * (u * u) + 2 * (c * u) + 1) % m && w % m == (b * (t * t) - c - 2 * u) % m
  }

  /** The chord of slope t through (u, v) and (u', v') meets it at b t^2 - c - u - u'. */
  predicate OnChord(u: int, v: int, u': int, v': int, t: int, w: int, b: int, c: int, m: int)
    requires m > 0
  {
    (t * (u' - u)) % m == (v' - v) % m && w % m == (b * (t * t) - c - u - u') % m
  }

  lemma TangentIdentity(u: int, c: int)
    ensures var n := 3 * (u * u) + 2 * (c * u) + 1;
      n * n - 4 * (Cubic(u, c) * (c + 2 * u)) == (u * u - 1) * (u * u - 1)
  {
    var p, q := u * u, c * u;
    MulSwap(u, p + q + 1, 1, c + 2 * u);
    assert u * (c + 2 * u) == q + 2 * p;
    assert Cubic(u, c) * (c + 2 * u) == (p + q + 1) * (q + 2 * p) by {
      MulAssoc(p + q + 1, u, c + 2 * u);
    }
    SquareOfThree(3 * p, 2 * q, 1);
    ProductOfSums(p, q);
    SquareOfThree(p, -1, 0);
  }

  lemma SquareOfThree(a: int, b: int, c: int)
    ensures (a + b + c) * (a + b + c) == a * a + b * b + c * c + 2 * (a * b) + 2 * (a * c) + 2 * (b * c)
  {
    MulDistribute(a + b, c, a + b + c);
    MulDistribute(a, b, a + b + c);
  }

  lemma ProductOfSums(p: int, q: int)
    ensures (p + q + 1) * (q + 2 * p) == 3 * (p * q) + 2 * (p * p) + q * q + q + 2 * p
  {
    MulDistribute(p + q, 1, q + 2 * p);
    MulDistribute(p, q, q + 2 * p);
  }

  /** The u coordinate of a doubled point. */
  lemma TangentLaw(u: int, v: int, t: int, w: int, b: int, c: int, m: int)
    requires m > 0 && (b * (v * v)) % m == Cubic(u, c) % m && OnTangent(u, v, t, w, b, c, m)
    ensures (w * (4 * Cubic(u, c))) % m == ((u * u - 1) * (u * u - 1)) % m
  {
    var f, g, n := Cubic(u, c), b * (v * v), 3 * (u * u) + 2 * (c * u) + 1;
    var l, k := 2 * (b * v) * t, c + 2 * u;
    ModMul(4, 4, f, g, m);
    ModMul(w, b * (t * t) - c - 2 * u, 4 * f, 4 * g, m);
    assert (b * (t * t) - k) * (4 * g) == l * l - 4 * (g * k) by { SlopeSquare(b, v, t, k); }
    ModMul(l, n, l, n, m);
    ModMul(g, f, k, k, m);
    ModMul(4, 4, g * k, f * k, m);
    ModSub(l * l, n * n, 4 * (g * k), 4 * (f * k), m);
    TangentIdentity(u, c);
  }

  lemma SlopeSquare(b: int, v: int, t: int, k: int)
    ensures (b * (t * t) - k) * (4 * (b * (v * v))) == (2 * (b * v) * t) * (2 * (b * v) * t) - 4 * ((b * (v * v)) * k)
  {
    var g, h := b * (v * v), b * (t * t);
    assert (2 * (b * v) * t) * (2 * (b * v) * t) == 4 * ((b * v * t) * (b * v * t));
    assert (b * v * t) * (b * v * t) == h * g by {
      MulSwap(b * v, t, b * v, t);
      MulSwap(b, v, b, v);
      MulSwap(b, v * v, b, t * t);
      MulAssoc(b * b, v * v, t * t);
    }
    assert (h - k) * (4 * g) == 4 * (h * g) - 4 * (g * k);
  }

  /** In terms of the sum and the product of two coordinates. */
  lemma ChordIdentity(u: int, u': int, c: int)
    ensures var s, p, d := u + u', u * u', (u' - u) * (u' - u);
      var f, f' := Cubic(u, c), Cubic(u', c); var a := f + f' - (c + s) * d;
      a * a - 4 * (f * f') == (p - 1) * (p - 1) * d
  {
    var s, p, d := u + u', u * u', (u' - u) * (u' - u);
    var f, f' := Cubic(u, c), Cubic(u', c);
    assert d == s * s - 4 * p by { SquareOfThree(u', -u, 0); SquareOfThree(u, u', 0); }
    CubicSum(u, u', c);
    CubicProduct(u, u', c);
    ChordPolynomial(s, p, c);
  }

  lemma CubicSum(u: int, u': int, c: int)
    ensures var s, p := u + u', u * u'; Cubic(u, c) + Cubic(u', c) == s * (s * s - 3 * p) + c * (s * s - 2 * p) + s
  {
    var s, p, q, q' := u + u', u * u', u * u, u' * u';
    assert Cubic(u, c) == u * q + c * q + u && Cubic(u', c) == u' * q' + c * q' + u' by {
      CubicForm(u, c);
      CubicForm(u', c);
    }
    assert s * s == q + q' + 2 * p by { SquareOfThree(u, u', 0); }
    assert s * (q + q' - p) == u * q + u' * q' by {
      CubesSum(u, u', p, q, q');
    }
    assert c * (q + q') == c * q + c * q';
  }

  lemma CubesSum(u: int, u': int, p: int, q: int, q': int)
    requires p == u * u' && q == u * u && q' == u' * u'
    ensures (u + u') * (q + q' - p) == u * q + u' * q'
  {
    MulDistribute(u, u', q + q' - p);
    MulAssoc(u, u', u');
    MulAssoc(u', u, u);
    assert u * (q + q' - p) == u * q + u * q' - u * p && u' * (q + q' - p) == u' * q + u' * q' - u' * p;
  }

  lemma CubicForm(u: int, c: int)
    ensures Cubic(u, c) == u * (u * u) + c * (u * u) + u
  {
    assert u * (c * u) == c * (u * u) by { MulAssoc(c, u, u); MulAssoc(u, c, u); }
  }

  lemma CubicProduct(u: int, u': int, c: int)
    ensures var s, p := u + u', u * u';
      Cubic(u, c) * Cubic(u', c) == p * (p * p + c * (p * s) + s * s - 2 * p + c * c * p + c * s + 1)
  {
    var s, p, q, q' := u + u', u * u', u * u, u' * u';
    MulSwap(u, q + c * u + 1, u', q' + c * u' + 1);
    assert s * s == q + q' + 2 * p by { SquareOfThree(u, u', 0); }
    assert q * q' == p * p by { MulSwap(u, u, u', u'); }
    QuadraticProduct(u, u', c, p, q, q');
    assert c * (p * s) == c * (p * u) + c * (p * u') by { assert p * s == p * u + p * u'; }
    assert c * s == c * u + c * u';
  }

  lemma QuadraticProduct(u: int, u': int, c: int, p: int, q: int, q': int)
    requires p == u * u' && q == u * u && q' == u' * u'
    ensures (q + c * u + 1) * (q' + c * u' + 1) ==
      q * q' + c * (p * u) + c * (p * u') + q + q' + c * c * p + c * u + c * u' + 1
  {
    var y, y' := c * u, c * u';
    MulDistribute(q + y, 1, q' + y' + 1);
    MulDistribute(q, y, q' + y' + 1);
    assert q * (q' + y' + 1) == q * q' + q * y' + q && y * (q' + y' + 1) == y * q' + y * y' + y;
    assert q * y' == c * (p * u) by { MulAssoc(u, u, y'); Shuffle(u, u', c); }
    assert y * q' == c * (p * u') by { Shuffle(u', u, c); }
    assert y * y' == c * c * p by { MulSwap(c, u, c, u'); }
  }

  lemma Shuffle(u: int, u': int, c: int)
    ensures (u * u) * (c * u') == c * ((u * u') * u)
  {
    MulSwap(u, u, c, u');
    MulAssoc(c, u, u * u');
    assert (u * c) * (u * u') == (c * u) * (u * u');
  }

  lemma ChordPolynomial(s: int, p: int, c: int)
    ensures var d := s * s - 4 * p; var sum := s * (s * s - 3 * p) + c * (s * s - 2 * p) + s;
      var a := sum - (c + s) * d;
      && a == s * (p + 1) + 2 * (c * p)
      && a * a - 4 * (p * (p * p + c * (p * s) + s * s - 2 * p + c * c * p + c * s + 1)) == (p - 1) * (p - 1) * d
  {
    var q := s * s;
    ChordLinear(s, p, c, q);
    var x, y := s * (p + 1), 2 * (c * p);
    SquareOfThree(x, y, 0);
    assert x * x == q * ((p + 1) * (p + 1)) by { MulSwap(s, p + 1, s, p + 1); }
    ChordQuadratic(s, p, c, q, x, y);
  }

  lemma ChordLinear(s: int, p: int, c: int, q: int)
    requires q == s * s
    ensures s * (q - 3 * p) + c * (q - 2 * p) + s - (c + s) * (q - 4 * p) == s * (p + 1) + 2 * (c * p)
  {
    MulDistribute(c, s, q - 4 * p);
    assert s * (q - 3 * p) - s * (q - 4 * p) == s * p && c * (q - 2 * p) - c * (q - 4 * p) == 2 * (c * p);
    assert s * (p + 1) == s * p + s;
  }

  lemma ChordQuadratic(s: int, p: int, c: int, q: int, x: int, y: int)
    requires q == s * s && x == s * (p + 1) && y == 2 * (c * p) && x * x == q * ((p + 1) * (p + 1))
    ensures x * x + y * y + 2 * (x * y) - 4 * (p * (p * p + c * (p * s) + q - 2 * p + c * c * p + c * s + 1)) ==
      (p - 1) * (p - 1) * (q - 4 * p)
  {
    var z := c * p;
    assert y * y == 4 * (z * z);
    assert p * (c * c * p) == z * z by { MulSwap(c, c, p, p); MulAssoc(c * c, p, p); MulSwap(c, p, c, p); }
    assert x * y == 2 * (x * z);
    assert p * (c * (p * s) + c * s) == x * z by { MixedTerm(s, p, c); }
    assert p * (p * p + c * (p * s) + q - 2 * p + c * c * p + c * s + 1) ==
      p * (p * p - 2 * p + 1) + p * (c * (p * s) + c * s) + p * q + p * (c * c * p);
    SquareOfThree(p, 1, 0);
    SquareOfThree(p, -1, 0);
    var w := p * p - 2 * p + 1;
    assert (p + 1) * (p + 1) == w + 4 * p && (p - 1) * (p - 1) == w;
    assert q * (w + 4 * p) == q * w + 4 * (p * q);
    assert w * (q - 4 * p) == q * w - 4 * (p * w);
  }

  lemma MixedTerm(s: int, p: int, c: int)
    ensures p * (c * (p * s) + c * s) == (s * (p + 1)) * (c * p)
  {
    assert c * (p * s) + c * s == c * (s * (p + 1)) by { assert p * s + s == s * (p + 1); }
    MulAssoc(p, c, s * (p + 1));
  }

  /** What a chord of slope t gives, without the division. */
  lemma ChordScaled(u: int, v: int, u': int, v': int, t: int, w: int, b: int, c: int, m: int)
    requires m > 0 && OnChord(u, v, u', v', t, w, b, c, m)
    ensures var d := (u' - u) * (u' - u);
      (w * d) % m == (b * (v * v) + b * (v' * v') - (c + (u + u')) * d - 2 * (b * (v * v'))) % m
  {
    var h, l := u' - u, t * (u' - u);
    var d, k := h * h, c + (u + u');
    ModMul(w, b * (t * t) - c - u - u', d, d, m);
    assert (b * (t * t) - k) * d == b * (l * l) - k * d by {
      MulDistribute(b * (t * t), -k, d);
      MulAssoc(b, t * t, d);
      MulSwap(t, h, t, h);
    }
    ModMul(l, v' - v, l, v' - v, m);
    ModMul(b, b, l * l, (v' - v) * (v' - v), m);
    ModSub(b * (l * l), b * ((v' - v) * (v' - v)), k * d, k * d, m);
    SquareOfThree(v', -v, 0);
    assert b * (v * v + v' * v' - 2 * (v * v')) == b * (v * v) + b * (v' * v') - 2 * (b * (v * v'));
  }

  /** The two chords multiplied: x and y are conjugate, and g, h may be replaced by what they are congruent to. */
  lemma Conjugates(x: int, y: int, g: int, h: int, f: int, e: int, k: int, r: int, m: int)
    requires m > 0 && g % m == f % m && h % m == e % m && r * r == g * h
    requires x % m == (g + h - k - 2 * r) % m && y % m == (g + h - k + 2 * r) % m
    ensures (x * y) % m == ((f + e - k) * (f + e - k) - 4 * (f * e)) % m
  {
    var al, be := g + h - k, f + e - k;
    ModMul(x, al - 2 * r, y, al + 2 * r, m);
    assert (al - 2 * r) * (al + 2 * r) == al * al - 4 * (g * h) by { DifferenceOfSquares(al, r); }
    ModAdd(g, f, h, e, m);
    ModSub(g + h, f + e, k, k, m);
    ModMul(al, be, al, be, m);
    ModMul(g, f, h, e, m);
    ModMul(4, 4, g * h, f * e, m);
    ModSub(al * al, be * be, 4 * (g * h), 4 * (f * e), m);
  }

  lemma DifferenceOfSquares(a: int, r: int)
    ensures (a - 2 * r) * (a + 2 * r) == a * a - 4 * (r * r)
  {
    MulDistribute(a, -2 * r, a + 2 * r);
  }

  /** The product of the u coordinates of a sum and a difference. */
  lemma ChordLaw(u: int, v: int, u': int, v': int, t: int, w: int, t': int, w': int, b: int, c: int, m: int)
    requires Prime(m) && (b * (v * v)) % m == Cubic(u, c) % m && (b * (v' * v')) % m == Cubic(u', c) % m
    requires OnChord(u, v, u', v', t, w, b, c, m) && OnChord(u, v, u', -v', t', w', b, c, m) && (u' - u) % m != 0
    ensures ((w * w') * ((u' - u) * (u' - u))) % m == ((u * u' - 1) * (u * u' - 1)) % m
  {
    var d, k := (u' - u) * (u' - u), c + (u + u');
    ChordScaled(u, v, u', v', t, w, b, c, m);
    ChordScaled(u, v, u', -v', t', w', b, c, m);
    Opposed(b, v, v');
    SquareOfCross(b, v, v');
    Conjugates(w * d, w' * d, b * (v * v), b * (v' * v'), Cubic(u, c), Cubic(u', c), k * d, b * (v * v'), m);
    ChordIdentity(u, u', c);
    NotDivisible(m, u' - u, u' - u);
    ChordCancelled(w, w', d, (u * u' - 1) * (u * u' - 1), m);
  }

  lemma ChordCancelled(w: int, w': int, d: int, q: int, m: int)
    requires Prime(m) && d % m != 0 && ((w * d) * (w' * d)) % m == (q * d) % m
    ensures ((w * w') * d) % m == q % m
  {
    assert (w * d) * (w' * d) == d * ((w * w') * d) by { MulSwap(w, d, w', d); MulAssoc(d, w * w', d); }
    assert d * q == q * d;
    Cancel(m, d, (w * w') * d, q);
  }

  lemma Opposed(b: int, v: int, v': int)
    ensures b * ((-v') * (-v')) == b * (v' * v') && 2 * (b * (v * (-v'))) == -(2 * (b * (v * v')))
  {
    assert (-v') * (-v') == v' * v' && v * (-v') == -(v * v');
    assert b * -(v * v') == -(b * (v * v'));
  }

  lemma SquareOfCross(b: int, v: int, v': int)
    ensures (b * (v * v')) * (b * (v * v')) == (b * (v * v)) * (b * (v' * v'))
  {
    MulSwap(b, v * v', b, v * v');
    MulSwap(v, v', v, v');
    MulSwap(b, v * v, b, v' * v');
  }
}
