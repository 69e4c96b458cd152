/** X25519 multiplies points: in any group whose elements lie on b v^2 = u^3 + 486662 u^2 + u and are added by
    tangents and chords, the ladder yields the u coordinate of the multiple. Every u is on such a curve, with b
    a square or not. */
module MontgomeryCurve {
  import opened Arith
  import opened Common
  import opened Field25519
  import opened NumberTheory
  import opened X25519
  import opened Montgomery
  import opened Ed25519
  import opened Digits
  import SquareRoot

  datatype UV = UV(u: int, v: int)

  /** Large enough for the coefficient of the curve. */
  type Modulus = m: int | m > COEFF + 2 witness COEFF + 3

  /** A group and the coordinates of its elements modulo m; the neutral element has none. */
  datatype Curve<!G> = Curve(group: Group<G>, b: int, m: Modulus, at: G -> Option<UV>)

  ghost predicate Lies<G>(cv: Curve<G>, p: G)
  {
    cv.at(p).Some? ==> var q := cv.at(p).value; (cv.b * (q.v * q.v)) % cv.m == Cubic(q.u, COEFF) % cv.m
  }

  ghost predicate Placed<G>(cv: Curve<G>, p: G)
  {
    cv.at(p).None? <==> p == cv.group.zero
  }

  ghost predicate Mirrored<G>(cv: Curve<G>, p: G)
  {
    cv.at(p).Some? ==>
      && cv.at(cv.group.neg(p)).Some?
      && var q, r := cv.at(p).value, cv.at(cv.group.neg(p)).value;
         r.u % cv.m == q.u % cv.m && r.v % cv.m == (-q.v) % cv.m
  }

  ghost predicate Separate<G>(cv: Curve<G>, p: G, q: G)
  {
    cv.at(p).Some? && cv.at(q).Some? ==>
      var c, d := cv.at(p).value, cv.at(q).value;
      c.u % cv.m == d.u % cv.m && c.v % cv.m == d.v % cv.m ==> p == q
  }

  ghost predicate Tangential<G>(cv: Curve<G>, p: G)
  {
    cv.at(p).Some? ==>
      var q, r := cv.at(p).value, cv.group.add(p, p);
      if q.v % cv.m == 0 then r == cv.group.zero
      else cv.at(r).Some? && exists t :: OnTangent(q.u, q.v, t, cv.at(r).value.u, cv.b, COEFF, cv.m)
  }

  ghost predicate Chordal<G>(cv: Curve<G>, p: G, q: G)
  {
    cv.at(p).Some? && cv.at(q).Some? && cv.at(p).value.u % cv.m != cv.at(q).value.u % cv.m ==>
      var c, d, r := cv.at(p).value, cv.at(q).value, cv.group.add(p, q);
      cv.at(r).Some? && exists t :: OnChord(c.u, c.v, d.u, d.v, t, cv.at(r).value.u, cv.b, COEFF, cv.m)
  }

  /** The elements are the points of a Montgomery curve with the coefficient of section 4.1 of RFC 7748 and
      the neutral one, added by chord and tangent. */
  ghost predicate Lawful<G(!new)>(cv: Curve<G>)
  {
    && Prime(cv.m) && cv.b % cv.m != 0 && Abelian(cv.group)
    && (forall p :: Lies(cv, p)) && (forall p :: Placed(cv, p)) && (forall p :: Mirrored(cv, p))
    && (forall p, q :: Separate(cv, p, q)) && (forall p :: Tangential(cv, p)) && (forall p, q :: Chordal(cv, p, q))
  }

  /** (x : z) is the u coordinate of p, or the point at infinity. */
  ghost predicate Stands<G>(cv: Curve<G>, x: int, z: int, p: G)
  {
    if cv.at(p).None? then z % cv.m == 0 && x % cv.m != 0
    else z % cv.m != 0 && x % cv.m == (cv.at(p).value.u * z) % cv.m
  }

  // ------------------------------------------------------------------ doubling

  lemma Homogeneous(x: int, z: int, u: int, m: int)
    requires m > 0 && x % m == (u * z) % m
    ensures (x * x) % m == ((u * u) * (z * z)) % m && (x * z) % m == (u * (z * z)) % m
  {
    ModMul(x, u * z, x, u * z, m);
    MulSwap(u, z, u, z);
    ModMul(x, u * z, z, z, m);
    MulAssoc(u, z, z);
  }

  lemma DoubleScaled(x: int, z: int, u: int, c: int, m: int)
    requires m > 0 && x % m == (u * z) % m
    ensures ((x * x - z * z) * (x * x - z * z)) % m == (((u * u - 1) * (u * u - 1)) * ((z * z) * (z * z))) % m
    ensures (4 * (x * z) * (x * x + c * (x * z) + z * z)) % m == ((4 * Cubic(u, c)) * ((z * z) * (z * z))) % m
  {
    var zz, q := z * z, u * u + c * u + 1;
    Homogeneous(x, z, u, m);
    ModSub(x * x, (u * u) * zz, zz, zz, m);
    ModMul(x * x - zz, (u * u - 1) * zz, x * x - zz, (u * u - 1) * zz, m);
    MulSwap(u * u - 1, zz, u * u - 1, zz);
    ModMul(c, c, x * z, u * zz, m);
    ModAdd(x * x, (u * u) * zz, c * (x * z), c * (u * zz), m);
    ModAdd(x * x + c * (x * z), (u * u) * zz + c * (u * zz), zz, zz, m);
    assert (u * u) * zz + c * (u * zz) + zz == q * zz by { MulAssoc(c, u, zz); }
    ModMul(4, 4, x * z, u * zz, m);
    ModMul(4 * (x * z), 4 * (u * zz), x * x + c * (x * z) + zz, q * zz, m);
    assert (4 * (u * zz)) * (q * zz) == (4 * (u * q)) * (zz * zz) by {
      MulSwap(u, zz, q, zz);
      MulAssoc(4, u * zz, q * zz);
      MulAssoc(4, u * q, zz * zz);
    }
  }

  lemma ScaledStand(r: int, s: int, w: int, n: int, d: int, k: int, m: int)
    requires Prime(m) && r == (n * k) % m && s == (d * k) % m && (w * d) % m == n % m && d % m != 0 && k % m != 0
    ensures s % m != 0 && r % m == (w * s) % m
  {
    NotDivisible(m, d, k);
    ModMod(n * k, m);
    ModMod(d * k, m);
    ModMul(n, w * d, k, k, m);
    ModMul(w, w, s, d * k, m);
    MulAssoc(w, d, k);
  }

  lemma DoubleStands<G(!new)>(cv: Curve<G>, x: int, z: int, p: G)
    requires Lawful(cv) && Stands(cv, x, z, p)
    ensures Stands(cv, DoubleX(x, z) % cv.m, DoubleZ(x, z) % cv.m, cv.group.add(p, p))
  {
    assert Placed(cv, p) && Lies(cv, p) && Tangential(cv, p);
    if cv.at(p).None? {
      assert Neutral(cv.group, p);
      DoubleInfinite(x, z, COEFF, cv.m);
    } else {
      DoubleFinite(cv, x, z, p, cv.at(p).value);
    }
  }

  lemma DoubleInfinite(x: int, z: int, c: int, m: int)
    requires Prime(m) && z % m == 0 && x % m != 0
    ensures (((x * x - z * z) * (x * x - z * z)) % m) % m != 0
    ensures ((4 * (x * z) * (x * x + c * (x * z) + z * z)) % m) % m == 0
  {
    ModMul(z, 0, z, 0, m);
    ModSub(x * x, x * x, z * z, 0, m);
    NotDivisible(m, x, x);
    NotDivisible(m, x * x - z * z, x * x - z * z);
    ModMod((x * x - z * z) * (x * x - z * z), m);
    ModMul(x, x, z, 0, m);
    ModMul(4, 4, x * z, 0, m);
    var q := x * x + c * (x * z) + z * z;
    ModMul(4 * (x * z), 0, q, q, m);
    ModMod(4 * (x * z) * q, m);
  }

  /** v = 0 only where u^2 is not 1, as 486662 is neither 2 nor -2. */
  lemma NoSharedRoot(u: int, c: int, m: int)
    requires Prime(m) && (u * u) % m == 1 % m && Cubic(u, c) % m == 0
    ensures (c - 2) % m == 0 || (c + 2) % m == 0
  {
    assert m > 1;
    if u % m == 0 { ModMul(u, 0, u, 0, m); ModSmall(1, m); ModSmall(0, m); }
    EuclidLemma(m, u, u * u + c * u + 1);
    ModSub(u * u + c * u + 1, 0, u * u, 1, m);
    ModAdd(c * u + 1, -1, 1, 1, m);
    // so c u = -2, and c^2 = 4
    ModMul(c * u + 2, 0, c * u - 2, c * u - 2, m);
    assert (c * u + 2) * (c * u - 2) == (c * c) * (u * u) - 4 by { MulSwap(c, u, c, u); }
    ModMul(c * c, c * c, u * u, 1, m);
    ModSub((c * c) * (u * u), c * c, 4, 4, m);
    assert (c - 2) * (c + 2) == c * c - 4;
    if (c - 2) % m != 0 { EuclidLemma(m, c - 2, c + 2); }
  }

  lemma CoefficientOk(m: Modulus)
    ensures (COEFF - 2) % m != 0 && (COEFF + 2) % m != 0
  {
    ModSmall(COEFF - 2, m);
    ModSmall(COEFF + 2, m);
  }

  lemma FourthPower(z: int, m: int)
    requires Prime(m) && z % m != 0
    ensures ((z * z) * (z * z)) % m != 0
  {
    NotDivisible(m, z, z);
    NotDivisible(m, z * z, z * z);
  }

  lemma FourTimes(a: int, m: int)
    requires Prime(m) && m > 4 && a % m != 0
    ensures (4 * a) % m != 0
  {
    ModSmall(4, m);
    NotDivisible(m, 4, a);
  }

  lemma DoubleFinite<G(!new)>(cv: Curve<G>, x: int, z: int, p: G, q: UV)
    requires Lawful(cv) && Stands(cv, x, z, p) && cv.at(p) == Some(q)
    ensures Stands(cv, DoubleX(x, z) % cv.m, DoubleZ(x, z) % cv.m, cv.group.add(p, p))
  {
    var r := cv.group.add(p, p);
    assert Placed(cv, p) && Lies(cv, p) && Tangential(cv, p) && Placed(cv, r);
    if q.v % cv.m == 0 {
      CoefficientOk(cv.m);
      VanishingDouble(cv.b, q.u, q.v, x, z, cv.m);
    } else {
      var w := cv.at(r).value.u;
      var t :| OnTangent(q.u, q.v, t, w, cv.b, COEFF, cv.m);
      TangentLaw(q.u, q.v, t, w, cv.b, COEFF, cv.m);
      CubicNonzero(cv.b, q.u, q.v, cv.m);
      DoubleRatio(x, z, q.u, w, cv.m);
    }
  }

  lemma DoubleRatio(x: int, z: int, u: int, w: int, m: int)
    requires Prime(m) && m > 4 && z % m != 0 && x % m == (u * z) % m && Cubic(u, COEFF) % m != 0
    requires (w * (4 * Cubic(u, COEFF))) % m == ((u * u - 1) * (u * u - 1)) % m
    ensures (DoubleZ(x, z) % m) % m != 0 && (DoubleX(x, z) % m) % m == (w * (DoubleZ(x, z) % m)) % m
  {
    var k, f := (z * z) * (z * z), Cubic(u, COEFF);
    DoubleScaled(x, z, u, COEFF, m);
    FourthPower(z, m);
    FourTimes(f, m);
    ScaledStand(DoubleX(x, z) % m, DoubleZ(x, z) % m, w, (u * u - 1) * (u * u - 1), 4 * f, k, m);
  }

  lemma CubicNonzero(b: int, u: int, v: int, m: int)
    requires Prime(m) && (b * (v * v)) % m == Cubic(u, COEFF) % m && b % m != 0 && v % m != 0
    ensures Cubic(u, COEFF) % m != 0
  {
    NotDivisible(m, v, v);
    NotDivisible(m, b, v * v);
  }

  lemma VanishingDouble(b: int, u: int, v: int, x: int, z: int, m: int)
    requires Prime(m) && (b * (v * v)) % m == Cubic(u, COEFF) % m && v % m == 0 && z % m != 0 && x % m == (u * z) % m
    requires (COEFF - 2) % m != 0 && (COEFF + 2) % m != 0
    ensures (DoubleX(x, z) % m) % m != 0 && (DoubleZ(x, z) % m) % m == 0
  {
    var k := (z * z) * (z * z);
    DoubleScaled(x, z, u, COEFF, m);
    FourthPower(z, m);
    ModMul(v, 0, v, 0, m);
    ModMul(b, b, v * v, 0, m);
    ModMul(4, 4, Cubic(u, COEFF), 0, m);
    ModMul(4 * Cubic(u, COEFF), 0, k, k, m);
    if (u * u - 1) % m == 0 {
      ModAdd(u * u - 1, 0, 1, 1, m);
      NoSharedRoot(u, COEFF, m);
    }
    NotDivisible(m, u * u - 1, u * u - 1);
    NotDivisible(m, (u * u - 1) * (u * u - 1), k);
    ModMod(DoubleX(x, z), m);
    ModMod(DoubleZ(x, z), m);
  }

  // ------------------------------------------------------------------ differential addition

  lemma SumScaled(x: int, z: int, u: int, y: int, w: int, u': int, x1: int, m: int)
    requires m > 0 && x % m == (u * z) % m && y % m == (u' * w) % m
    ensures var k := (z * w) * (z * w);
      && (4 * ((x * y - z * w) * (x * y - z * w))) % m == (((u * u' - 1) * (u * u' - 1)) * (4 * k)) % m
      && (4 * (x1 * ((x * w - z * y) * (x * w - z * y)))) % m == ((x1 * ((u' - u) * (u' - u))) * (4 * k)) % m
  {
    var j, p, q := z * w, u * u' - 1, u' - u;
    ModMul(x, u * z, y, u' * w, m);
    MulSwap(u, z, u', w);
    ModSub(x * y, (u * u') * j, j, j, m);
    SquareTimes(x * y - j, p, j, m);
    ModMul(4, 4, (x * y - j) * (x * y - j), (p * p) * (j * j), m);
    ModMul(x, u * z, w, w, m);
    ModMul(z, z, y, u' * w, m);
    ModSub(x * w, (u * z) * w, z * y, z * (u' * w), m);
    assert (u * z) * w - z * (u' * w) == (-q) * j by { MulAssoc(u, z, w); MulAssoc(u', z, w); MulAssoc(z, u', w); }
    SquareTimes(x * w - z * y, -q, j, m);
    assert (-q) * (-q) == q * q;
    ModMul(x1, x1, (x * w - z * y) * (x * w - z * y), (q * q) * (j * j), m);
    ModMul(4, 4, x1 * ((x * w - z * y) * (x * w - z * y)), x1 * ((q * q) * (j * j)), m);
    Regrouped(p * p, j * j);
    MulAssoc(x1, q * q, j * j);
    Regrouped(x1 * (q * q), j * j);
  }

  lemma SquareTimes(r: int, p: int, j: int, m: int)
    requires m > 0 && r % m == (p * j) % m
    ensures (r * r) % m == ((p * p) * (j * j)) % m
  {
    ModMul(r, p * j, r, p * j, m);
    MulSwap(p, j, p, j);
  }

  lemma Regrouped(a: int, k: int)
    ensures 4 * (a * k) == a * (4 * k)
  {}

  /** One of the two is the point at infinity, and the other the difference. */
  lemma SumWithInfinity(x: int, z: int, y: int, w: int, x1: int, m: int)
    requires Prime(m) && m > 4 && z % m == 0 && x % m != 0 && w % m != 0 && y % m == (x1 * w) % m && x1 % m != 0
    ensures var r, s := 4 * ((x * y - z * w) * (x * y - z * w)), 4 * (x1 * ((x * w - z * y) * (x * w - z * y)));
      s % m != 0 && r % m == (x1 * s) % m
  {
    var k := (x * w) * (x * w);
    ModMul(z, 0, w, w, m);
    ModMul(z, 0, y, y, m);
    ModMul(x, x, y, x1 * w, m);
    ModSub(x * y, x * (x1 * w), z * w, 0, m);
    assert x * (x1 * w) == x1 * (x * w) by { MulAssoc(x, x1, w); MulAssoc(x1, x, w); }
    SquareTimes(x * y - z * w, x1, x * w, m);
    ModSub(x * w, x * w, z * y, 0, m);
    ModMul(x * w - z * y, x * w, x * w - z * y, x * w, m);
    ModMul(x1, x1, (x * w - z * y) * (x * w - z * y), k, m);
    ModMul(4, 4, (x * y - z * w) * (x * y - z * w), (x1 * x1) * k, m);
    ModMul(4, 4, x1 * ((x * w - z * y) * (x * w - z * y)), x1 * k, m);
    ModMul(x1, x1, 4 * (x1 * ((x * w - z * y) * (x * w - z * y))), 4 * (x1 * k), m);
    assert 4 * ((x1 * x1) * k) == x1 * (4 * (x1 * k)) by { MulAssoc(x1, x1, k); }
    NotDivisible(m, x, w);
    NotDivisible(m, x * w, x * w);
    NotDivisible(m, x1, k);
    FourTimes(x1 * k, m);
  }

  /** The sum does not depend on the order of the two. */
  lemma SumSymmetric(x: int, z: int, y: int, w: int, x1: int)
    ensures SumX(x, z, y, w) == SumX(y, w, x, z) && SumZ(x, z, y, w, x1) == SumZ(y, w, x, z, x1)
  {
    assert x * y - z * w == y * x - w * z;
    var a, b := x * w - z * y, y * z - w * x;
    assert b == -a && b * b == a * a;
  }

  /** The difference of p and q has the coordinate x1. */
  ghost predicate Apart<G>(cv: Curve<G>, p: G, q: G, x1: int)
  {
    var r := cv.at(cv.group.add(p, cv.group.neg(q)));
    r.Some? && r.value.u % cv.m == x1 % cv.m
  }

  lemma SumStands<G(!new)>(cv: Curve<G>, x: int, z: int, p: G, y: int, w: int, q: G, x1: int)
    requires Lawful(cv) && Stands(cv, x, z, p) && Stands(cv, y, w, q) && Apart(cv, p, q, x1) && x1 % cv.m != 0
    ensures Stands(cv, SumX(x, z, y, w) % cv.m, SumZ(x, z, y, w, x1) % cv.m, cv.group.add(p, q))
  {
    assert Placed(cv, p) && Placed(cv, q);
    if cv.at(p).None? {
      FromInfinity(cv, x, z, p, y, w, q, x1);
    } else if cv.at(q).None? {
      ApartSymmetric(cv, p, q, x1);
      FromInfinity(cv, y, w, q, x, z, p, x1);
      SumSymmetric(x, z, y, w, x1);
      assert Commutes(cv.group, p, q);
    } else if cv.at(p).value.u % cv.m != cv.at(q).value.u % cv.m {
      ApartChord(cv, x, z, p, y, w, q, x1);
    } else {
      OppositeSum(cv, x, z, p, y, w, q, x1);
    }
  }

  lemma NegZero<G(!new)>(g: Group<G>)
    requires Abelian(g)
    ensures g.neg(g.zero) == g.zero
  {
    assert Cancels(g, g.zero) && Commutes(g, g.zero, g.neg(g.zero)) && Neutral(g, g.neg(g.zero));
  }

  /** -(p - q) = q - p */
  lemma NegDifference<G(!new)>(g: Group<G>, p: G, q: G)
    requires Abelian(g)
    ensures g.add(q, g.neg(p)) == g.neg(g.add(p, g.neg(q)))
  {
    var r, s := g.add(p, g.neg(q)), g.add(q, g.neg(p));
    // r + s = 0
    AddSwap(g, p, g.neg(q), q, g.neg(p));
    assert g.add(g.add(p, q), g.add(g.neg(q), g.neg(p))) == g.add(r, s) by {
      AddSwap(g, p, q, g.neg(q), g.neg(p));
    }
    SumIsZero(g, p, q);
    InverseUnique(g, r, s);
  }

  lemma SumIsZero<G(!new)>(g: Group<G>, p: G, q: G)
    requires Abelian(g)
    ensures g.add(g.add(p, g.neg(q)), g.add(q, g.neg(p))) == g.zero
  {
    AddSwap(g, p, g.neg(q), g.neg(p), q);
    assert Commutes(g, q, g.neg(p)) && Commutes(g, g.neg(q), q);
    assert Cancels(g, p) && Cancels(g, q) && Neutral(g, g.zero);
  }

  lemma InverseUnique<G(!new)>(g: Group<G>, r: G, s: G)
    requires Abelian(g) && g.add(r, s) == g.zero
    ensures s == g.neg(r)
  {
    var n := g.neg(r);
    assert Associates(g, n, r, s) && Commutes(g, n, r) && Cancels(g, r) && Neutral(g, n);
    assert Commutes(g, g.zero, s) && Neutral(g, s);
  }

  lemma ApartSymmetric<G(!new)>(cv: Curve<G>, p: G, q: G, x1: int)
    requires Lawful(cv) && Apart(cv, p, q, x1)
    ensures Apart(cv, q, p, x1)
  {
    NegDifference(cv.group, p, q);
    assert Mirrored(cv, cv.group.add(p, cv.group.neg(q)));
  }

  lemma FromInfinity<G(!new)>(cv: Curve<G>, x: int, z: int, p: G, y: int, w: int, q: G, x1: int)
    requires Lawful(cv) && Stands(cv, x, z, p) && Stands(cv, y, w, q) && Apart(cv, p, q, x1) && x1 % cv.m != 0
    requires cv.at(p).None?
    ensures Stands(cv, SumX(x, z, y, w) % cv.m, SumZ(x, z, y, w, x1) % cv.m, cv.group.add(p, q))
  {
    var g := cv.group;
    assert Placed(cv, p) && Placed(cv, q) && Commutes(g, p, q) && Neutral(g, q);
    assert Commutes(g, p, g.neg(q)) && Neutral(g, g.neg(q));
    NegZero(g);
    assert Placed(cv, g.neg(q)) && Mirrored(cv, q);
    var u := cv.at(q).value.u;
    ModMul(u, x1, w, w, cv.m);
    SumWithInfinity(x, z, y, w, x1, cv.m);
    ModMod(SumX(x, z, y, w), cv.m);
    ModMod(SumZ(x, z, y, w, x1), cv.m);
    var s := SumZ(x, z, y, w, x1);
    ModMul(u, x1, s % cv.m, s, cv.m);
  }

  lemma ApartChord<G(!new)>(cv: Curve<G>, x: int, z: int, p: G, y: int, w: int, q: G, x1: int)
    requires Lawful(cv) && Stands(cv, x, z, p) && Stands(cv, y, w, q) && Apart(cv, p, q, x1) && x1 % cv.m != 0
    requires cv.at(p).Some? && cv.at(q).Some? && cv.at(p).value.u % cv.m != cv.at(q).value.u % cv.m
    ensures Stands(cv, SumX(x, z, y, w) % cv.m, SumZ(x, z, y, w, x1) % cv.m, cv.group.add(p, q))
  {
    var g, n := cv.group, cv.group.neg(q);
    assert Lies(cv, p) && Lies(cv, q) && Mirrored(cv, q) && Chordal(cv, p, q) && Chordal(cv, p, n);
    var a, b, c := cv.at(p).value, cv.at(q).value, cv.at(n).value;
    var r, d := cv.at(g.add(p, q)).value.u, cv.at(g.add(p, n)).value.u;
    var t :| OnChord(a.u, a.v, b.u, b.v, t, r, cv.b, COEFF, cv.m);
    var t' :| OnChord(a.u, a.v, c.u, c.v, t', d, cv.b, COEFF, cv.m);
    ChordRatio(x, z, a, y, w, b, c, t, r, t', d, x1, cv.b, cv.m);
  }

  /** The same on numbers: a and b are the points, c the mirror image of b, r and d the coordinates of the sum
      and of the difference. */
  lemma ChordRatio(x: int, z: int, a: UV, y: int, w: int, b: UV, c: UV, t: int, r: int, t': int, d: int, x1: int,
                   k: int, m: int)
    requires Prime(m) && m > 4 && z % m != 0 && w % m != 0 && x % m == (a.u * z) % m && y % m == (b.u * w) % m
    requires (k * (a.v * a.v)) % m == Cubic(a.u, COEFF) % m && (k * (b.v * b.v)) % m == Cubic(b.u, COEFF) % m
    requires a.u % m != b.u % m && c.u % m == b.u % m && c.v % m == (-b.v) % m && d % m == x1 % m && x1 % m != 0
    requires OnChord(a.u, a.v, b.u, b.v, t, r, k, COEFF, m) && OnChord(a.u, a.v, c.u, c.v, t', d, k, COEFF, m)
    ensures (SumZ(x, z, y, w, x1) % m) % m != 0 && (SumX(x, z, y, w) % m) % m == (r * (SumZ(x, z, y, w, x1) % m)) % m
  {
    ChordCongruent(a.u, a.v, b.u, b.v, c.u, c.v, t', d, x1, k, m);
    if (b.u - a.u) % m == 0 { ModAdd(b.u - a.u, 0, a.u, a.u, m); }
    ChordLaw(a.u, a.v, b.u, b.v, t, r, t', x1, k, COEFF, m);
    SumRatio(x, z, a.u, y, w, b.u, x1, r, m);
  }

  lemma SumRatio(x: int, z: int, u: int, y: int, w: int, u': int, x1: int, r: int, m: int)
    requires Prime(m) && m > 4 && z % m != 0 && w % m != 0 && x % m == (u * z) % m && y % m == (u' * w) % m
    requires (u' - u) % m != 0 && x1 % m != 0
    requires ((r * x1) * ((u' - u) * (u' - u))) % m == ((u * u' - 1) * (u * u' - 1)) % m
    ensures (SumZ(x, z, y, w, x1) % m) % m != 0 && (SumX(x, z, y, w) % m) % m == (r * (SumZ(x, z, y, w, x1) % m)) % m
  {
    var h, k := (u' - u) * (u' - u), (z * w) * (z * w);
    MulAssoc(r, x1, h);
    SumScaled(x, z, u, y, w, u', x1, m);
    NotDivisible(m, u' - u, u' - u);
    NotDivisible(m, x1, h);
    NotDivisible(m, z, w);
    NotDivisible(m, z * w, z * w);
    FourTimes(k, m);
    ScaledStand(SumX(x, z, y, w) % m, SumZ(x, z, y, w, x1) % m, r, (u * u' - 1) * (u * u' - 1), x1 * h, 4 * k, m);
  }

  /** A chord to the mirror image, with the coordinates written out. */
  lemma ChordCongruent(u: int, v: int, u': int, v': int, c: int, d: int, t: int, w: int, x1: int, b: int, m: int)
    requires m > 0 && OnChord(u, v, c, d, t, w, b, COEFF, m) && c % m == u' % m && d % m == (-v') % m && w % m == x1 % m
    ensures OnChord(u, v, u', -v', t, x1, b, COEFF, m)
  {
    ModSub(u', c, u, u, m);
    ModMul(t, t, u' - u, c - u, m);
    ModSub(d, -v', v, v, m);
    var k := b * (t * t) - COEFF - u;
    ModSub(k, k, u', c, m);
  }

  lemma OppositeSum<G(!new)>(cv: Curve<G>, x: int, z: int, p: G, y: int, w: int, q: G, x1: int)
    requires Lawful(cv) && Stands(cv, x, z, p) && Stands(cv, y, w, q) && Apart(cv, p, q, x1) && x1 % cv.m != 0
    requires cv.at(p).Some? && cv.at(q).Some? && cv.at(p).value.u % cv.m == cv.at(q).value.u % cv.m
    ensures Stands(cv, SumX(x, z, y, w) % cv.m, SumZ(x, z, y, w, x1) % cv.m, cv.group.add(p, q))
  {
    var g := cv.group;
    Mirror(cv, p, q, x1);
    var a, b := cv.at(p).value, cv.at(q).value;
    assert Placed(cv, g.add(p, q)) && Cancels(g, q) && Commutes(g, g.neg(q), q);
    NotUnitU(cv, p, x1);
    SumScaled(x, z, a.u, y, w, b.u, x1, cv.m);
    NotDivisible(cv.m, z, w);
    NotDivisible(cv.m, z * w, z * w);
    FourTimes((z * w) * (z * w), cv.m);
    var k := 4 * ((z * w) * (z * w));
    ModMul(a.u, a.u, b.u, a.u, cv.m);
    if (a.u * b.u - 1) % cv.m == 0 { ModAdd(a.u * b.u - 1, 0, 1, 1, cv.m); }
    NotDivisible(cv.m, a.u * b.u - 1, a.u * b.u - 1);
    NotDivisible(cv.m, (a.u * b.u - 1) * (a.u * b.u - 1), k);
    ModMod(SumX(x, z, y, w), cv.m);
    ModSub(b.u, a.u, a.u, a.u, cv.m);
    ModMul(b.u - a.u, 0, b.u - a.u, 0, cv.m);
    ModMul(x1, x1, (b.u - a.u) * (b.u - a.u), 0, cv.m);
    ModMul(x1 * ((b.u - a.u) * (b.u - a.u)), 0, k, k, cv.m);
    ModMod(SumZ(x, z, y, w, x1), cv.m);
  }

  /** Two points with the same u that are not the same are opposite. */
  lemma Mirror<G(!new)>(cv: Curve<G>, p: G, q: G, x1: int)
    requires Lawful(cv) && Apart(cv, p, q, x1)
    requires cv.at(p).Some? && cv.at(q).Some? && cv.at(p).value.u % cv.m == cv.at(q).value.u % cv.m
    ensures p == cv.group.neg(q)
  {
    var g, n := cv.group, cv.group.neg(q);
    var a, b := cv.at(p).value, cv.at(q).value;
    assert Lies(cv, p) && Lies(cv, q) && Mirrored(cv, q) && Separate(cv, p, q) && Separate(cv, p, n);
    assert Cancels(g, q) && Placed(cv, g.zero);
    CubicCongruent(a.u, b.u, COEFF, cv.m);
    Cancel(cv.m, cv.b, a.v * a.v, b.v * b.v);
    SquareRoot.EqualSquares(cv.m, a.v, b.v);
    if (a.v - b.v) % cv.m == 0 {
      ModAdd(a.v - b.v, 0, b.v, b.v, cv.m);
    } else {
      ModSub(a.v + b.v, 0, b.v, b.v, cv.m);
    }
  }

  lemma CubicCongruent(u: int, u': int, c: int, m: int)
    requires m > 0 && u % m == u' % m
    ensures Cubic(u, c) % m == Cubic(u', c) % m
  {
    ModMul(u, u', u, u', m);
    ModMul(c, c, u, u', m);
    ModAdd(u * u, u' * u', c * u, c * u', m);
    ModAdd(u * u + c * u, u' * u' + c * u', 1, 1, m);
    ModMul(u, u', u * u + c * u + 1, u' * u' + c * u' + 1, m);
  }

  /** A point whose double has a coordinate other than 0 does not have u = 1 or u = -1. */
  lemma NotUnitU<G(!new)>(cv: Curve<G>, p: G, x1: int)
    requires Lawful(cv) && cv.at(p).Some? && x1 % cv.m != 0
    requires var r := cv.at(cv.group.add(p, p)); r.Some? && r.value.u % cv.m == x1 % cv.m
    ensures (cv.at(p).value.u * cv.at(p).value.u) % cv.m != 1 % cv.m
  {
    var q, r := cv.at(p).value, cv.group.add(p, p);
    assert Lies(cv, p) && Tangential(cv, p) && Placed(cv, r);
    var t :| OnTangent(q.u, q.v, t, cv.at(r).value.u, cv.b, COEFF, cv.m);
    var w, f := cv.at(r).value.u, Cubic(q.u, COEFF);
    TangentLaw(q.u, q.v, t, w, cv.b, COEFF, cv.m);
    CubicNonzero(cv.b, q.u, q.v, cv.m);
    FourTimes(f, cv.m);
    NotDivisible(cv.m, w, 4 * f);
    if (q.u * q.u) % cv.m == 1 % cv.m {
      ModSub(q.u * q.u, 1, 1, 1, cv.m);
      ModMul(q.u * q.u - 1, 0, q.u * q.u - 1, 0, cv.m);
    }
  }

  // ------------------------------------------------------------------ the ladder

  /** The two points of the ladder are n Q and (n + 1) Q. */
  ghost predicate Rungs<G>(cv: Curve<G>, s: Pair, q: G, n: nat)
  {
    Stands(cv, s.x2, s.z2, Times(cv.group, n, q)) && Stands(cv, s.x3, s.z3, Times(cv.group, n + 1, q))
  }

  lemma StepStands<G(!new)>(cv: Curve<G>, x1: int, s: Pair, p: G, r: G)
    requires Lawful(cv) && cv.m == P && x1 % P != 0 && Apart(cv, p, r, x1)
    requires Stands(cv, s.x2, s.z2, p) && Stands(cv, s.x3, s.z3, r)
    ensures var t := Step(x1, s);
      Stands(cv, t.x2, t.z2, cv.group.add(p, p)) && Stands(cv, t.x3, t.z3, cv.group.add(p, r))
  {
    StepIs(x1, s);
    StepLaw(x1, s, P);
    DoubleStands(cv, s.x2, s.z2, p);
    SumStands(cv, s.x2, s.z2, p, s.x3, s.z3, r, x1);
  }

  /** n Q - (n + 1) Q = -Q */
  lemma RungsApart<G(!new)>(cv: Curve<G>, q: G, n: nat, x1: int)
    requires Lawful(cv) && cv.at(q).Some? && cv.at(q).value.u % cv.m == x1 % cv.m
    ensures Apart(cv, Times(cv.group, n, q), Times(cv.group, n + 1, q), x1)
    ensures Apart(cv, Times(cv.group, n + 1, q), Times(cv.group, n, q), x1)
  {
    var g := cv.group;
    var a, b := Times(g, n, q), Times(g, n + 1, q);
    assert b == g.add(a, q);
    assert g.add(b, g.neg(a)) == q by {
      assert Commutes(g, a, q) && Associates(g, q, a, g.neg(a)) && Cancels(g, a) && Neutral(g, q);
    }
    ApartSymmetric(cv, b, a, x1);
  }

  lemma RungUp<G(!new)>(cv: Curve<G>, x1: int, s: Pair, bit: bool, q: G, n: nat)
    requires Lawful(cv) && cv.m == P && x1 % P != 0 && cv.at(q).Some? && cv.at(q).value.u % P == x1 % P
    requires Rungs(cv, s, q, n)
    ensures Rungs(cv, Step(x1, s.Swapped(bit)).Swapped(bit), q, 2 * n + if bit then 1 else 0)
  {
    var g := cv.group;
    var a, b := Times(g, n, q), Times(g, n + 1, q);
    RungsApart(cv, q, n, x1);
    LadderStep(g, n, q);
    if bit {
      StepStands(cv, x1, s.Swapped(true), b, a);
    } else {
      StepStands(cv, x1, s, a, b);
    }
  }

  /** The first rungs are the point at infinity and Q itself. */
  lemma FirstRungs<G(!new)>(cv: Curve<G>, x1: int, q: G)
    requires Lawful(cv) && cv.at(q).Some? && cv.at(q).value.u % cv.m == x1 % cv.m
    ensures Rungs(cv, Pair(1, 0, x1, 1), q, 0)
  {
    var g := cv.group;
    assert Placed(cv, g.zero) && Commutes(g, g.zero, q) && Neutral(g, q);
    assert Times(g, 1, q) == g.add(Times(g, 0, q), q) == q;
    ModSmall(1, cv.m);
  }

  lemma TopShift(k: nat, t: nat)
    requires t == 255 && k < TWO255
    ensures Pow(2, t) > 0 && k / Pow(2, t) == 0
  {
    TwoPower255();
    DivOf(k, Pow(2, t), 0, k);
  }

  /** The two points in their order, whatever the deferred swap. */
  function Rung(x1: int, k: int, t: nat): Pair
    requires t <= 255
  {
    Ladder(x1, k, t).0.Swapped(Ladder(x1, k, t).1)
  }

  lemma NextRung(x1: int, k: int, t: nat)
    requires t < 255
    ensures Rung(x1, k, t) == Step(x1, Rung(x1, k, t + 1).Swapped(Bit(k, t))).Swapped(Bit(k, t))
  {
    var (s, swap) := Ladder(x1, k, t + 1);
    assert s.Swapped(swap != Bit(k, t)) == s.Swapped(swap).Swapped(Bit(k, t));
  }

  function Up(x1: int): (Pair, bool) -> Pair
  {
    (s: Pair, bit: bool) => Step(x1, s.Swapped(bit)).Swapped(bit)
  }

  /** Something that holds of two points and a number still holds after a step for either bit. */
  ghost predicate Keeps(rel: (Pair, nat) -> bool, up: (Pair, bool) -> Pair, s: Pair, n: nat, bit: bool)
  {
    rel(s, n) ==> rel(up(s, bit), 2 * n + if bit then 1 else 0)
  }

  ghost predicate Follows(rung: nat -> Pair, up: (Pair, bool) -> Pair, k: nat, t: nat)
  {
    t < 255 ==> rung(t) == up(rung(t + 1), Bit(k, t))
  }

  /** So it holds on every rung, of the bits consumed so far. */
  lemma {:induction false} Climb(rel: (Pair, nat) -> bool, rung: nat -> Pair, up: (Pair, bool) -> Pair, k: nat, t: nat)
    requires t <= 255 && k < TWO255 && rel(rung(255), 0)
    requires forall i: nat :: Follows(rung, up, k, i)
    requires forall s, n: nat, bit :: Keeps(rel, up, s, n, bit)
    ensures Pow(2, t) > 0 && rel(rung(t), k / Pow(2, t))
    decreases 255 - t
  {
    PowPositive(2, t);
    if t == 255 {
      TopShift(k, t);
    } else {
      Climb(rel, rung, up, k, t + 1);
      ShiftIn(k, t);
      assert Follows(rung, up, k, t) && Keeps(rel, up, rung(t + 1), k / Pow(2, t + 1), Bit(k, t));
    }
  }

  lemma LadderKeeps(rel: (Pair, nat) -> bool, x1: int, k: nat, t: nat)
    requires k < TWO255 && t == 0 && rel(Pair(1, 0, x1, 1), 0) && forall s, n: nat, bit :: Keeps(rel, Up(x1), s, n, bit)
    ensures rel(Rung(x1, k, t), k)
  {
    var rung := (i: nat) => if i <= 255 then Rung(x1, k, i) else Pair(0, 0, 0, 0);
    forall i: nat ensures Follows(rung, Up(x1), k, i) { if i < 255 { NextRung(x1, k, i); } }
    Climb(rel, rung, Up(x1), k, t);
    assert Pow(2, t) == 1 && k / 1 == k;
  }

  /** The ladder ends with k Q and (k + 1) Q. */
  lemma LadderRungs<G(!new)>(cv: Curve<G>, x1: int, k: nat, t: nat, q: G)
    requires Lawful(cv) && cv.m == P && x1 % P != 0 && cv.at(q).Some? && cv.at(q).value.u % P == x1 % P
    requires k < TWO255 && t == 0
    ensures Rungs(cv, Rung(x1, k, t), q, k)
  {
    var rel := (s: Pair, n: nat) => Rungs(cv, s, q, n);
    FirstRungs(cv, x1, q);
    forall s, n: nat, bit ensures Keeps(rel, Up(x1), s, n, bit) {
      if rel(s, n) { RungUp(cv, x1, s, bit, q, n); }
    }
    LadderKeeps(rel, x1, k, t);
  }

  // ------------------------------------------------------------------ X25519

  /** LadderResult divides: the coordinate of the multiple, and 0 for the point at infinity. */
  lemma Divided(x: int, z: int, m: int)
    requires Prime(m) && m > 2
    ensures var r := (x * (Pow(z, m - 2) % m)) % m;
      if z % m == 0 then r == 0 else (r * z) % m == x % m && 0 <= r < m
  {
    var v := Pow(z, m - 2);
    if z % m == 0 {
      assert v == z * Pow(z, m - 3);
      ModMul(z, 0, Pow(z, m - 3), Pow(z, m - 3), m);
    } else {
      Fermat(m, z);
      ModMod(v, m);
      ModMul(x, x, v % m, v, m);
      ModMod(x * (v % m), m);
      ModMul((x * (v % m)) % m, x * v, z, z, m);
      ModSmall(1, m);
      ModMul(x, x, z * v, 1, m);
      assert (x * v) * z == x * (z * v) by { MulAssoc(x, v, z); }
    }
  }

  /** The u coordinate that X25519 gives to an element: 0 for the neutral one. */
  ghost function Coordinate<G>(cv: Curve<G>, p: G): int
  {
    if cv.at(p).None? then 0 else cv.at(p).value.u % cv.m
  }

  /** X25519 of a scalar and the coordinate of a point is the coordinate of the multiple of the point. */
  lemma X25519Multiplies<G(!new)>(cv: Curve<G>, k: int, u: int, q: G)
    requires Lawful(cv) && cv.m == P && cv.at(q).Some? && cv.at(q).value.u % P == (u % TWO255) % P != 0
    ensures var n := DecodeScalar(k); n >= 0 && Rfc7748(k, u) == Coordinate(cv, Times(cv.group, n, q))
  {
    var x1, n, t := (u % TWO255) % P, DecodeScalar(k), 0;
    ModMod(u % TWO255, P);
    ScalarInRange(k);
    LadderRungs(cv, x1, n, t, q);
    var s, p := Rung(x1, n, t), Times(cv.group, n, q);
    Divided(s.x2, s.z2, P);
    if cv.at(p).Some? {
      var w, r := cv.at(p).value.u, (s.x2 * (Pow(s.z2, P - 2) % P)) % P;
      assert s.z2 * r == r * s.z2 && s.z2 * w == w * s.z2;
      Cancel(P, s.z2, r, w);
      ModSmall(r, P);
    }
  }

  /** The clamped scalar: a multiple of 8 with bit 254 set and no bit above, otherwise the bits of k. */
  lemma ScalarInRange(k: int)
    ensures TWO255 / 2 <= DecodeScalar(k) < TWO255 && DecodeScalar(k) % 8 == 0
    ensures (DecodeScalar(k) - k) % (TWO255 / 2) == (-(k % 8)) % (TWO255 / 2)
  {
    var h := TWO255 / 2;
    var n := k % h;
    assert h % 8 == 0;
    assert n % 8 == k % 8 by { var j := ModElim(n, k, h); ModIntro(n, k, j * (h / 8), 8); }
    assert (n - n % 8) % 8 == 0;
    ModIntro(DecodeScalar(k), n - n % 8, h / 8, 8);
    var j := ModElim(n, k, h);
    ModIntro(DecodeScalar(k) - k, -(k % 8), j + 1, h);
  }

  /** Top bit and multiples of the prime make no difference to the coordinate. */
  lemma ReducedInput(k: int, u: int)
    ensures Rfc7748(k, u) == Rfc7748(k, (u % TWO255) % P)
  {
    var c := (u % TWO255) % P;
    ModSmall(c, TWO255);
    ModSmall(c, P);
  }

  // ------------------------------------------------------------------ the coordinate 0

  /** Both points of a ladder over 0 are (x : 0) or (0 : z), and the first is (x : 0). */
  ghost predicate Flat(s: Pair, m: int)
    requires m > 0
  {
    (s.x2 * s.z2) % m == 0 && (s.x3 * s.z3) % m == 0 && (s.x2 * s.x3 - s.z2 * s.z3) % m == 0
  }

  lemma FlatStep(s: Pair, m: int)
    requires m > 0 && Flat(s, m)
    ensures var t := StepMod(0, s, m); t.z2 == t.x3 == t.z3 == 0
  {
    StepLaw(0, s, m);
    ModSmall(0, m);
    var w, q, d := s.x2 * s.z2, s.x2 * s.x2 + COEFF * (s.x2 * s.z2) + s.z2 * s.z2, s.x2 * s.x3 - s.z2 * s.z3;
    ModMul(4, 4, w, 0, m);
    ModMul(4 * w, 0, q, q, m);
    ModMul(d, 0, d, 0, m);
    ModMul(4, 4, d * d, 0, m);
  }

  lemma FlatSwapped(s: Pair, bit: bool, m: int)
    requires m > 0 && Flat(s, m)
    ensures Flat(s.Swapped(bit), m)
  {
    assert s.x3 * s.x2 - s.z3 * s.z2 == s.x2 * s.x3 - s.z2 * s.z3;
  }

  lemma FlatAgain(s: Pair, bit: bool, m: int)
    requires m > 0 && s.z2 == s.x3 == s.z3 == 0
    ensures Flat(s.Swapped(bit), m) && s.Swapped(bit).z2 == 0
  {
    ModSmall(0, m);
  }

  /** X25519 of the coordinate 0 is 0. */
  lemma ZeroCoordinate(k: int)
    requires Prime(P)
    ensures Rfc7748(k, 0) == 0
  {
    var rel, t, x1 := (s: Pair, n: nat) => Flat(s, P) && s.z2 == 0, 0, 0;
    forall s, n: nat, bit ensures Keeps(rel, Up(x1), s, n, bit) {
      if rel(s, n) {
        FlatSwapped(s, bit, P);
        FlatStep(s.Swapped(bit), P);
        StepIs(x1, s.Swapped(bit));
        FlatAgain(Step(x1, s.Swapped(bit)), bit, P);
      }
    }
    ScalarInRange(k);
    LadderKeeps(rel, x1, DecodeScalar(k), t);
    var s := Rung(x1, DecodeScalar(k), t);
    Divided(s.x2, s.z2, P);
  }

  /** An element with the coordinate 0 vanishes when it is doubled. */
  lemma EvenMultiple<G(!new)>(cv: Curve<G>, n: nat, p: G)
    requires Lawful(cv) && Coordinate(cv, p) == 0 && n % 2 == 0
    ensures Times(cv.group, n, p) == cv.group.zero
  {
    var g := cv.group;
    assert Placed(cv, p) && Lies(cv, p) && Tangential(cv, p);
    assert Times(g, 1, p) == g.add(Times(g, 0, p), p);
    assert Times(g, 2, p) == g.add(Times(g, 1, p), p);
    assert Commutes(g, g.zero, p) && Neutral(g, p) && Neutral(g, g.zero);
    if cv.at(p).Some? {
      var q := cv.at(p).value;
      CubicCongruent(q.u, 0, COEFF, cv.m);
      if q.v % cv.m != 0 { CubicNonzero(cv.b, q.u, q.v, cv.m); }
    }
    TimesMul(g, n / 2, 2, p);
    TimesZero(g, n / 2);
  }

  // ------------------------------------------------------------------ key agreement

  /** X25519 multiplies every element, also those with the coordinate 0. */
  lemma Multiplies<G(!new)>(cv: Curve<G>, k: int, p: G)
    requires Lawful(cv) && cv.m == P
    ensures DecodeScalar(k) >= 0 && Rfc7748(k, Coordinate(cv, p)) == Coordinate(cv, Times(cv.group, DecodeScalar(k), p))
  {
    var c, n := Coordinate(cv, p), DecodeScalar(k);
    EvenScalar(k);
    if c == 0 {
      ZeroCoordinate(k);
      EvenMultiple(cv, n, p);
      assert Placed(cv, cv.group.zero);
    } else {
      NonzeroMultiple(cv, k, p, c);
    }
  }

  lemma EvenScalar(k: int)
    ensures DecodeScalar(k) >= 0 && DecodeScalar(k) % 2 == 0
  {
    ScalarInRange(k);
    Even(DecodeScalar(k));
  }

  lemma Even(n: int)
    requires n % 8 == 0
    ensures n % 2 == 0
  {
    var q := n / 8;
    assert n == 2 * (4 * q);
  }

  lemma NonzeroMultiple<G(!new)>(cv: Curve<G>, k: int, p: G, c: int)
    requires Lawful(cv) && cv.m == P && c == Coordinate(cv, p) != 0
    ensures DecodeScalar(k) >= 0 && Rfc7748(k, c) == Coordinate(cv, Times(cv.group, DecodeScalar(k), p))
  {
    ModSmall(c, TWO255);
    ModSmall(c, P);
    X25519Multiplies(cv, k, c, p);
  }

  /** Both sides of a key agreement compute the same: X25519(k, X25519(l, u)) = X25519(l, X25519(k, u)). */
  lemma Agreement<G(!new)>(cv: Curve<G>, k: int, l: int, u: int, q: G)
    requires Lawful(cv) && cv.m == P && Coordinate(cv, q) == (u % TWO255) % P
    ensures Rfc7748(k, Rfc7748(l, u)) == Rfc7748(l, Rfc7748(k, u))
  {
    var g, n, m := cv.group, DecodeScalar(k), DecodeScalar(l);
    ReducedInput(k, u);
    ReducedInput(l, u);
    Multiplies(cv, k, q);
    Multiplies(cv, l, q);
    Multiplies(cv, k, Times(g, m, q));
    Multiplies(cv, l, Times(g, n, q));
    TimesMul(g, n, m, q);
    TimesMul(g, m, n, q);
    assert n * m == m * n;
  }

  /** The base point of section 4.1 of RFC 7748, u = 9, is on the curve with b = 1. */
  lemma BasePoint()
    ensures var v := 0x20ae_19a1_b8a0_86b4_e01e_dd2c_7748_d14c_923d_4d7e_6d7c_61b2_29e9_c5a2_7eced3d9;
      (1 * (v * v)) % P == Cubic(9, COEFF) % P
  {}
}
