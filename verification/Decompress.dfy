/** unpackneg of curve25519.c: it finds a point behind 32 bytes exactly when there is one, and the point is
    the inverse of the one that section 5.1.3 of RFC 8032 decodes. That P is prime is taken from the RFC. */
module Decompress {
  import opened Arith
  import opened Digits
  import opened Field25519
  import opened X25519
  import opened SquareRoot
  import opened Edwards
  import Ed25519
  import NumberTheory

  /** The exponent of pow2523. */
  const E: nat := (P - 5) / 8

  /** A square root of -1. */
  const I: int := 0x2b83_2480_4fc1_df0b_2b4d_0099_3dfb_d7a7_2f43_1806_ad2f_e478_c4ee_1b27_4a0e_a0b0

  const D_LIMBS: seq<i64> := [0x78a3, 0x1359, 0x4dca, 0x75eb, 0xd8ab, 0x4141, 0x0a4d, 0x0070,
                              0xe898, 0x7779, 0x4079, 0x8cc7, 0xfe73, 0x2b6f, 0x6cee, 0x5203]
  const I_LIMBS: seq<i64> := [0xa0b0, 0x4a0e, 0x1b27, 0xc4ee, 0xe478, 0xad2f, 0x1806, 0x2f43,
                              0xd7a7, 0x3dfb, 0x0099, 0x2b4d, 0xdf0b, 0x4fc1, 0x2480, 0x2b83]

  lemma DTable()
    ensures Eval(D_LIMBS, RADIX) == D && Normal(D_LIMBS, RADIX) && 0 <= D < P - 1
  {
    SixteenLimbs(D_LIMBS);
  }

  lemma ITable()
    ensures Eval(I_LIMBS, RADIX) == I && Normal(I_LIMBS, RADIX) && 0 <= I < P && (I * I) % P == (-1) % P
  {
    SixteenLimbs(I_LIMBS);
  }

  method ConstantD() returns (a: array<i64>)
    ensures fresh(a) && Small(a[..]) && Elem(a[..]) == D
  {
    DTable();
    ModSmall(D, P);
    a := Constant16(D_LIMBS);
  }

  method ConstantI() returns (a: array<i64>)
    ensures fresh(a) && Small(a[..]) && Elem(a[..]) == I
  {
    ITable();
    ModSmall(I, P);
    a := Constant16(I_LIMBS);
  }

  // ------------------------------------------------------------------ the candidate

  lemma SeventhSteps(n: int, d: int, d2: int, d4: int, d6: int, t1: int, t2: int, m: int)
    requires m > 0 && d2 == (d * d) % m && d4 == (d2 * d2) % m && d6 == (d4 * d2) % m
    requires t1 == (d6 * n) % m && t2 == (t1 * d) % m
    ensures t2 == (n * Pow(d, 7)) % m
  {
    SmallPowers(d);
    ModMod(d * d, m);
    ModMul(d2, Pow(d, 2), d2, Pow(d, 2), m);
    ModMod(d2 * d2, m);
    ModMul(d4, Pow(d, 4), d2, Pow(d, 2), m);
    ModMod(d4 * d2, m);
    ModMul(d6, Pow(d, 6), n, n, m);
    ModMod(d6 * n, m);
    ModMul(t1, Pow(d, 6) * n, d, d, m);
    assert (Pow(d, 6) * n) * d == n * (Pow(d, 6) * d) by { MulAssoc(n, Pow(d, 6), d); }
  }

  /** num * den^7 */
  method SeventhPower(num: array<i64>, den: array<i64>) returns (t: array<i64>)
    requires Medium(num[..]) && Medium(den[..])
    ensures fresh(t) && Small(t[..]) && Elem(t[..]) == (Elem(num[..]) * Pow(Elem(den[..]), 7)) % P
  {
    var den2, den4, den6 := new i64[16], new i64[16], new i64[16];
    t := new i64[16];
    Product(den2, den, den);
    SmallMedium(den2[..]);
    Product(den4, den2, den2);
    SmallMedium(den4[..]);
    Product(den6, den4, den2);
    SmallMedium(den6[..]);
    Product(t, den6, num);
    ghost var t1 := Elem(t[..]);
    SmallMedium(t[..]);
    Product(t, t, den);
    SeventhSteps(Elem(num[..]), Elem(den[..]), Elem(den2[..]), Elem(den4[..]), Elem(den6[..]), t1, Elem(t[..]), P);
  }

  lemma CandidateSteps(n: int, d: int, e: nat, t: int, t1: int, t2: int, t3: int, t4: int, x: int, m: int)
    requires m > 0 && t == (n * Pow(d, 7)) % m && t1 == Pow(t, e) % m && t2 == (t1 * n) % m
    requires t3 == (t2 * d) % m && t4 == (t3 * d) % m && x == (t4 * d) % m
    ensures x == Candidate(n, d, e) % m
  {
    var u := Pow(n * Pow(d, 7), e);
    ModMod(n * Pow(d, 7), m);
    ModPow(t, n * Pow(d, 7), e, m);
    ModMod(Pow(t, e), m);
    ModMul(t1, u, n, n, m);
    ModMod(t1 * n, m);
    ModMul(t2, u * n, d, d, m);
    ModMod(t2 * d, m);
    ModMul(t3, u * n * d, d, d, m);
    ModMod(t3 * d, m);
    ModMul(t4, u * n * d * d, d, d, m);
    SmallPowers(d);
    assert u * n * d * d * d == (u * n) * (d * (d * d)) by { MulAssoc(u * n, d, d); MulAssoc(u * n, d * d, d); }
  }

  method RootCandidate(num: array<i64>, den: array<i64>) returns (x: array<i64>)
    requires Medium(num[..]) && Medium(den[..])
    ensures fresh(x) && Small(x[..]) && Elem(x[..]) == Candidate(Elem(num[..]), Elem(den[..]), E) % P
  {
    var t := SeventhPower(num, den);
    ghost var t0 := Elem(t[..]);
    Pow2523(t, t);
    ghost var t1 := Elem(t[..]);
    M(t, t, num);
    ReducedWithin(t[..]);
    ghost var t2 := Elem(t[..]);
    M(t, t, den);
    ReducedWithin(t[..]);
    ghost var t3 := Elem(t[..]);
    M(t, t, den);
    ReducedWithin(t[..]);
    ghost var t4 := Elem(t[..]);
    x := new i64[16];
    M(x, t, den);
    ReducedWithin(x[..]);
    CandidateSteps(Elem(num[..]), Elem(den[..]), E, t0, t1, t2, t3, t4, Elem(x[..]), P);
  }

  // ------------------------------------------------------------------ the root

  lemma RootTest(x: int, num: int, den: int, m: int)
    requires m > 0 && num == num % m
    ensures (((x * x) % m) * den) % m == num <==> IsRoot(x, num, den, m)
  {
    ModMod(x * x, m);
    ModMul((x * x) % m, x * x, den, den, m);
  }

  /** The test that unpackneg makes twice: 0 when x is a root. */
  method TestRoot(x: array<i64>, num: array<i64>, den: array<i64>) returns (r: int)
    requires Small(x[..]) && Medium(num[..]) && Medium(den[..])
    ensures r == 0 <==> IsRoot(Elem(x[..]), Elem(num[..]), Elem(den[..]), P)
  {
    var chk := new i64[16];
    SmallMedium(x[..]);
    Product(chk, x, x);
    SmallMedium(chk[..]);
    Product(chk, chk, den);
    ModMod(Eval(num[..], RADIX), P);
    RootTest(Elem(x[..]), Elem(num[..]), Elem(den[..]), P);
    r := Neq25519(chk, num);
  }

  lemma ExponentOfPrime()
    ensures P == 8 * E + 5
  {}

  method FindRoot(num: array<i64>, den: array<i64>) returns (ret: int, x: array<i64>)
    requires Medium(num[..]) && Medium(den[..])
    ensures fresh(x) && Small(x[..]) && (ret == 0 || ret == -1)
    ensures ret == 0 ==> IsRoot(Elem(x[..]), Elem(num[..]), Elem(den[..]), P)
    ensures ret != 0 && NumberTheory.Prime(P) ==> forall y :: !IsRoot(y, Elem(num[..]), Elem(den[..]), P)
  {
    x := RootCandidate(num, den);
    ghost var x0, n, d := Elem(x[..]), Elem(num[..]), Elem(den[..]);
    var r := TestRoot(x, num, den);
    if r != 0 {
      var i := ConstantI();
      SmallMedium(x[..]);
      SmallMedium(i[..]);
      Product(x, x, i);
    }
    r := TestRoot(x, num, den);
    ret := if r != 0 then -1 else 0;
    if ret != 0 && NumberTheory.Prime(P) {
      ExponentOfPrime();
      ITable();
      forall y ensures !IsRoot(y, n, d, P) { NoRoot(P, E, n, d, I, x0, Elem(x[..]), y); }
    }
  }

  // ------------------------------------------------------------------ unpackneg

  /** The curve equation -x^2 + y^2 = 1 + k x^2 y^2. */
  predicate OnCurveMod(x: int, y: int, k: int, m: int)
    requires m > 0
  {
    var xx, yy := x * x, y * y;
    (yy - xx) % m == (1 + k * xx * yy) % m
  }

  predicate OnCurve(x: int, y: int)
  {
    OnCurveMod(x, y, D, P)
  }

  /** x is on the curve with y when it is a root of (y^2 - 1) / (1 + k y^2). */
  lemma CurveRoot(x: int, y: int, num: int, den: int, k: int, m: int)
    requires m > 0 && num == (y * y - 1) % m && den == (1 + k * (y * y)) % m
    ensures IsRoot(x, num, den, m) <==> OnCurveMod(x, y, k, m)
  {
    var xx, yy := x * x, y * y;
    ModMod(yy - 1, m);
    ModMod(1 + k * yy, m);
    ModMul(xx, xx, den, 1 + k * yy, m);
    var w := k * xx * yy;
    assert xx * (1 + k * yy) == xx + w by { MulAssoc(k, xx, yy); MulAssoc(xx, k, yy); MulAssoc(k, xx, yy); }
    if (xx + w) % m == (yy - 1) % m {
      ModSub(yy - 1, xx + w, xx - 1, xx - 1, m);
      ModSub(yy - xx, yy - 1 - (xx - 1), 0, 0, m);
    }
    if (yy - xx) % m == (1 + w) % m { ModAdd(yy - xx, 1 + w, xx - 1, xx - 1, m); }
  }

  lemma FractionSteps(y: int, yy: int, num: int, dy: int, den: int, k: int, m: int)
    requires m > 0 && yy == (y * y) % m && num == (yy - 1) % m && dy == (yy * k) % m && den == (1 + dy) % m
    ensures num == (y * y - 1) % m && den == (1 + k * (y * y)) % m
  {
    ModMod(y * y, m);
    ModSub(yy, y * y, 1, 1, m);
    ModMul(yy, y * y, k, k, m);
    ModMod(yy * k, m);
    assert (y * y) * k == k * (y * y);
    ModAdd(1, 1, dy, k * (y * y), m);
  }

  method CurveFraction(y: array<i64>) returns (num: array<i64>, den: array<i64>)
    requires Small(y[..])
    ensures fresh(num) && fresh(den) && Medium(num[..]) && Medium(den[..])
    ensures var v := Elem(y[..]); Elem(num[..]) == (v * v - 1) % P && Elem(den[..]) == (1 + D * (v * v)) % P
  {
    num, den := new i64[16], new i64[16];
    var d := ConstantD();
    var one := Constant(1, 0);
    SmallMedium(y[..]);
    Product(num, y, y);
    ghost var yy := Elem(num[..]);
    SmallMedium(num[..]);
    SmallMedium(d[..]);
    Product(den, num, d);
    ghost var dy := Elem(den[..]);
    Difference(num, num, one);
    Sum(den, one, den);
    FractionSteps(Elem(y[..]), yy, Elem(num[..]), dy, Elem(den[..]), D, P);
  }

  /** The y coordinate and the sign of x that 32 bytes give. */
  function YOf(b: seq<u8>): int
  {
    (Ed25519.Number(b) % TWO255) % P
  }

  function SignOf(b: seq<u8>): int
    requires |b| == 32
  {
    b[31] / 0x80
  }

  /** A point behind the bytes whose x has the other sign, if it can. */
  predicate Negated(b: seq<u8>, c: Coords)
    requires |b| == 32
  {
    && c.y == YOf(b) && c.z == 1 && c.t == (c.x * c.y) % P && 0 <= c.x < P
    && OnCurve(c.x, c.y) && (c.x == 0 || c.x % 2 != SignOf(b))
  }

  method ZeroLimbs() returns (a: array<i64>)
    ensures fresh(a) && Elem(a[..]) == 0 && a.Length == 16 && forall k :: 0 <= k < 16 ==> a[k] == 0
  {
    a := new i64[16](_ => 0);
    EvalZero(a[..], RADIX);
  }

  method Negate(x: array<i64>)
    requires Small(x[..])
    modifies x
    ensures Small(x[..]) && Elem(x[..]) == (-old(Elem(x[..]))) % P
  {
    var zero := ZeroLimbs();
    assert forall k :: 0 <= k < 16 ==> x[k] == x[..][k];
    Z(x, zero, x);
  }

  lemma Opposite(x: int, m: int)
    requires m > 0 && m % 2 == 1 && 0 <= x < m
    ensures (-x) % m == (if x == 0 then 0 else m - x)
    ensures x != 0 ==> ((-x) % m) % 2 != x % 2
  {
    if x != 0 {
      ModIntro(-x, m - x, -1, m);
      ModSmall(m - x, m);
    }
  }

  lemma OppositeOnCurve(x: int, x': int, y: int, k: int, m: int)
    requires m > 0 && x' == (-x) % m
    ensures OnCurveMod(x', y, k, m) <==> OnCurveMod(x, y, k, m)
  {
    var yy, xx, xx' := y * y, x * x, x' * x';
    ModMod(-x, m);
    ModMul(x', -x, x', -x, m);
    assert (-x) * (-x) == xx;
    ModSub(yy, yy, xx', xx, m);
    ModMul(k, k, xx', xx, m);
    ModMul(k * xx', k * xx, yy, yy, m);
    ModAdd(1, 1, k * xx' * yy, k * xx * yy, m);
  }

  /** The last test of unpackneg: x gets the sign that the bytes do not have. */
  method FixSign(x: array<i64>, b: array<u8>, ghost y: int)
    requires Small(x[..]) && b.Length == 32 && OnCurve(Elem(x[..]), y)
    modifies x
    ensures Small(x[..]) && OnCurve(Elem(x[..]), y) && (Elem(x[..]) == 0 || Elem(x[..]) % 2 != SignOf(b[..]))
  {
    ghost var v := Elem(x[..]);
    Opposite(v, P);
    OppositeOnCurve(v, (-v) % P, y, D, P);
    var parity := Parity(x);
    if parity == b[31] / 0x80 { Negate(x); }
  }

  method UnpackY(b: array<u8>) returns (y: array<i64>)
    requires b.Length == 32
    ensures fresh(y) && Small(y[..]) && Elem(y[..]) == YOf(b[..])
  {
    y := new i64[16];
    Unpack25519(y, b);
  }

  /** unpackneg finds a point exactly when there is one. */
  method UnpackNeg(b: array<u8>) returns (ret: int, r: Point)
    requires b.Length == 32
    ensures fresh(r.x) && fresh(r.y) && fresh(r.z) && fresh(r.t) && (ret == 0 || ret == -1)
    ensures ret == 0 ==> Proper(r) && SmallPoint(r) && Negated(b[..], Value(r))
    ensures ret != 0 && NumberTheory.Prime(P) ==> forall x :: !OnCurve(x, YOf(b[..]))
  {
    var z := Constant(1, 0);
    var y := UnpackY(b);
    var num, den := CurveFraction(y);
    var t := new i64[16];
    var x;
    ret, x := FindRoot(num, den);
    r := Point(x, y, z, t);
    ghost var v := Elem(y[..]);
    forall w ensures IsRoot(w, Elem(num[..]), Elem(den[..]), P) <==> OnCurve(w, v) {
      CurveRoot(w, v, Elem(num[..]), Elem(den[..]), D, P);
    }
    if ret != 0 { return; }
    FixSign(x, b, v);
    SmallMedium(x[..]);
    SmallMedium(y[..]);
    Product(t, x, y);
  }

  // ------------------------------------------------------------------ section 5.1.3 of RFC 8032

  /** The bytes decode to (x, y): y is below the prime, x has the sign of the bytes, and 0 has no sign. */
  predicate RfcDecodes(b: seq<u8>, x: int, y: int)
    requires |b| == 32
  {
    && y == Ed25519.Number(b) % TWO255 < P && 0 <= x < P && OnCurve(x, y)
    && x % 2 == SignOf(b) && !(x == 0 && SignOf(b) == 1)
  }

  /** With y^2 = 1 only x = 0 is on the curve, unless k is -1. */
  lemma ZeroX(p: int, k: int, x: int, y: int)
    requires NumberTheory.Prime(p) && (1 + k) % p != 0 && OnCurveMod(x, y, k, p)
    ensures x % p == 0 <==> (y * y) % p == 1 % p
  {
    var xx, yy := x * x, y * y;
    if x % p == 0 {
      ModMul(x, 0, x, 0, p);
      ModSub(yy, yy, xx, 0, p);
      ModMul(k, k, xx, 0, p);
      ModMul(k * xx, 0, yy, yy, p);
      ModAdd(1, 1, k * xx * yy, 0, p);
    }
    if yy % p == 1 % p {
      ModSub(yy, 1, xx, xx, p);
      ModMul(k * xx, k * xx, yy, 1, p);
      ModAdd(1, 1, k * xx * yy, k * xx, p);
      ModSub(1 + k * xx, 1 - xx, 1 - xx, 1 - xx, p);
      assert (1 + k * xx) - (1 - xx) == (1 + k) * xx by { MulDistribute(1, k, xx); }
      NumberTheory.EuclidLemma(p, 1 + k, xx);
      if x % p != 0 { NumberTheory.EuclidLemma(p, x, x); }
    }
  }

  /** At most two opposite x are on the curve with one y, unless k is -1. */
  lemma TwoX(p: int, k: int, x: int, x': int, y: int)
    requires NumberTheory.Prime(p) && (1 + k) % p != 0 && OnCurveMod(x, y, k, p) && OnCurveMod(x', y, k, p)
    ensures (x - x') % p == 0 || (x + x') % p == 0
  {
    var num, den := (y * y - 1) % p, (1 + k * (y * y)) % p;
    CurveRoot(x, y, num, den, k, p);
    CurveRoot(x', y, num, den, k, p);
    if NumberTheory.Divides(p, den) {
      ProductDivides(p, den, x * x);
      ModMod(y * y - 1, p);
      ModAdd(y * y - 1, 0, 1, 1, p);
      ZeroX(p, k, x, y);
      ZeroX(p, k, x', y);
      ModSub(x, 0, x', 0, p);
    } else {
      assert den * (x * x) == x * x * den && den * (x' * x') == x' * x' * den;
      NumberTheory.Cancel(p, den, x * x, x' * x');
      EqualSquares(p, x, x');
    }
  }

  lemma DNotMinusOne()
    ensures (1 + D) % P != 0 && P % 2 == 1
  {
    ModSmall(1 + D, P);
  }

  lemma UnitY(y: int)
    requires NumberTheory.Prime(P) && 0 <= y < P
    ensures (y * y) % P == 1 % P <==> y == 1 || y == P - 1
  {
    if (y * y) % P == 1 % P {
      UnitRoot(P, y);
      Opposite(y, P);
      ModSmall(y, P);
    }
    if y == P - 1 {
      ModIntro(y, -1, 1, P);
      ModMul(y, -1, y, -1, P);
    }
  }

  /** Two x with the same y, one of them with the sign of the bytes and the other without, are opposite. */
  lemma OppositeX(x: int, x': int, y: int, sign: int)
    requires NumberTheory.Prime(P) && 0 <= x < P && 0 <= x' < P && OnCurve(x, y) && OnCurve(x', y)
    requires x % 2 == sign && (x' == 0 || x' % 2 != sign)
    ensures x' == (-x) % P
  {
    DNotMinusOne();
    Opposite(x, P);
    TwoX(P, D, x, x', y);
    if (x - x') % P == 0 {
      var k := ModElim(x - x', 0, P);
      MultipleBelow(P, k, x - x');
    } else {
      var k := ModElim(x + x', 0, P);
      OneMultiple(x + x', k, P);
    }
  }

  lemma OneMultiple(v: int, k: int, m: int)
    requires v == k * m && 0 <= v < 2 * m
    ensures v == 0 || v == m
  {
    if k >= 2 { MulMonotone(2, k, m); }
    if k <= -1 { MulMonotone(k, -1, m); }
  }

  lemma ZeroOnCurve(x: int, y: int)
    requires NumberTheory.Prime(P) && 0 <= x < P && 0 <= y < P && OnCurve(x, y)
    ensures x == 0 <==> y == 1 || y == P - 1
  {
    DNotMinusOne();
    ZeroX(P, D, x, y);
    ModSmall(x, P);
    UnitY(y);
  }

  /** What unpackneg finds is the inverse of what the RFC decodes. It also takes bytes that the RFC refuses:
      a y beyond the prime, and x = 0 with a sign, which has y = 1 or y = -1; nothing else. */
  lemma RfcAgrees(b: seq<u8>, c: Coords)
    requires NumberTheory.Prime(P) && |b| == 32 && Negated(b, c)
    ensures forall x, y :: RfcDecodes(b, x, y) ==> c.y == y && c.x == (-x) % P
    ensures (exists x, y :: RfcDecodes(b, x, y)) <==>
      Ed25519.Number(b) % TWO255 < P && !(SignOf(b) == 1 && (c.y == 1 || c.y == P - 1))
  {
    var n := Ed25519.Number(b) % TWO255;
    ZeroOnCurve(c.x, c.y);
    if n < P { ModSmall(n, P); }
    forall x, y | RfcDecodes(b, x, y)
      ensures c.y == y && c.x == (-x) % P && !(SignOf(b) == 1 && (c.y == 1 || c.y == P - 1))
    {
      OppositeX(x, c.x, y, SignOf(b));
      ZeroOnCurve(x, y);
    }
    if n < P && !(SignOf(b) == 1 && (c.y == 1 || c.y == P - 1)) {
      var x := (-c.x) % P;
      DNotMinusOne();
      Opposite(c.x, P);
      OppositeOnCurve(c.x, x, c.y, D, P);
      assert RfcDecodes(b, x, c.y);
    }
  }
}
