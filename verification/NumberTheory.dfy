/** The number theory behind the RSA and DSS chains: Euclid's lemma, Fermat's little theorem,
    and congruences modulo a product of two primes. */
module NumberTheory {
  import opened Arith

  predicate Divides(d: int, n: int)
    requires d > 0
  {
    n % d == 0
  }

  predicate Prime(p: int)
  {
    p >= 2 && forall d :: 2 <= d < p ==> !Divides(d, p)
  }

  lemma DividesIntro(d: int, n: int, k: int)
    requires d > 0 && n == k * d
    ensures Divides(d, n)
  {
    ModIntro(n, 0, k, d);
  }

  lemma DividesElim(d: int, n: int) returns (k: int)
    requires d > 0 && Divides(d, n)
    ensures n == k * d
  {
    k := ModElim(n, 0, d);
  }

  /** A combination a*x + b*y that divides both a and b. */
  lemma {:induction false} Bezout(a: nat, b: nat) returns (g: int, x: int, y: int)
    requires a > 0
    ensures g > 0 && a * x + b * y == g && Divides(g, a) && Divides(g, b)
    decreases b
  {
    if b == 0 {
      g, x, y := a, 1, 0;
      DividesIntro(a, a, 1);
      DividesIntro(a, 0, 0);
    } else {
      var q, r := a / b, a % b;
      var x', y';
      g, x', y' := Bezout(b, r);
      x, y := y', x' - q * y';
      BezoutAlgebra(a, b, q, r, x', y');
      var m := DividesElim(g, b);
      var n := DividesElim(g, r);
      assert a == (q * m + n) * g by { MulAssoc(q, m, g); MulDistribute(q * m, n, g); }
      DividesIntro(g, a, q * m + n);
    }
  }

  lemma BezoutAlgebra(a: int, b: int, q: int, r: int, x: int, y: int)
    requires a == b * q + r
    ensures a * y + b * (x - q * y) == b * x + r * y
  {
    MulDistribute(b * q, r, y);
    MulAssoc(b, q, y);
    MulDistribute(x, -(q * y), b);
  }

  lemma CommonFactor(p: int, r: int, g: int)
    requires Prime(p) && 0 < r < p && g > 0 && Divides(g, p) && Divides(g, r)
    ensures g == 1
  {
    var k := DividesElim(g, r);
    if k >= 1 { MulMonotone(1, k, g); } else { MulMonotone(k, 0, g); }
    assert g < p;
  }

  lemma BezoutInverse(p: int, a: int, r: int, u: int, v: int)
    requires p >= 2 && r == a % p && p * u + r * v == 1
    ensures (a * (v % p)) % p == 1
  {
    ModMod(a, p);
    ModMod(v, p);
    ModMul(a, r, v % p, v, p);
    ModIntro(r * v, 1, -u, p);
    ModSmall(1, p);
  }

  /** A number not divisible by a prime has an inverse modulo it. */
  lemma PrimeInverse(p: int, a: int) returns (x: int)
    requires Prime(p) && !Divides(p, a)
    ensures (a * x) % p == 1 && 0 < x < p
  {
    var r := a % p;
    var g, u, v := Bezout(p, r);
    CommonFactor(p, r, g);
    BezoutInverse(p, a, r, u, v);
    x := v % p;
    ModSmall(0, p);
    FactorNonzero(a, x);
  }

  lemma FactorNonzero(a: int, x: int)
    requires a * x != 0
    ensures x != 0
  {}

  lemma EuclidLemma(p: int, a: int, b: int)
    requires Prime(p) && Divides(p, a * b) && !Divides(p, a)
    ensures Divides(p, b)
  {
    var x := PrimeInverse(p, a);
    assert (a * x) % p == 1 % p;
    ModMul(a * x, 1, b, b, p);
    ModMul(a * b, 0, x, x, p);
    assert (a * x) * b == (a * b) * x;
  }

  lemma NotDivisible(p: int, a: int, b: int)
    requires Prime(p) && a % p != 0 && b % p != 0
    ensures (a * b) % p != 0
  {
    if (a * b) % p == 0 { EuclidLemma(p, a, b); }
  }

  /** Cancel a factor that the prime does not divide. */
  lemma Cancel(p: int, c: int, a: int, b: int)
    requires Prime(p) && !Divides(p, c) && (c * a) % p == (c * b) % p
    ensures a % p == b % p
  {
    ModSub(c * a, c * b, c * b, c * b, p);
    assert c * (a - b) == c * a - c * b;
    EuclidLemma(p, c, a - b);
    var k := DividesElim(p, a - b);
    ModIntro(a, b, k, p);
  }

  // -------------------------------------------------- Fermat's little theorem

  lemma HasElement(s: set<int>)
    ensures s == {} || exists x :: x in s
  {
    if !exists x :: x in s { assert s == {}; }
  }

  ghost function Pick(s: set<int>): (x: int)
    requires s != {}
    ensures x in s
  {
    HasElement(s);
    var x :| x in s; x
  }

  ghost function Product(s: set<int>): int
  {
    if s == {} then 1 else Pick(s) * Product(s - {Pick(s)})
  }

  lemma {:induction false} ProductRemove(s: set<int>, x: int)
    requires x in s
    ensures Product(s) == x * Product(s - {x})
    decreases |s|
  {
    var y := Pick(s);
    if x != y {
      ProductRemove(s - {y}, x);
      ProductRemove(s - {x}, y);
      assert s - {y} - {x} == s - {x} - {y};
      var r := Product(s - {x} - {y});
      assert y * (x * r) == x * (y * r);
    }
  }

  lemma {:induction false} ProductNotDivisible(s: set<int>, p: int)
    requires Prime(p) && forall x :: x in s ==> !Divides(p, x)
    ensures !Divides(p, Product(s))
    decreases |s|
  {
    if s != {} {
      var x := Pick(s);
      ProductNotDivisible(s - {x}, p);
      if Divides(p, Product(s)) { EuclidLemma(p, x, Product(s - {x})); }
    }
  }

  ghost function Scaled(s: set<int>, a: int, p: int): set<int>
    requires p > 0
  {
    set x | x in s :: (a * x) % p
  }

  /** Multiplying distinct residues by a keeps them distinct and multiplies their product by a^k. */
  lemma {:induction false} ScaledProduct(s: set<int>, a: int, p: int)
    requires Prime(p) && !Divides(p, a) && forall x :: x in s ==> 0 < x < p
    ensures |Scaled(s, a, p)| == |s|
    ensures Product(Scaled(s, a, p)) % p == (Pow(a, |s|) * Product(s)) % p
    decreases |s|
  {
    if s != {} {
      var x := Pick(s);
      var t, y := s - {x}, (a * x) % p;
      ScaledProduct(t, a, p);
      assert y !in Scaled(t, a, p) by { ScaledDistinct(t, a, p, x); }
      assert Scaled(s, a, p) == Scaled(t, a, p) + {y};
      assert Scaled(s, a, p) - {y} == Scaled(t, a, p);
      ProductRemove(Scaled(s, a, p), y);
      ScaledStep(y, a, x, Product(Scaled(t, a, p)), Pow(a, |t|), Product(t), p);
    }
  }

  lemma ScaledStep(y: int, a: int, x: int, u: int, w: int, r: int, p: int)
    requires p > 0 && y == (a * x) % p && u % p == (w * r) % p
    ensures (y * u) % p == ((a * w) * (x * r)) % p
  {
    ModMod(a * x, p);
    ModMul(y, a * x, u, w * r, p);
    MulSwap(a, x, w, r);
  }

  lemma ScaledDistinct(t: set<int>, a: int, p: int, x: int)
    requires Prime(p) && !Divides(p, a) && 0 < x < p && x !in t && forall z :: z in t ==> 0 < z < p
    ensures (a * x) % p !in Scaled(t, a, p)
  {
    if (a * x) % p in Scaled(t, a, p) {
      var z :| z in t && (a * z) % p == (a * x) % p;
      Cancel(p, a, z, x);
      ModSmall(z, p);
      ModSmall(x, p);
    }
  }

  lemma SubsetOfSameSize(a: set<int>, b: set<int>)
    requires a <= b && |a| == |b|
    ensures a == b
  {
    assert b * a == a;
    assert |b - a| == |b| - |b * a|;
    assert b - a == {};
  }

  /** 1, ..., n */
  ghost function Range(n: nat): (s: set<int>)
    ensures |s| == n && forall x :: x in s <==> 0 < x <= n
  {
    if n == 0 then {} else Range(n - 1) + {n}
  }

  lemma ScaledRange(p: int, a: int)
    requires Prime(p) && !Divides(p, a)
    ensures Scaled(Range(p - 1), a, p) == Range(p - 1)
  {
    var s := Range(p - 1);
    forall y | y in Scaled(s, a, p) ensures y in s {
      var x :| x in s && y == (a * x) % p;
      ModSmall(x, p);
      if y == 0 { EuclidLemma(p, a, x); }
    }
    ScaledProduct(s, a, p);
    SubsetOfSameSize(Scaled(s, a, p), s);
  }

  lemma Fermat(p: int, a: int)
    requires Prime(p) && !Divides(p, a)
    ensures Pow(a, p - 1) % p == 1
  {
    RangeNotDivisible(p);
    ScaledRangeProduct(p, a, Product(Range(p - 1)), Pow(a, p - 1));
    CancelOne(p, Product(Range(p - 1)), Pow(a, p - 1));
  }

  lemma ScaledRangeProduct(p: int, a: int, r: int, w: int)
    requires Prime(p) && !Divides(p, a) && r == Product(Range(p - 1)) && w == Pow(a, p - 1)
    ensures r % p == (w * r) % p
  {
    ScaledRange(p, a);
    ScaledProduct(Range(p - 1), a, p);
  }

  lemma RangeNotDivisible(p: int)
    requires Prime(p)
    ensures !Divides(p, Product(Range(p - 1)))
  {
    forall x | x in Range(p - 1) ensures !Divides(p, x) { ModSmall(x, p); }
    ProductNotDivisible(Range(p - 1), p);
  }

  lemma CancelOne(p: int, r: int, w: int)
    requires Prime(p) && !Divides(p, r) && r % p == (w * r) % p
    ensures w % p == 1
  {
    assert r * w == w * r && r * 1 == r;
    Cancel(p, r, w, 1);
    ModSmall(1, p);
  }

  /** Exponents that are 1 modulo p - 1 fix every residue, also the multiples of p. */
  lemma FermatExponent(p: int, a: int, j: nat)
    requires Prime(p)
    ensures j * (p - 1) >= 0 && Pow(a, 1 + j * (p - 1)) % p == a % p
  {
    MulMonotone(0, j, p - 1);
    if Divides(p, a) {
      ModMul(a, 0, Pow(a, j * (p - 1)), Pow(a, j * (p - 1)), p);
    } else {
      FermatPower(p, a, j);
      ModMul(a, a, Pow(a, j * (p - 1)), 1, p);
    }
  }

  lemma FermatPower(p: int, a: int, j: nat)
    requires Prime(p) && !Divides(p, a)
    ensures j * (p - 1) >= 0 && Pow(a, j * (p - 1)) % p == 1 % p
  {
    Fermat(p, a);
    PowMul(a, p - 1, j);
    assert (p - 1) * j == j * (p - 1);
    ModSmall(1, p);
    ModPow(Pow(a, p - 1), 1, j, p);
    PowOfOne(j);
  }

  lemma {:induction false} PowOfOne(e: nat)
    ensures Pow(1, e) == 1
  {
    if e > 0 { PowOfOne(e - 1); }
  }

  /** Congruence modulo two different primes gives congruence modulo their product. */
  lemma ModuloProduct(p: int, q: int, a: int, b: int)
    requires Prime(p) && Prime(q) && p != q && a % p == b % p && a % q == b % q
    ensures p * q > 0 && a % (p * q) == b % (p * q)
  {
    MulPositive(p, q);
    var k := ModElim(a, b, p);
    ModSub(a, b, b, b, q);
    assert Divides(q, p * k);
    DistinctPrimes(q, p);
    EuclidLemma(q, p, k);
    var j := DividesElim(q, k);
    assert a == b + j * (p * q) by { MulAssoc(j, q, p); }
    ModIntro(a, b, j, p * q);
  }

  lemma DistinctPrimes(q: int, p: int)
    requires Prime(p) && Prime(q) && p != q
    ensures !Divides(q, p)
  {
    if p < q { ModSmall(p, q); } else { assert 2 <= q < p; }
  }

  // -------------------------------------------------- elements of prime order

  /** A power of g^q = 1 is 1. */
  lemma PowerOfOne(p: int, g: int, q: nat, k: nat)
    requires p > 1 && Pow(g, q) % p == 1
    ensures Pow(g, q * k) % p == 1
  {
    ModSmall(1, p);
    ModPow(Pow(g, q), 1, k, p);
    PowOfOne(k);
    PowMul(g, q, k);
  }

  /** If x*y is 1 modulo q then g^(x*y) is g. */
  lemma InverseExponents(p: int, q: int, g: int, x: nat, y: nat)
    requires p > 1 && q > 1 && Pow(g, q) % p == 1 && (x * y) % q == 1
    ensures Pow(Pow(g, x), y) % p == g % p
  {
    ModSmall(1, q);
    var k := ModElim(x * y, 1, q);
    if k < 0 { MulMonotone(k, -1, q); }
    assert q * k == k * q;
    PowerOfOne(p, g, q, k);
    PowAdd(g, q * k, 1);
    assert Pow(g, 1) == g * Pow(g, 0) == g;
    ModSmall(1, p);
    ModMul(Pow(g, q * k), 1, g, g, p);
    PowMul(g, x, y);
  }

  /** When q is prime no smaller exponent gives 1, unless g is 1. */
  lemma PrimeOrder(p: int, q: int, g: int, x: nat)
    requires p > 1 && Prime(q) && Pow(g, q) % p == 1 && g % p != 1 && 0 < x < q
    ensures Pow(g, x) % p != 1
  {
    ModSmall(x, q);
    var y := PrimeInverse(q, x);
    InverseExponents(p, q, g, x, y);
    ModSmall(1, p);
    if Pow(g, x) % p == 1 {
      ModPow(Pow(g, x), 1, y, p);
      PowOfOne(y);
    }
  }
}
