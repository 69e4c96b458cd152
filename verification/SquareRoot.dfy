/** Square roots of quotients modulo a prime that is 5 modulo 8, as section 5.1.3 of RFC 8032 takes them:
    one exponentiation gives a candidate, which is a root, or is one times a root of -1, or there is none. */
module SquareRoot {
  import opened Arith
  import opened NumberTheory

  /** x is a square root of num / den, or of 0 / 0. */
  predicate IsRoot(x: int, num: int, den: int, p: int)
    requires p > 0
  {
    (x * x * den) % p == num % p
  }

  /** (num / den)^((p+3)/8), with the inverse folded into the exponent e, which is (p-5)/8. */
  function Candidate(num: int, den: int, e: nat): int
  {
    Pow(num * Pow(den, 7), e) * num * Pow(den, 3)
  }

  lemma SmallPowers(d: int)
    ensures Pow(d, 2) == d * d && Pow(d, 3) == d * (d * d)
    ensures Pow(d, 6) == Pow(d, 4) * Pow(d, 2) && Pow(d, 7) == Pow(d, 6) * d && Pow(d, 7) == Pow(d, 3) * Pow(d, 3) * d
    ensures Pow(d, 4) == Pow(d, 2) * Pow(d, 2) && Pow(d, 8) == Pow(d, 4) * Pow(d, 4) && Pow(d, 8) == d * Pow(d, 7)
  {
    assert Pow(d, 1) == d * Pow(d, 0) == d;
    PowAdd(d, 1, 1);
    PowAdd(d, 1, 2);
    PowAdd(d, 2, 2);
    PowAdd(d, 4, 2);
    PowAdd(d, 6, 1);
    PowAdd(d, 3, 3);
    PowAdd(d, 4, 4);
    PowAdd(d, 1, 7);
  }

  /** The square of the candidate is num / den up to a power that tells squares. */
  lemma CandidateSquare(num: int, den: int, e: nat)
    ensures var x, t := Candidate(num, den, e), num * Pow(den, 7); x * x * den == Pow(t, 2 * e + 1) * num
  {
    var t, d3 := num * Pow(den, 7), Pow(den, 3);
    var u := Pow(t, e);
    SmallPowers(den);
    PowAdd(t, e, e);
    PowAdd(t, 1, 2 * e);
    assert Pow(t, 1) == t * Pow(t, 0) == t;
    SquareAlgebra(u, num, d3, den, t);
  }

  lemma SquareAlgebra(u: int, num: int, d3: int, den: int, t: int)
    requires t == num * (d3 * d3 * den)
    ensures (u * num * d3) * (u * num * d3) * den == (t * (u * u)) * num
  {
    var w := u * num;
    MulSwap(w, d3, w, d3);
    MulSwap(u, num, u, num);
    MulAssoc((u * u) * (num * num), d3 * d3, den);
    var uu, q := u * u, d3 * d3 * den;
    assert (uu * (num * num)) * q == (uu * num) * (num * q) by { MulAssoc(uu, num, num); MulAssoc(uu * num, num, q); }
    assert (uu * num) * t == (t * uu) * num by { MulAssoc(uu, num, t); MulAssoc(t, uu, num); }
  }

  /** Numbers with equal squares are equal or opposite. */
  lemma EqualSquares(p: int, a: int, b: int)
    requires Prime(p) && (a * a) % p == (b * b) % p
    ensures Divides(p, a - b) || Divides(p, a + b)
  {
    ModSub(a * a, b * b, b * b, b * b, p);
    assert (a - b) * (a + b) == a * a - b * b by { MulDistribute(a, -b, a + b); }
    if !Divides(p, a - b) { EuclidLemma(p, a - b, a + b); }
  }

  lemma UnitRoot(p: int, c: int)
    requires Prime(p) && (c * c) % p == 1 % p
    ensures c % p == 1 % p || (-c) % p == 1 % p
  {
    EqualSquares(p, c, 1);
    if Divides(p, c - 1) {
      var k := DividesElim(p, c - 1);
      ModIntro(c, 1, k, p);
    } else {
      var k := DividesElim(p, c + 1);
      assert -k * p == -(k * p);
      ModIntro(1, -c, k, p);
    }
  }

  /** num * den^7 is the square of y * den^4 when y is a root. */
  lemma RootPower(p: int, y: int, num: int, den: int)
    requires p > 0 && IsRoot(y, num, den, p)
    ensures var z, t := y * Pow(den, 4), num * Pow(den, 7); (z * z) % p == t % p
  {
    var d7 := Pow(den, 7);
    SmallPowers(den);
    ModMul(y * y * den, num, d7, d7, p);
    MulSwap(y, Pow(den, 4), y, Pow(den, 4));
    MulAssoc(y * y, den, d7);
  }

  /** Euler's criterion, in the direction that is needed. */
  lemma SquareCharacter(p: int, e: nat, z: int, t: int)
    requires Prime(p) && p == 8 * e + 5 && (z * z) % p == t % p && !Divides(p, t)
    ensures var c := Pow(t, 2 * e + 1); (c * c) % p == 1 % p
  {
    if Divides(p, z) { ModMul(z, 0, z, z, p); }
    var n := 2 * e + 1;
    PowAdd(t, n, n);
    ModPow(t, z * z, 2 * n, p);
    assert Pow(z, 2) == z * z by { SmallPowers(z); }
    PowMul(z, 2, 2 * n);
    assert 2 * (2 * n) == p - 1;
    Fermat(p, z);
    ModSmall(1, p);
  }

  lemma ProductDivides(p: int, a: int, b: int)
    requires p > 0 && Divides(p, a)
    ensures Divides(p, a * b) && Divides(p, b * a)
  {
    ModMul(a, 0, b, b, p);
    assert b * a == a * b;
  }

  /** If there is a root at all, the candidate or i times the candidate is one. */
  lemma CandidateComplete(p: int, e: nat, num: int, den: int, i: int, y: int)
    requires Prime(p) && p == 8 * e + 5 && (i * i) % p == (-1) % p && IsRoot(y, num, den, p)
    ensures var x := Candidate(num, den, e); IsRoot(x, num, den, p) || IsRoot(x * i, num, den, p)
  {
    var t, x := num * Pow(den, 7), Candidate(num, den, e);
    var c := Pow(t, 2 * e + 1);
    CandidateSquare(num, den, e);
    if Divides(p, t) {
      RootOfZero(p, num, den, y, x, c);
    } else {
      RootPower(p, y, num, den);
      SquareCharacter(p, e, y * Pow(den, 4), t);
      RootUpToSign(p, x, i, num, den, c);
    }
  }

  lemma RootUpToSign(p: int, x: int, i: int, num: int, den: int, c: int)
    requires Prime(p) && (i * i) % p == (-1) % p && x * x * den == c * num && (c * c) % p == 1 % p
    ensures IsRoot(x, num, den, p) || IsRoot(x * i, num, den, p)
  {
    UnitRoot(p, c);
    if c % p == 1 % p { ModMul(c, 1, num, num, p); } else { OppositeRoot(p, x, i, num, den, c); }
  }

  /** num is a multiple of p when num * den^7 is and there is a root. */
  lemma RootOfZero(p: int, num: int, den: int, y: int, x: int, c: int)
    requires Prime(p) && Divides(p, num * Pow(den, 7)) && IsRoot(y, num, den, p) && x * x * den == c * num
    ensures IsRoot(x, num, den, p)
  {
    if !Divides(p, num) {
      EuclidLemma(p, num, Pow(den, 7));
      PowerDivides(p, den, 7);
      ProductDivides(p, den, y * y);
    }
    ProductDivides(p, num, c);
  }

  lemma {:induction false} PowerDivides(p: int, a: int, e: nat)
    requires Prime(p) && Divides(p, Pow(a, e))
    ensures Divides(p, a)
  {
    if e == 0 {
      ModSmall(1, p);
    } else if !Divides(p, a) {
      EuclidLemma(p, a, Pow(a, e - 1));
      PowerDivides(p, a, e - 1);
    }
  }

  /** When the square of x is off by -1, multiplying by i puts it right. */
  lemma OppositeRoot(p: int, x: int, i: int, num: int, den: int, c: int)
    requires p > 0 && (i * i) % p == (-1) % p && x * x * den == c * num && (-c) % p == 1 % p
    ensures IsRoot(x * i, num, den, p)
  {
    MulSwap(x, i, x, i);
    var q := x * x;
    assert (q * (i * i)) * den == (i * i) * (q * den) by { MulAssoc(i * i, q, den); }
    ModMul(i * i, -1, q * den, q * den, p);
    assert -1 * (q * den) == (-c) * num by { MulAssoc(-1, c, num); }
    ModMul(-c, 1, num, num, p);
  }

  lemma RootCongruent(x: int, x': int, num: int, den: int, p: int)
    requires p > 0 && x % p == x' % p
    ensures IsRoot(x, num, den, p) <==> IsRoot(x', num, den, p)
  {
    ModMul(x, x', x, x', p);
    ModMul(x * x, x' * x', den, den, p);
  }

  /** Neither the candidate nor i times the candidate is a root only if nothing is. */
  lemma NoRoot(p: int, e: nat, num: int, den: int, i: int, x: int, xi: int, y: int)
    requires Prime(p) && p == 8 * e + 5 && (i * i) % p == (-1) % p
    requires x == Candidate(num, den, e) % p && xi == (x * i) % p
    requires !IsRoot(x, num, den, p) && !IsRoot(xi, num, den, p)
    ensures !IsRoot(y, num, den, p)
  {
    if IsRoot(y, num, den, p) {
      var c := Candidate(num, den, e);
      CandidateComplete(p, e, num, den, i, y);
      ModMod(c, p);
      RootCongruent(x, c, num, den, p);
      ModMul(x, c, i, i, p);
      ModMod(x * i, p);
      RootCongruent(xi, c * i, num, den, p);
    }
  }
}
