/** Powers and modular arithmetic over unbounded integers, shared by the field,
    scalar and public-key modules. Congruence is written `a % m == b % m`. */
module Arith {

  function Pow(b: int, e: nat): int
  {
    if e == 0 then 1 else b * Pow(b, e - 1)
  }

  lemma {:induction false} PowPositive(b: int, e: nat)
    requires b > 0
    ensures Pow(b, e) > 0
  {
    if e > 0 { PowPositive(b, e - 1); MulPositive(b, Pow(b, e - 1)); }
  }

  lemma MulPositive(a: int, b: int)
    requires a > 0 && b > 0
    ensures a * b > 0
  {}

  lemma MulMonotone(a: int, b: int, c: int)
    requires a <= b && c >= 0
    ensures a * c <= b * c
  {}

  lemma {:induction false} PowAdd(b: int, e: nat, f: nat)
    ensures Pow(b, e + f) == Pow(b, e) * Pow(b, f)
  {
    if e > 0 {
      PowAdd(b, e - 1, f);
      assert Pow(b, e + f) == b * Pow(b, e - 1 + f);
      MulAssoc(b, Pow(b, e - 1), Pow(b, f));
    }
  }

  lemma MulAssoc(a: int, b: int, c: int)
    ensures (a * b) * c == a * (b * c)
  {}

  lemma MulDistribute(a: int, b: int, c: int)
    ensures (a + b) * c == a * c + b * c
  {}

  lemma MulSwap(a: int, b: int, x: int, y: int)
    ensures (a * b) * (x * y) == (a * x) * (b * y)
  {
    calc {
      (a * b) * (x * y);
      { MulAssoc(a, b, x * y); }
      a * (b * (x * y));
      { MulAssoc(b, x, y); MulAssoc(x, b, y); }
      a * (x * (b * y));
      { MulAssoc(a, x, b * y); }
      (a * x) * (b * y);
    }
  }

  lemma {:induction false} PowMul(b: int, e: nat, f: nat)
    ensures e * f >= 0 && Pow(Pow(b, e), f) == Pow(b, e * f)
    decreases f
  {
    if f == 0 {
      assert e * f == 0;
    } else {
      PowMul(b, e, f - 1);
      assert e * f == e + e * (f - 1);
      PowAdd(b, e, e * (f - 1));
    }
  }

  lemma {:induction false} PowProduct(a: int, b: int, e: nat)
    ensures Pow(a * b, e) == Pow(a, e) * Pow(b, e)
  {
    if e > 0 {
      PowProduct(a, b, e - 1);
      MulSwap(a, b, Pow(a, e - 1), Pow(b, e - 1));
    }
  }

  lemma {:induction false} PowMonotone(b: int, e: nat, f: nat)
    requires b >= 1 && e <= f
    ensures Pow(b, e) <= Pow(b, f)
    decreases f
  {
    if e < f {
      PowMonotone(b, e, f - 1);
      PowPositive(b, f - 1);
      MulMonotone(1, b, Pow(b, f - 1));
    }
  }

  // ---------------------------------------------------------------- remainders

  lemma MultipleBelow(m: int, z: int, d: int)
    requires d == m * z && -m < d < m
    ensures z == 0 && d == 0
  {
    if z >= 1 { MulMonotone(1, z, m); }
    if z <= -1 { MulMonotone(z, -1, m); }
  }

  /** Numbers that differ by a multiple of m have the same remainder. */
  lemma ModIntro(a: int, b: int, k: int, m: int)
    requires m > 0 && a == b + k * m
    ensures a % m == b % m
  {
    var z := b / m + k - a / m;
    assert a % m - b % m == m * z by {
      assert a == m * (a / m) + a % m;
      assert b == m * (b / m) + b % m;
      assert m * z == m * (b / m) + m * k - m * (a / m);
    }
    MultipleBelow(m, z, a % m - b % m);
  }

  /** Numbers with the same remainder differ by a multiple of m. */
  lemma ModElim(a: int, b: int, m: int) returns (k: int)
    requires m > 0 && a % m == b % m
    ensures a == b + k * m
  {
    k := a / m - b / m;
    assert a == m * (a / m) + a % m;
    assert b == m * (b / m) + b % m;
    assert k * m == m * (a / m) - m * (b / m);
  }

  lemma ModSmall(a: int, m: int)
    requires 0 <= a < m
    ensures a % m == a
  {}

  lemma ModMod(a: int, m: int)
    requires m > 0
    ensures (a % m) % m == a % m
  {}

  lemma ModAdd(a: int, a': int, b: int, b': int, m: int)
    requires m > 0 && a % m == a' % m && b % m == b' % m
    ensures (a + b) % m == (a' + b') % m
  {
    var j := ModElim(a, a', m);
    var k := ModElim(b, b', m);
    assert (j + k) * m == j * m + k * m;
    ModIntro(a + b, a' + b', j + k, m);
  }

  lemma ModSub(a: int, a': int, b: int, b': int, m: int)
    requires m > 0 && a % m == a' % m && b % m == b' % m
    ensures (a - b) % m == (a' - b') % m
  {
    var j := ModElim(a, a', m);
    var k := ModElim(b, b', m);
    assert (j - k) * m == j * m - k * m;
    ModIntro(a - b, a' - b', j - k, m);
  }

  lemma ModMul(a: int, a': int, b: int, b': int, m: int)
    requires m > 0 && a % m == a' % m && b % m == b' % m
    ensures (a * b) % m == (a' * b') % m
  {
    var j := ModElim(a, a', m);
    var k := ModElim(b, b', m);
    var w := j * b + a' * k;
    assert a * b == (a' + j * m) * b;
    assert (a' + j * m) * b == a' * b + (j * b) * m;
    assert a' * b == a' * b' + (a' * k) * m;
    assert w * m == (j * b) * m + (a' * k) * m;
    ModIntro(a * b, a' * b', w, m);
  }

  lemma {:induction false} ModPow(a: int, a': int, e: nat, m: int)
    requires m > 0 && a % m == a' % m
    ensures Pow(a, e) % m == Pow(a', e) % m
  {
    if e > 0 {
      ModPow(a, a', e - 1, m);
      ModMul(a, a', Pow(a, e - 1), Pow(a', e - 1), m);
    }
  }
}
