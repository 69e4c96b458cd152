/** A polynomial of degree n has at most n roots modulo a prime, so that not every residue has a
    power of small exponent equal to 1. */
module Polynomial {
  import opened Arith
  import opened NumberTheory

  /** cs[0] + cs[1] * x + cs[2] * x^2 + ... */
  function Eval(cs: seq<int>, x: int): int
  {
    if cs == [] then 0 else cs[0] + x * Eval(cs[1..], x)
  }

  /** t + a * q, for a shorter q. */
  function AddScaled(t: seq<int>, a: int, q: seq<int>): (r: seq<int>)
    requires |q| < |t|
    ensures |r| == |t| && r[|t| - 1] == t[|t| - 1]
  {
    if q == [] then t else [t[0] + a * q[0]] + AddScaled(t[1..], a, q[1..])
  }

  lemma {:induction false} AddScaledValue(t: seq<int>, a: int, q: seq<int>, x: int)
    requires |q| < |t|
    ensures Eval(AddScaled(t, a, q), x) == Eval(t, x) + a * Eval(q, x)
    decreases |q|
  {
    if q != [] {
      AddScaledValue(t[1..], a, q[1..], x);
      var r := AddScaled(t, a, q);
      var u, v := Eval(t[1..], x), Eval(q[1..], x);
      assert r[1..] == AddScaled(t[1..], a, q[1..]);
      assert x * (u + a * v) == x * u + a * (x * v) by {
        MulDistribute(u, a * v, x);
        MulAssoc(a, x, v);
        MulAssoc(x, a, v);
      }
      MulDistribute(q[0], x * v, a);
    }
  }

  /** The quotient by x - a. */
  function Quotient(cs: seq<int>, a: int): (q: seq<int>)
    requires cs != []
    ensures |q| == |cs| - 1 && (q != [] ==> q[|q| - 1] == cs[|cs| - 1])
  {
    if |cs| == 1 then [] else AddScaled(cs[1..], a, Quotient(cs[1..], a))
  }

  lemma {:induction false} Division(cs: seq<int>, a: int, x: int)
    requires cs != []
    ensures Eval(cs, x) == Eval(cs, a) + (x - a) * Eval(Quotient(cs, a), x)
    decreases |cs|
  {
    if |cs| > 1 {
      var t, q := cs[1..], Quotient(cs[1..], a);
      Division(t, a, x);
      AddScaledValue(t, a, q, x);
      DivisionStep(a, x, Eval(t, x), Eval(t, a), Eval(q, x));
    }
  }

  lemma DivisionStep(a: int, x: int, tx: int, ta: int, qx: int)
    requires tx == ta + (x - a) * qx
    ensures x * tx == a * ta + (x - a) * (tx + a * qx)
  {
    var d := x - a;
    assert x * tx == a * tx + d * tx by { MulDistribute(a, d, tx); }
    assert a * tx == a * ta + a * (d * qx) by { MulDistribute(ta, d * qx, a); }
    assert d * (tx + a * qx) == d * tx + d * (a * qx) by { MulDistribute(tx, a * qx, d); }
    assert a * (d * qx) == d * (a * qx) by { MulAssoc(a, d, qx); MulAssoc(d, a, qx); }
  }

  ghost predicate Roots(s: set<int>, cs: seq<int>, p: int)
    requires p > 0
  {
    forall x :: x in s ==> 0 <= x < p && Divides(p, Eval(cs, x))
  }

  /** The other roots are roots of the quotient. */
  lemma QuotientRoot(cs: seq<int>, p: int, a: int, x: int)
    requires Prime(p) && cs != [] && 0 <= a < p && 0 <= x < p && a != x
    requires Divides(p, Eval(cs, a)) && Divides(p, Eval(cs, x))
    ensures Divides(p, Eval(Quotient(cs, a), x))
  {
    Division(cs, a, x);
    ModSub(Eval(cs, x), 0, Eval(cs, a), 0, p);
    assert !Divides(p, x - a) by {
      if Divides(p, x - a) {
        var k := DividesElim(p, x - a);
        MultipleBelow(p, k, x - a);
      }
    }
    EuclidLemma(p, x - a, Eval(Quotient(cs, a), x));
  }

  lemma ConstantValue(cs: seq<int>, x: int)
    requires cs != []
    ensures |cs| == 1 ==> Eval(cs, x) == cs[0]
  {}

  lemma {:induction false} RootBound(s: set<int>, cs: seq<int>, p: int)
    requires Prime(p) && cs != [] && !Divides(p, cs[|cs| - 1]) && Roots(s, cs, p)
    ensures |s| < |cs|
    decreases |cs|
  {
    HasElement(s);
    if s != {} {
      var a :| a in s;
      ConstantValue(cs, a);
      if |cs| > 1 {
        forall x | x in s - {a} ensures Divides(p, Eval(Quotient(cs, a), x)) { QuotientRoot(cs, p, a, x); }
        RootBound(s - {a}, Quotient(cs, a), p);
      }
    }
  }

  /** x^n */
  function Monomial(n: nat): (cs: seq<int>)
    ensures |cs| == n + 1 && cs[n] == 1
  {
    if n == 0 then [1] else [0] + Monomial(n - 1)
  }

  lemma {:induction false} MonomialValue(n: nat, x: int)
    ensures Eval(Monomial(n), x) == Pow(x, n)
  {
    if n == 0 {
      assert Monomial(0)[1..] == [];
    } else {
      MonomialValue(n - 1, x);
      assert Monomial(n)[1..] == Monomial(n - 1);
    }
  }

  /** x^n - 1 */
  function PowerMinusOne(n: nat): (cs: seq<int>)
    requires n > 0
    ensures |cs| == n + 1 && cs[n] == 1
  {
    [-1] + Monomial(n)[1..]
  }

  lemma PowerMinusOneValue(n: nat, x: int)
    requires n > 0
    ensures Eval(PowerMinusOne(n), x) == Pow(x, n) - 1
  {
    var m, cs := Monomial(n), PowerMinusOne(n);
    MonomialValue(n, x);
    assert m[0] == 0 && cs[0] == -1 && cs[1..] == m[1..];
    assert Eval(m, x) == m[0] + x * Eval(m[1..], x);
  }

  lemma RootOfOne(n: nat, x: int, p: int)
    requires p > 1 && n > 0 && Pow(x, n) % p == 1
    ensures Divides(p, Eval(PowerMinusOne(n), x))
  {
    PowerMinusOneValue(n, x);
    OneLess(Pow(x, n), p);
  }

  lemma OneLess(v: int, p: int)
    requires p > 1 && v % p == 1
    ensures Divides(p, v - 1)
  {
    ModSmall(1, p);
    ModSub(v, 1, 1, 1, p);
  }

  lemma RootsOfOne(s: set<int>, n: nat, p: int)
    requires Prime(p) && n > 0 && forall x :: x in s ==> 0 <= x < p && Pow(x, n) % p == 1
    ensures |s| <= n
  {
    forall x | x in s ensures Divides(p, Eval(PowerMinusOne(n), x)) { RootOfOne(n, x, p); }
    ModSmall(1, p);
    RootBound(s, PowerMinusOne(n), p);
  }

  /** Some residue has a power other than 1, for every positive exponent below p - 1. */
  lemma PowerNotOne(p: int, n: nat) returns (h: int)
    requires Prime(p) && 0 < n < p - 1
    ensures 0 < h < p && Pow(h, n) % p != 1
  {
    var s := set x | x in Range(p - 1) && Pow(x, n) % p == 1;
    RootsOfOne(s, n, p);
    assert s != Range(p - 1);
    h :| h in Range(p - 1) && h !in s;
  }
}
