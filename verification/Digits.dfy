/** Little-endian positional numbers with arbitrary (signed, unnormalised) digits:
    the limb arrays of curve25519.c in base 2^16 and its byte strings in base 2^8. */
module Digits {
  import opened Arith

  type u8 = x: int | 0 <= x < 0x100
  type i64 = x: int | -0x8000_0000_0000_0000 <= x < 0x8000_0000_0000_0000

  /** The number whose digit of weight b^k is s[k]. */
  function Eval(s: seq<int>, b: int): int
  {
    if |s| == 0 then 0 else Eval(s[..|s| - 1], b) + s[|s| - 1] * Pow(b, |s| - 1)
  }

  predicate Normal(s: seq<int>, b: int)
  {
    forall k :: 0 <= k < |s| ==> 0 <= s[k] < b
  }

  lemma EvalSnoc(s: seq<int>, k: nat, b: int)
    requires k < |s|
    ensures Eval(s[..k + 1], b) == Eval(s[..k], b) + s[k] * Pow(b, k)
  {
    assert s[..k + 1][..k] == s[..k];
  }

  lemma EvalFirst(s: seq<int>, b: int)
    requires |s| > 0
    ensures Eval(s[..1], b) == s[0]
  {
    EvalSnoc(s, 0, b);
    assert s[..0] == [];
  }

  lemma EvalFull(s: seq<int>, b: int)
    ensures Eval(s[..|s|], b) == Eval(s, b)
  {
    assert s[..|s|] == s;
  }

  /** Changing one digit changes the value by the difference times its weight. */
  lemma {:induction false} EvalUpdate(s: seq<int>, k: nat, v: int, b: int)
    requires k < |s|
    ensures Eval(s[k := v], b) == Eval(s, b) + (v - s[k]) * Pow(b, k)
  {
    var n := |s| - 1;
    if k == n {
      assert s[k := v][..n] == s[..n];
      assert v * Pow(b, k) == s[k] * Pow(b, k) + (v - s[k]) * Pow(b, k);
    } else {
      EvalUpdate(s[..n], k, v, b);
      assert s[k := v][..n] == s[..n][k := v];
    }
  }

  lemma EvalIncrease(s: seq<int>, k: nat, d: int, b: int)
    requires k < |s|
    ensures Eval(s[k := s[k] + d], b) == Eval(s, b) + d * Pow(b, k)
  {
    EvalUpdate(s, k, s[k] + d, b);
  }

  lemma EvalIncreaseFirst(s: seq<int>, d: int, b: int)
    requires 0 < |s|
    ensures Eval(s[0 := s[0] + d], b) == Eval(s, b) + d
  {
    EvalIncrease(s, 0, d, b);
    assert Pow(b, 0) == 1;
  }

  lemma {:induction false} EvalConcat(s: seq<int>, t: seq<int>, b: int)
    ensures Eval(s + t, b) == Eval(s, b) + Pow(b, |s|) * Eval(t, b)
  {
    if |t| == 0 {
      assert s + t == s;
    } else {
      var n := |t| - 1;
      EvalConcat(s, t[..n], b);
      assert (s + t)[..|s + t| - 1] == s + t[..n];
      PowAdd(b, |s|, n);
      var p, q, e := Pow(b, |s|), Pow(b, n), Eval(t[..n], b);
      assert p * (e + t[n] * q) == p * e + t[n] * (p * q) by { MulSpread(p, e, t[n], q); }
    }
  }

  lemma MulSpread(p: int, e: int, d: int, q: int)
    ensures p * (e + d * q) == p * e + d * (p * q)
  {
    MulAssoc(p, d, q);
    MulAssoc(d, p, q);
  }

  lemma EvalSplit(s: seq<int>, k: nat, b: int)
    requires k <= |s|
    ensures Eval(s, b) == Eval(s[..k], b) + Pow(b, k) * Eval(s[k..], b)
  {
    assert s == s[..k] + s[k..];
    EvalConcat(s[..k], s[k..], b);
  }

  lemma {:induction false} EvalAdd(r: seq<int>, s: seq<int>, t: seq<int>, b: int)
    requires |r| == |s| == |t|
    requires forall k :: 0 <= k < |r| ==> r[k] == s[k] + t[k]
    ensures Eval(r, b) == Eval(s, b) + Eval(t, b)
  {
    if |r| > 0 {
      var n := |r| - 1;
      EvalAdd(r[..n], s[..n], t[..n], b);
      assert r[n] * Pow(b, n) == s[n] * Pow(b, n) + t[n] * Pow(b, n);
    }
  }

  lemma {:induction false} EvalScale(r: seq<int>, s: seq<int>, c: int, b: int)
    requires |r| == |s|
    requires forall k :: 0 <= k < |r| ==> r[k] == c * s[k]
    ensures Eval(r, b) == c * Eval(s, b)
  {
    if |r| > 0 {
      var n := |r| - 1;
      EvalScale(r[..n], s[..n], c, b);
      MulAssoc(c, s[n], Pow(b, n));
      assert c * (Eval(s[..n], b) + s[n] * Pow(b, n)) == c * Eval(s[..n], b) + c * (s[n] * Pow(b, n));
    }
  }

  lemma {:induction false} EvalZero(s: seq<int>, b: int)
    requires forall k :: 0 <= k < |s| ==> s[k] == 0
    ensures Eval(s, b) == 0
  {
    if |s| > 0 { EvalZero(s[..|s| - 1], b); }
  }

  lemma {:induction false} EvalNormal(s: seq<int>, b: int)
    requires b > 1 && Normal(s, b)
    ensures 0 <= Eval(s, b) < Pow(b, |s|)
  {
    if |s| > 0 {
      var n := |s| - 1;
      EvalNormal(s[..n], b);
      PowPositive(b, n);
      MulMonotone(0, s[n], Pow(b, n));
      MulMonotone(s[n], b - 1, Pow(b, n));
    }
  }

  lemma MulDifference(x: int, y: int, w: int)
    ensures w * (x - y) == x * w - y * w
  {}

  /** A number has at most one n-digit normal representation. */
  lemma {:induction false} EvalInjective(s: seq<int>, t: seq<int>, b: int)
    requires b > 1 && Normal(s, b) && Normal(t, b)
    requires |s| == |t| && Eval(s, b) == Eval(t, b)
    ensures s == t
  {
    if |s| > 0 {
      var n := |s| - 1;
      EvalNormal(s[..n], b);
      EvalNormal(t[..n], b);
      var w := Pow(b, n);
      MulDifference(s[n], t[n], w);
      MultipleBelow(w, s[n] - t[n], Eval(t[..n], b) - Eval(s[..n], b));
      EvalInjective(s[..n], t[..n], b);
      assert s == s[..n] + [s[n]] && t == t[..n] + [t[n]];
    }
  }

  lemma EvalHead(s: seq<int>, b: int)
    requires |s| > 0
    ensures Eval(s, b) == s[0] + b * Eval(s[1..], b)
  {
    EvalSplit(s, 1, b);
    EvalFirst(s, b);
    assert Pow(b, 1) == b;
  }

  /** The digit of weight b^k can be read off the value. */
  lemma EvalDigit(s: seq<int>, k: nat, b: int)
    requires b > 1 && Normal(s, b) && k < |s|
    ensures Pow(b, k) > 0 && (Eval(s, b) / Pow(b, k)) % b == s[k]
  {
    PowPositive(b, k);
    var hi := s[k..];
    assert Eval(s, b) / Pow(b, k) == Eval(hi, b) by {
      EvalSplit(s, k, b);
      EvalNormal(s[..k], b);
      DivOf(Eval(s, b), Pow(b, k), Eval(hi, b), Eval(s[..k], b));
    }
    EvalHead(hi, b);
    DivOf(Eval(hi, b), b, Eval(hi[1..], b), s[k]);
  }

  /** Division is determined by a quotient and a remainder in range. */
  lemma DivOf(a: int, m: int, q: int, r: int)
    requires m > 0 && a == r + m * q && 0 <= r < m
    ensures a / m == q && a % m == r
  {
    ModIntro(a, r, q, m);
    ModSmall(r, m);
    assert m * (a / m) == m * q;
    MultipleBelow(m, a / m - q, 0);
  }

  // -------------------------------------------------------- schoolbook product

  /** Adding a digit product at column i + j extends row i of the product by one digit. */
  lemma ProductStep(s: seq<int>, a: int, y: seq<int>, d: int, i: nat, j: nat, b: int)
    requires i + j < |s| && j < |y| && d == a * y[j]
    ensures Eval(s[i + j := s[i + j] + d], b) - Eval(s, b)
         == a * Eval(y[..j + 1], b) * Pow(b, i) - a * Eval(y[..j], b) * Pow(b, i)
  {
    EvalIncrease(s, i + j, d, b);
    PowAdd(b, i, j);
    ProductAlgebra(a, y[j], Eval(y[..j], b), Pow(b, i), Pow(b, j));
    EvalSnoc(y, j, b);
  }

  lemma ProductAlgebra(a: int, y: int, e: int, p: int, q: int)
    ensures a * (e + y * q) * p - a * e * p == (a * y) * (p * q)
  {
    assert a * (e + y * q) * p == a * e * p + (a * (y * q)) * p;
    MulAssoc(a, y, q);
    MulAssoc(a * y, q, p);
  }

  /** A full row of digit products adds x[i] * y at weight b^i. */
  lemma ProductRow(x: seq<int>, y: seq<int>, i: nat, b: int)
    requires i < |x|
    ensures Eval(x[..i], b) * Eval(y, b) + x[i] * Eval(y, b) * Pow(b, i) == Eval(x[..i + 1], b) * Eval(y, b)
  {
    EvalSnoc(x, i, b);
    var e, d, w, f := Eval(x[..i], b), x[i], Pow(b, i), Eval(y, b);
    assert (e + d * w) * f == e * f + (d * w) * f;
    MulAssoc(d, w, f);
    MulAssoc(d, f, w);
  }
}
