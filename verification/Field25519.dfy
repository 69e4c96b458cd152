/** Arithmetic modulo 2^255 - 19 on sixteen signed 64-bit limbs of radix 2^16
    (curve25519.c). Every store and every named intermediate has type `i64`, so
    verification includes the absence of signed overflow. */
module Field25519 {
  import opened Arith
  import opened Digits

  const RADIX: int := 0x1_0000
  const P: int := 0x7fff_ffff_ffff_ffff_ffff_ffff_ffff_ffff_ffff_ffff_ffff_ffff_ffff_ffff_ffff_ffed

  /** The field element a limb sequence stands for. */
  function Elem(s: seq<int>): int
  {
    Eval(s, RADIX) % P
  }

  ghost predicate Within(s: seq<int>, bound: int)
  {
    forall k :: 0 <= k < |s| ==> -bound <= s[k] <= bound
  }

  /** What a multiplication leaves behind: [-38, 2^16 + 38) in limb 0, [0, 2^16) above. */
  ghost predicate Reduced(s: seq<int>)
  {
    |s| == 16 && -38 <= s[0] < RADIX + 38 && Normal(s[1..], RADIX)
  }

  lemma RadixPower()
    ensures Pow(RADIX, 16) == 2 * P + 38
  {
    PowAdd(RADIX, 1, 1);
    PowAdd(RADIX, 2, 2);
    PowAdd(RADIX, 4, 4);
    PowAdd(RADIX, 8, 8);
    assert Pow(RADIX, 1) == RADIX * Pow(RADIX, 0);
  }

  // -------------------------------------------------------------- carry pass

  /** The carry that ripples into limb i. */
  function CarryInto(s: seq<int>, i: nat): int
    requires i <= |s|
  {
    if i == 0 then 0 else (s[i - 1] + CarryInto(s, i - 1)) / RADIX
  }

  function Settled(s: seq<int>): (r: seq<int>)
  {
    seq(|s|, i requires 0 <= i < |s| => (s[i] + CarryInto(s, i)) % RADIX)
  }

  /** One pass of car25519: ripple the carries, fold the last one back times 38. */
  function CarryPass(s: seq<int>): (r: seq<int>)
    requires |s| == 16
  {
    Settled(s)[0 := Settled(s)[0] + 38 * CarryInto(s, 16)]
  }

  lemma {:induction false} SettledValue(s: seq<int>, n: nat)
    requires n <= |s|
    ensures Eval(Settled(s)[..n], RADIX) == Eval(s[..n], RADIX) - CarryInto(s, n) * Pow(RADIX, n)
  {
    if n > 0 {
      SettledValue(s, n - 1);
      EvalSnoc(s, n - 1, RADIX);
      EvalSnoc(Settled(s), n - 1, RADIX);
      var w := Pow(RADIX, n - 1);
      var d, c, c' := Settled(s)[n - 1], CarryInto(s, n - 1), CarryInto(s, n);
      assert d == s[n - 1] + c - RADIX * c';
      SettledAlgebra(s[n - 1], c, c', w);
    }
  }

  lemma SettledAlgebra(d: int, c: int, c': int, w: int)
    ensures (d + c - RADIX * c') * w == d * w + c * w - c' * (RADIX * w)
  {
    assert (RADIX * c') * w == c' * (RADIX * w);
  }

  /** A carry pass does not change the field element. */
  lemma CarryPassElem(s: seq<int>)
    requires |s| == 16
    ensures Elem(CarryPass(s)) == Elem(s)
  {
    var c := CarryInto(s, 16);
    SettledValue(s, 16);
    EvalFull(s, RADIX);
    EvalFull(Settled(s), RADIX);
    EvalUpdate(Settled(s), 0, Settled(s)[0] + 38 * c, RADIX);
    RadixPower();
    assert Eval(CarryPass(s), RADIX) == Eval(s, RADIX) - 2 * c * P;
    ModIntro(Eval(CarryPass(s), RADIX), Eval(s, RADIX), -2 * c, P);
  }

  lemma {:induction false} CarryBound(s: seq<int>, i: nat)
    requires i <= |s| && Within(s, 0x4000_0000_0000_0000)
    ensures -0x8000_0000_0000 <= CarryInto(s, i) <= 0x8000_0000_0000
  {
    if i > 0 { CarryBound(s, i - 1); }
  }

  /** Once the limbs above 0 are normal, a carry of one sign stays of that sign and below two. */
  lemma {:induction false} CarrySmall(s: seq<int>, i: nat, j: nat)
    requires 1 <= i <= j <= |s| == 16 && Normal(s[1..], RADIX)
    requires -1 <= CarryInto(s, i) <= 1
    ensures CarryInto(s, i) >= 0 ==> 0 <= CarryInto(s, j) <= 1
    ensures CarryInto(s, i) <= 0 ==> -1 <= CarryInto(s, j) <= 0
    decreases j
  {
    if i < j {
      CarrySmall(s, i, j - 1);
      assert s[j - 1] == s[1..][j - 2];
    }
  }

  lemma CarryPassUpper(s: seq<int>)
    requires |s| == 16
    ensures Normal(CarryPass(s)[1..], RADIX)
    ensures 38 * CarryInto(s, 16) <= CarryPass(s)[0] < RADIX + 38 * CarryInto(s, 16)
  {
    forall k | 0 <= k < 15 ensures 0 <= CarryPass(s)[1..][k] < RADIX {
      assert CarryPass(s)[1..][k] == Settled(s)[k + 1];
    }
  }

  lemma CarryPassFirst(s: seq<int>)
    requires |s| == 16 && Within(s, 0x4000_0000_0000_0000)
    ensures Normal(CarryPass(s)[1..], RADIX)
    ensures -0x20_0000_0000_0000 <= CarryPass(s)[0] <= 0x20_0000_0000_0000
  {
    CarryPassUpper(s);
    CarryBound(s, 16);
  }

  lemma CarryPassSecond(s: seq<int>)
    requires |s| == 16 && Normal(s[1..], RADIX)
    requires -0x20_0000_0000_0000 <= s[0] <= 0x20_0000_0000_0000
    ensures Reduced(CarryPass(s))
  {
    CarryPassUpper(s);
    assert s[1] == s[1..][0] && s[2] == s[1..][1] && s[3] == s[1..][2];
    assert -0x20_0000_0000 <= CarryInto(s, 1) <= 0x20_0000_0000;
    assert -0x20_0001 <= CarryInto(s, 2) <= 0x20_0001;
    assert -0x22 <= CarryInto(s, 3) <= 0x22;
    CarrySmall(s, 4, 16);
  }

  /** From a reduced state one more pass makes every limb normal. */
  lemma CarryPassThird(s: seq<int>)
    requires Reduced(s)
    ensures |CarryPass(s)| == 16 && Normal(CarryPass(s), RADIX)
  {
    CarryPassUpper(s);
    CarrySmall(s, 1, 16);
    var r := CarryPass(s);
    forall k | 0 <= k < 16 ensures 0 <= r[k] < RADIX {
      if k > 0 { assert r[k] == r[1..][k - 1]; }
    }
  }

  /** One limb: its carry goes into the next limb, or times 38 into the first. */
  method CarryLimb(o: array<i64>, i: nat, ghost s: seq<int>)
    requires o.Length == 16 && i < 16 && |s| == 16 && Within(s, 0x4000_0000_0000_0000)
    requires o[i] == s[i] + CarryInto(s, i) && (if i < 15 then o[i + 1] == s[i + 1] else o[0] == Settled(s)[0])
    modifies o
    ensures o[i] == Settled(s)[i]
    ensures if i < 15 then o[i + 1] == s[i + 1] + CarryInto(s, i + 1) else o[0] == Settled(s)[0] + 38 * CarryInto(s, 16)
    ensures forall k :: 0 <= k < 16 && k != i && k != (i + 1) % 16 ==> o[k] == old(o[k])
  {
    CarryBound(s, i);
    CarryBound(s, i + 1);
    o[i] := o[i] + 0x1_0000;
    var c: i64 := o[i] / 0x1_0000;
    assert c - 1 == CarryInto(s, i + 1);
    var next := if i < 15 then i + 1 else 0;
    var delta: i64 := c - 1 + (if i == 15 then 37 * (c - 1) else 0);
    o[next] := o[next] + delta;
    o[i] := o[i] - c * 0x1_0000;
  }

  method CarryLimbs(o: array<i64>, ghost s: seq<int>)
    requires o.Length == 16 && o[..] == s && Within(s, 0x4000_0000_0000_0000)
    modifies o
    ensures forall k :: 1 <= k < 16 ==> o[k] == Settled(s)[k]
    ensures o[0] == Settled(s)[0] + 38 * CarryInto(s, 16)
  {
    for i := 0 to 16
      invariant forall k :: 1 <= k < i ==> o[k] == Settled(s)[k]
      invariant 0 < i < 16 ==> o[0] == Settled(s)[0]
      invariant i < 16 ==> o[i] == s[i] + CarryInto(s, i)
      invariant forall k :: i < k < 16 ==> o[k] == s[k]
      invariant i == 16 ==> o[0] == Settled(s)[0] + 38 * CarryInto(s, 16)
    {
      CarryLimb(o, i, s);
    }
  }

  /** car25519 */
  method Car25519(o: array<i64>)
    requires o.Length == 16 && Within(o[..], 0x4000_0000_0000_0000)
    modifies o
    ensures o[..] == CarryPass(old(o[..]))
  {
    CarryLimbs(o, o[..]);
  }

  // ---------------------------------------------------------- multiplication

  lemma MulWithin(a: int, b: int, m: int)
    requires -m <= a <= m && -m <= b <= m
    ensures -(m * m) <= a * b <= m * m
  {
    var x, y := if a < 0 then -a else a, if b < 0 then -b else b;
    MulMonotone(x, m, y);
    MulMonotone(y, m, m);
    assert a * b == x * y || a * b == -(x * y);
  }

  /** One row of the double loop: column i + j gains a[i] * b[j]. */
  method AddRow(t: array<i64>, x: i64, b: array<i64>, i: int, ghost m: int)
    requires t.Length == 31 && b.Length == 16 && 0 <= i < 16 && t != b && m == 0x10_0000_0000_0000
    requires -0x400_0000 <= x <= 0x400_0000 && Within(b[..], 0x400_0000)
    requires forall k :: 0 <= k < 31 ==> -i * m <= t[k] <= i * m
    modifies t
    ensures Eval(t[..], RADIX) == old(Eval(t[..], RADIX)) + x * Eval(b[..], RADIX) * Pow(RADIX, i)
    ensures forall k :: 0 <= k < 31 ==> -(i + 1) * m <= t[k] <= (i + 1) * m
  {
    for j := 0 to 16
      invariant Eval(t[..], RADIX) == old(Eval(t[..], RADIX)) + x * Eval(b[..j], RADIX) * Pow(RADIX, i)
      invariant forall k :: 0 <= k < 31 ==> -(i + 1) * m <= t[k] <= (i + 1) * m
      invariant forall k :: i + j <= k < 31 ==> -i * m <= t[k] <= i * m
    {
      MulWithin(x, b[j], 0x400_0000);
      var product: i64 := x * b[j];
      assert b[..][..j] == b[..j] && b[..][..j + 1] == b[..j + 1];
      ProductStep(t[..], x, b[..], product, i, j, RADIX);
      ghost var s: seq<int> := t[..];
      t[i + j] := t[i + j] + product;
      assert t[..] == s[i + j := s[i + j] + product];
    }
    assert b[..16] == b[..];
  }

  /** The schoolbook product of M: 31 columns, exact, each at most 2^56 in magnitude. */
  method Columns(a: array<i64>, b: array<i64>) returns (t: array<i64>)
    requires a.Length == b.Length == 16
    requires Within(a[..], 0x400_0000) && Within(b[..], 0x400_0000)
    ensures fresh(t) && t.Length == 31
    ensures Eval(t[..], RADIX) == Eval(a[..], RADIX) * Eval(b[..], RADIX)
    ensures Within(t[..], 0x100_0000_0000_0000)
  {
    t := new i64[31](_ => 0);
    EvalZero(t[..], RADIX);
    ghost var m := 0x10_0000_0000_0000;
    for i := 0 to 16
      invariant fresh(t) && Eval(t[..], RADIX) == Eval(a[..i], RADIX) * Eval(b[..], RADIX)
      invariant forall k :: 0 <= k < 31 ==> -i * m <= t[k] <= i * m
    {
      AddRow(t, a[i], b, i, m);
      ProductRow(a[..], b[..], i, RADIX);
      assert a[..][..i] == a[..i] && a[..][..i + 1] == a[..i + 1];
    }
    assert a[..16] == a[..];
  }

  lemma FoldElem(t: seq<int>, r: seq<int>)
    requires |t| == 31 && |r| == 16
    requires r[15] == t[15] && forall k :: 0 <= k < 15 ==> r[k] == t[k] + 38 * t[k + 16]
    ensures Elem(r) == Elem(t)
  {
    var hi := t[16..];
    var scaled := seq(16, k requires 0 <= k < 16 => if k < 15 then 38 * hi[k] else 0);
    forall k | 0 <= k < 16 ensures r[k] == t[..16][k] + scaled[k] {
      assert t[..16][k] == t[k];
      if k < 15 { assert hi[k] == t[k + 16]; }
    }
    EvalAdd(r, t[..16], scaled, RADIX);
    EvalScale(scaled[..15], hi, 38, RADIX);
    EvalSnoc(scaled, 15, RADIX);
    EvalFull(scaled, RADIX);
    EvalSplit(t, 16, RADIX);
    RadixPower();
    var e := Eval(hi, RADIX);
    assert (2 * P + 38) * e == 2 * e * P + 38 * e;
    ModIntro(Eval(t, RADIX), Eval(r, RADIX), 2 * e, P);
  }

  lemma ElemProduct(a: seq<int>, b: seq<int>, t: seq<int>)
    requires Eval(t, RADIX) == Eval(a, RADIX) * Eval(b, RADIX)
    ensures Elem(t) == (Elem(a) * Elem(b)) % P
  {
    ModMod(Eval(a, RADIX), P);
    ModMod(Eval(b, RADIX), P);
    ModMul(Eval(a, RADIX), Elem(a), Eval(b, RADIX), Elem(b), P);
  }

  /** Fold the upper columns into the lower ones times 38, since 2^256 = 38 modulo P. */
  method FoldColumns(t: array<i64>)
    requires t.Length == 31 && Within(t[..], 0x100_0000_0000_0000)
    modifies t
    ensures Elem(t[..16]) == old(Elem(t[..])) && Within(t[..16], 0x4000_0000_0000_0000)
  {
    ghost var columns: seq<int> := t[..];
    ghost var bound := 0x100_0000_0000_0000;
    assert forall k :: 0 <= k < 31 ==> -bound <= columns[k] <= bound;
    for i := 0 to 15
      invariant forall k :: 0 <= k < i ==> t[k] == columns[k] + 38 * columns[k + 16]
      invariant forall k :: i <= k < 31 ==> t[k] == columns[k]
    {
      assert -bound <= columns[i + 16] <= bound;
      var folded: i64 := 38 * t[i + 16];
      t[i] := t[i] + folded;
    }
    forall k | 0 <= k < 16 ensures -0x4000_0000_0000_0000 <= t[k] <= 0x4000_0000_0000_0000 {
      if k < 15 { assert -bound <= columns[k + 16] <= bound; }
    }
    FoldElem(columns, t[..16]);
  }

  method Copy(o: array<i64>, t: array<i64>)
    requires o.Length == 16 <= t.Length && o != t
    modifies o
    ensures o[..] == t[..16]
  {
    for i := 0 to 16
      invariant forall k :: 0 <= k < i ==> o[k] == t[k]
    {
      o[i] := t[i];
    }
  }

  method CarryTwice(o: array<i64>)
    requires o.Length == 16 && Within(o[..], 0x4000_0000_0000_0000)
    modifies o
    ensures Elem(o[..]) == old(Elem(o[..])) && Reduced(o[..])
  {
    ghost var r: seq<int> := o[..];
    CarryPassFirst(r);
    CarryPassElem(r);
    Car25519(o);
    FirstWithin(o[..]);
    CarryPassSecond(CarryPass(r));
    CarryPassElem(CarryPass(r));
    Car25519(o);
  }

  lemma FirstWithin(s: seq<int>)
    requires |s| == 16 && Normal(s[1..], RADIX)
    requires -0x20_0000_0000_0000 <= s[0] <= 0x20_0000_0000_0000
    ensures Within(s, 0x4000_0000_0000_0000)
  {
    forall k | 1 <= k < 16 ensures 0 <= s[k] < RADIX { assert s[k] == s[1..][k - 1]; }
  }

  lemma ReducedWithin(s: seq<int>)
    requires Reduced(s)
    ensures Within(s, 0x1_0026)
  {
    forall k | 1 <= k < 16 ensures 0 <= s[k] < RADIX { assert s[k] == s[1..][k - 1]; }
  }

  /** M: the product modulo P; `o` may be `a` or `b` or both. */
  method M(o: array<i64>, a: array<i64>, b: array<i64>)
    requires o.Length == a.Length == b.Length == 16
    requires Within(a[..], 0x400_0000) && Within(b[..], 0x400_0000)
    modifies o
    ensures Elem(o[..]) == (old(Elem(a[..])) * old(Elem(b[..]))) % P
    ensures Reduced(o[..])
  {
    var t := Columns(a, b);
    ElemProduct(a[..], b[..], t[..]);
    FoldColumns(t);
    Copy(o, t);
    CarryTwice(o);
  }

  /** S */
  method S(o: array<i64>, a: array<i64>)
    requires o.Length == a.Length == 16 && Within(a[..], 0x400_0000)
    modifies o
    ensures Elem(o[..]) == (old(Elem(a[..])) * old(Elem(a[..]))) % P
    ensures Reduced(o[..])
  {
    M(o, a, a);
  }

  // -------------------------------------------------- addition and selection

  lemma ElemSum(r: seq<int>, s: seq<int>, t: seq<int>)
    requires |r| == |s| == |t| && forall k :: 0 <= k < |r| ==> r[k] == s[k] + t[k]
    ensures Elem(r) == (Elem(s) + Elem(t)) % P
  {
    EvalAdd(r, s, t, RADIX);
    ModAdd(Eval(s, RADIX), Elem(s), Eval(t, RADIX), Elem(t), P);
  }

  lemma ElemDifference(r: seq<int>, s: seq<int>, t: seq<int>)
    requires |r| == |s| == |t| && forall k :: 0 <= k < |r| ==> r[k] == s[k] - t[k]
    ensures Elem(r) == (Elem(s) - Elem(t)) % P
  {
    EvalAdd(s, r, t, RADIX);
    ModSub(Eval(s, RADIX), Elem(s), Eval(t, RADIX), Elem(t), P);
  }

  /** A: limbwise sum, no carrying; `o` may alias the operands. */
  method A(o: array<i64>, a: array<i64>, b: array<i64>)
    requires o.Length == a.Length == b.Length == 16
    requires Within(a[..], 0x3fff_ffff_ffff_ffff) && Within(b[..], 0x3fff_ffff_ffff_ffff)
    modifies o
    ensures forall k :: 0 <= k < 16 ==> o[k] == old(a[k]) + old(b[k])
    ensures Elem(o[..]) == (old(Elem(a[..])) + old(Elem(b[..]))) % P
  {
    for i := 0 to 16
      invariant forall k :: 0 <= k < i ==> o[k] == old(a[k]) + old(b[k])
      invariant forall k :: i <= k < 16 ==> a[k] == old(a[k]) && b[k] == old(b[k])
    {
      assert a[i] == old(a[..])[i] && b[i] == old(b[..])[i];
      o[i] := a[i] + b[i];
    }
    ElemSum(o[..], old(a[..]), old(b[..]));
  }

  /** Z: limbwise difference. */
  method Z(o: array<i64>, a: array<i64>, b: array<i64>)
    requires o.Length == a.Length == b.Length == 16
    requires Within(a[..], 0x3fff_ffff_ffff_ffff) && Within(b[..], 0x3fff_ffff_ffff_ffff)
    modifies o
    ensures forall k :: 0 <= k < 16 ==> o[k] == old(a[k]) - old(b[k])
    ensures Elem(o[..]) == (old(Elem(a[..])) - old(Elem(b[..]))) % P
  {
    for i := 0 to 16
      invariant forall k :: 0 <= k < i ==> o[k] == old(a[k]) - old(b[k])
      invariant forall k :: i <= k < 16 ==> a[k] == old(a[k]) && b[k] == old(b[k])
    {
      assert a[i] == old(a[..])[i] && b[i] == old(b[..])[i];
      o[i] := a[i] - b[i];
    }
    ElemDifference(o[..], old(a[..]), old(b[..]));
  }

  /** The mask arithmetic of sel25519 on one word of each array: c is all ones when b is 1 and zero when
      b is 0, so that the two words change places or stay. */
  method SwapWord(p: bv64, q: bv64, b: bv64) returns (p': bv64, q': bv64)
    requires b == 0 || b == 1
    ensures p' == (if b == 1 then q else p) && q' == (if b == 1 then p else q)
  {
    var c := !(b - 1);
    var t := c & (p ^ q);
    p', q' := p ^ t, q ^ t;
  }

  /** sel25519 on machine words. */
  method SelWords(p: array<bv64>, q: array<bv64>, b: bv64)
    requires p.Length == q.Length == 16 && p != q && (b == 0 || b == 1)
    modifies p, q
    ensures p[..] == old(if b == 1 then q[..] else p[..])
    ensures q[..] == old(if b == 1 then p[..] else q[..])
  {
    for i := 0 to 16
      invariant forall k :: 0 <= k < i ==> p[k] == old(if b == 1 then q[k] else p[k])
      invariant forall k :: 0 <= k < i ==> q[k] == old(if b == 1 then p[k] else q[k])
      invariant forall k :: i <= k < 16 ==> p[k] == old(p[k]) && q[k] == old(q[k])
    {
      var x, y := SwapWord(p[i], q[i], b);
      p[i], q[i] := x, y;
    }
  }

  /** sel25519 on the numbers: exchange the two arrays exactly when b is 1. */
  method Sel25519(p: array<i64>, q: array<i64>, b: int)
    requires p.Length == q.Length == 16 && p != q && 0 <= b <= 1
    modifies p, q
    ensures p[..] == old(if b == 1 then q[..] else p[..])
    ensures q[..] == old(if b == 1 then p[..] else q[..])
  {
    for i := 0 to 16
      invariant forall k :: 0 <= k < i ==> p[k] == old(if b == 1 then q[k] else p[k])
      invariant forall k :: 0 <= k < i ==> q[k] == old(if b == 1 then p[k] else q[k])
      invariant forall k :: i <= k < 16 ==> p[k] == old(p[k]) && q[k] == old(q[k])
    {
      if b == 1 { p[i], q[i] := q[i], p[i]; }
    }
  }

  // ----------------------------------------------------------------- packing

  lemma {:induction false} AllOnes(s: seq<int>, b: int)
    requires forall k :: 0 <= k < |s| ==> s[k] == b - 1
    ensures Eval(s, b) == Pow(b, |s|) - 1
  {
    if |s| > 0 { AllOnes(s[..|s| - 1], b); }
  }

  /** The limbs pack25519 subtracts are those of P. */
  lemma PrimeLimbs() returns (p: seq<int>)
    ensures |p| == 16 && p[0] == 0xffed && p[15] == 0x7fff && forall k :: 1 <= k < 15 ==> p[k] == 0xffff
    ensures Eval(p, RADIX) == P
  {
    var ones := seq(16, _ => 0xffff);
    AllOnes(ones, RADIX);
    p := ones[0 := 0xffed];
    EvalUpdate(ones, 0, 0xffed, RADIX);
    EvalUpdate(p, 15, 0x7fff, RADIX);
    p := p[15 := 0x7fff];
    RadixPower();
  }

  lemma BorrowStep(m: seq<int>, m': seq<int>, t: seq<int>, p: seq<int>, i: nat, borrow: int)
    requires 1 <= i < |m| == |m'| == |t| == |p|
    requires m' == m[i := t[i] - p[i] - borrow][i - 1 := m[i - 1] + borrow * RADIX]
    requires Eval(m[..i], RADIX) == Eval(t[..i], RADIX) - Eval(p[..i], RADIX)
    ensures Eval(m'[..i + 1], RADIX) == Eval(t[..i + 1], RADIX) - Eval(p[..i + 1], RADIX)
  {
    EvalSnoc(m', i, RADIX);
    EvalSnoc(t, i, RADIX);
    EvalSnoc(p, i, RADIX);
    assert m'[..i] == m[..i][i - 1 := m[..i][i - 1] + borrow * RADIX];
    EvalIncrease(m[..i], i - 1, borrow * RADIX, RADIX);
    MulAssoc(borrow, RADIX, Pow(RADIX, i - 1));
    BorrowAlgebra(t[i], p[i], borrow, Pow(RADIX, i));
  }

  lemma BorrowAlgebra(t: int, p: int, c: int, w: int)
    ensures (t - p - c) * w == t * w - p * w - c * w
  {}

  /** With the lower limbs normal, the sign of the number is the sign of its top limb. */
  lemma TopLimbSign(m: seq<int>)
    requires |m| == 16 && Normal(m[..15], RADIX)
    ensures Eval(m, RADIX) < 0 <==> m[15] < 0
  {
    EvalNormal(m[..15], RADIX);
    var w := Pow(RADIX, 15);
    if m[15] < 0 { MulMonotone(m[15], -1, w); } else { MulMonotone(0, m[15], w); }
  }

  /** One limb of the trial subtraction; the borrow of limb i - 1 is read off its sign bit. */
  method SubtractLimb(m: array<i64>, t: array<i64>, i: nat, limb: i64, ghost p: seq<int>)
    requires 1 <= i < 16 == m.Length == t.Length == |p| && m != t && p[i] == limb && 0 <= limb < 0x1_0000
    requires -0x1_0000 <= m[i - 1] < 0x1_0000 && 0 <= t[i] < 0x1_0000
    requires Eval(m[..][..i], RADIX) == Eval(t[..][..i], RADIX) - Eval(p[..i], RADIX)
    modifies m
    ensures 0 <= m[i - 1] < 0x1_0000 && -limb - 1 <= m[i] <= t[i] - limb
    ensures forall k :: 0 <= k < i - 1 ==> m[k] == old(m[k])
    ensures Eval(m[..][..i + 1], RADIX) == Eval(t[..][..i + 1], RADIX) - Eval(p[..i + 1], RADIX)
  {
    ghost var was: seq<int> := m[..];
    m[i] := t[i] - limb - (m[i - 1] / 0x1_0000) % 2;
    m[i - 1] := m[i - 1] % 0x1_0000;
    BorrowStep(was, m[..], t[..], p, i, -(was[i - 1] / RADIX));
  }

  /** The trial subtraction of pack25519, with borrows; the top limb of m stays signed. */
  method BorrowChain(m: array<i64>, t: array<i64>, ghost p: seq<int>)
    requires m.Length == t.Length == 16 && m != t && forall k :: 0 <= k < 16 ==> 0 <= t[k] < 0x1_0000
    requires |p| == 16 && p[0] == 0xffed && p[15] == 0x7fff && forall k :: 1 <= k < 15 ==> p[k] == 0xffff
    modifies m
    ensures -0x8000 <= m[15] < 0x1_0000 && forall k :: 0 <= k < 15 ==> 0 <= m[k] < 0x1_0000
    ensures Eval(m[..][..16], RADIX) == Eval(t[..][..16], RADIX) - Eval(p[..16], RADIX)
  {
    m[0] := t[0] - 0xffed;
    EvalFirst(m[..], RADIX);
    EvalFirst(t[..], RADIX);
    EvalFirst(p, RADIX);
    for i := 1 to 15
      invariant -0x1_0000 <= m[i - 1] < 0x1_0000 && forall k :: 0 <= k < i - 1 ==> 0 <= m[k] < 0x1_0000
      invariant Eval(m[..][..i], RADIX) == Eval(t[..][..i], RADIX) - Eval(p[..i], RADIX)
    {
      SubtractLimb(m, t, i, 0xffff, p);
    }
    SubtractLimb(m, t, 15, 0x7fff, p);
  }

  /** m = t - P, with b telling whether the difference is negative. */
  method SubtractPrime(m: array<i64>, t: array<i64>) returns (b: int)
    requires m.Length == t.Length == 16 && m != t && Normal(t[..], RADIX)
    modifies m
    ensures Eval(m[..], RADIX) == Eval(t[..], RADIX) - P
    ensures b == (if Eval(t[..], RADIX) < P then 1 else 0)
    ensures b == 0 ==> Normal(m[..], RADIX)
  {
    ghost var p := PrimeLimbs();
    assert forall k :: 0 <= k < 16 ==> 0 <= t[k] < 0x1_0000 by { assert Normal(t[..], RADIX); }
    BorrowChain(m, t, p);
    b := (m[15] / 0x1_0000) % 2;
    SignBit(m[15]);
    DifferenceSign(m[..], t[..], p);
  }

  lemma SignBit(x: int)
    requires -0x1_0000 <= x < 0x1_0000
    ensures (x / 0x1_0000) % 2 == (if x < 0 then 1 else 0)
  {}

  lemma DifferenceSign(m: seq<int>, t: seq<int>, p: seq<int>)
    requires |m| == |t| == |p| == 16 && Eval(p, RADIX) == P
    requires forall k :: 0 <= k < 15 ==> 0 <= m[k] < RADIX
    requires Eval(m[..16], RADIX) == Eval(t[..16], RADIX) - Eval(p[..16], RADIX)
    ensures Eval(m, RADIX) == Eval(t, RADIX) - P
    ensures Eval(t, RADIX) < P <==> m[15] < 0
  {
    EvalFull(m, RADIX);
    EvalFull(t, RADIX);
    EvalFull(p, RADIX);
    TopLimbSign(m);
  }

  /** Keep the difference when it is not negative. */
  method ReduceOnce(t: array<i64>, m: array<i64>)
    requires m.Length == t.Length == 16 && m != t && Normal(t[..], RADIX)
    modifies m, t
    ensures Normal(t[..], RADIX)
    ensures Eval(t[..], RADIX) == old(var v := Eval(t[..], RADIX); if v < P then v else v - P)
  {
    var b := SubtractPrime(m, t);
    Sel25519(t, m, 1 - b);
  }

  lemma {:induction false} BytesOfLimbs(o: seq<int>, t: seq<int>, n: nat)
    requires |o| == 2 * |t| && n <= |t|
    requires forall k :: 0 <= k < |t| ==> t[k] == o[2 * k] + 0x100 * o[2 * k + 1]
    ensures Pow(0x100, 2 * n) == Pow(RADIX, n)
    ensures Eval(o[..2 * n], 0x100) == Eval(t[..n], RADIX)
  {
    if n > 0 {
      BytesOfLimbs(o, t, n - 1);
      EvalSnoc(o, 2 * n - 2, 0x100);
      EvalSnoc(o, 2 * n - 1, 0x100);
      EvalSnoc(t, n - 1, RADIX);
      var w := Pow(RADIX, n - 1);
      assert Pow(0x100, 2 * n - 1) == 0x100 * w;
      assert Pow(0x100, 2 * n) == 0x100 * Pow(0x100, 2 * n - 1);
      BytePairAlgebra(o[2 * n - 2], o[2 * n - 1], w);
    }
  }

  lemma BytePairAlgebra(lo: int, hi: int, w: int)
    ensures (lo + 0x100 * hi) * w == lo * w + hi * (0x100 * w)
  {}

  /** Three carry passes from any 2^62-bounded state settle every limb. */
  method CarryThrice(t: array<i64>)
    requires t.Length == 16 && Within(t[..], 0x4000_0000_0000_0000)
    modifies t
    ensures Normal(t[..], RADIX) && Elem(t[..]) == old(Elem(t[..]))
  {
    CarryTwice(t);
    ghost var r: seq<int> := t[..];
    ReducedWithin(r);
    CarryPassThird(r);
    CarryPassElem(r);
    Car25519(t);
  }

  /** Two conditional subtractions bring any 256-bit number below P. */
  lemma TwoReductions(v: int, v1: int, v2: int)
    requires 0 <= v < 2 * P + 38
    requires v1 == (if v < P then v else v - P) && v2 == (if v1 < P then v1 else v1 - P)
    ensures v2 == v % P
  {}

  /** pack25519: the canonical little-endian encoding of the field element. */
  method Pack25519(o: array<u8>, n: array<i64>)
    requires o.Length == 32 && n.Length == 16 && Within(n[..], 0x4000_0000_0000_0000)
    modifies o
    ensures Eval(o[..], 0x100) == Elem(n[..])
  {
    var m, t := new i64[16], new i64[16];
    Copy(t, n);
    assert t[..] == n[..];
    CarryThrice(t);
    EvalNormal(t[..], RADIX);
    RadixPower();
    ghost var v := Eval(t[..], RADIX);
    ReduceOnce(t, m);
    ghost var v1 := Eval(t[..], RADIX);
    ReduceOnce(t, m);
    TwoReductions(v, v1, Eval(t[..], RADIX));
    LimbsToBytes(o, t);
  }

  method LimbsToBytes(o: array<u8>, t: array<i64>)
    requires o.Length == 32 && t.Length == 16 && Normal(t[..], RADIX)
    modifies o
    ensures Eval(o[..], 0x100) == Eval(t[..], RADIX)
  {
    ghost var s: seq<int> := t[..];
    for i := 0 to 16
      invariant forall k :: 0 <= k < i ==> s[k] == o[2 * k] as int + 0x100 * o[2 * k + 1] as int
    {
      assert 0 <= s[i] < RADIX;
      o[2 * i] := t[i] % 0x100;
      o[2 * i + 1] := t[i] / 0x100;
    }
    BytesOfLimbs(o[..], s, 16);
    EvalFull(o[..], 0x100);
    EvalFull(s, RADIX);
  }

  const TWO255: int := P + 19

  lemma MaskTop(s: seq<int>)
    requires |s| == 16 && Normal(s, RADIX)
    ensures Eval(s[15 := s[15] % 0x8000], RADIX) == Eval(s, RADIX) % TWO255
  {
    var o := s[15 := s[15] % 0x8000];
    var q, w := s[15] / 0x8000, Pow(RADIX, 15);
    RadixPower();
    assert RADIX * w == 2 * TWO255;
    EvalUpdate(s, 15, o[15], RADIX);
    assert o[15] - s[15] == -0x8000 * q;
    assert (o[15] - s[15]) * w == -q * TWO255;
    assert 0 <= Eval(o, RADIX) < TWO255 by {
      EvalNormal(o[..15], RADIX);
      MulMonotone(0, o[15], w);
      MulMonotone(o[15], 0x7fff, w);
    }
    ModIntro(Eval(s, RADIX), Eval(o, RADIX), q, TWO255);
    ModSmall(Eval(o, RADIX), TWO255);
  }

  /** unpack25519: the little-endian number with bit 255 ignored. */
  method Unpack25519(o: array<i64>, n: array<u8>)
    requires o.Length == 16 && n.Length == 32
    modifies o
    ensures Normal(o[..], RADIX) && Eval(o[..], RADIX) == Eval(n[..], 0x100) % TWO255
  {
    ghost var bytes: seq<int> := n[..];
    for i := 0 to 16
      invariant forall k :: 0 <= k < i ==> o[k] == bytes[2 * k] + 0x100 * bytes[2 * k + 1]
    {
      var hi: i64 := n[2 * i + 1] as int * 0x100;
      o[i] := n[2 * i] + hi;
    }
    ghost var s: seq<int> := o[..];
    BytesOfLimbs(bytes, s, 16);
    EvalFull(bytes, 0x100);
    EvalFull(s, RADIX);
    assert forall k :: 0 <= k < 32 ==> 0 <= bytes[k] < 0x100;
    assert Normal(s, RADIX);
    MaskTop(s);
    o[15] := o[15] % 0x8000;
    assert o[..] == s[15 := s[15] % 0x8000];
  }

  /** Unpacking a packed element gives the element back. */
  method PackThenUnpack(n: array<i64>) returns (r: array<i64>)
    requires n.Length == 16 && Within(n[..], 0x4000_0000_0000_0000)
    ensures r.Length == 16 && Normal(r[..], RADIX) && Eval(r[..], RADIX) == Elem(n[..])
  {
    var o := new u8[32];
    Pack25519(o, n);
    r := new i64[16];
    Unpack25519(r, o);
  }

  lemma Accumulate(d: bv64, x: bv64, y: bv64)
    requires d < 0x100 && x < 0x100 && y < 0x100
    ensures (d | (x ^ y)) < 0x100 && ((d | (x ^ y)) == 0 <==> d == 0 && x == y)
  {}

  lemma ToMask(d: bv64)
    requires d < 0x100
    ensures (1 & ((d - 1) >> 8)) - 1 == if d == 0 then 0 else 0xffff_ffff_ffff_ffff
  {}

  /** vn on machine words, with its closing bit expression: 0 when the strings agree, all ones (-1)
      otherwise. */
  method VerifyWords(x: array<bv64>, y: array<bv64>) returns (r: bv64)
    requires x.Length == y.Length == 32
    requires forall k :: 0 <= k < 32 ==> x[k] < 0x100 && y[k] < 0x100
    ensures r == if x[..] == y[..] then 0 else 0xffff_ffff_ffff_ffff
  {
    var d: bv64 := 0;
    for i := 0 to 32
      invariant d < 0x100 && (d == 0 <==> x[..i] == y[..i])
    {
      assert x[..i + 1] == x[..i] + [x[i]] && y[..i + 1] == y[..i] + [y[i]];
      Accumulate(d, x[i], y[i]);
      d := d | (x[i] ^ y[i]);
    }
    assert x[..32] == x[..] && y[..32] == y[..];
    ToMask(d);
    r := (1 & ((d - 1) >> 8)) - 1;
  }

  /** crypto_verify_32 on the numbers: 0 when the byte strings agree, -1 otherwise. */
  method Verify32(x: array<u8>, y: array<u8>) returns (r: int)
    requires x.Length == y.Length == 32
    ensures r == (if x[..] == y[..] then 0 else -1)
  {
    var differ := false;
    for i := 0 to 32
      invariant differ <==> x[..i] != y[..i]
    {
      assert x[..i + 1] == x[..i] + [x[i]] && y[..i + 1] == y[..i] + [y[i]];
      if x[i] != y[i] { differ := true; }
    }
    assert x[..32] == x[..] && y[..32] == y[..];
    r := if differ then -1 else 0;
  }

  /** neq25519 decides inequality of field elements. */
  method Neq25519(a: array<i64>, b: array<i64>) returns (r: int)
    requires a.Length == b.Length == 16
    requires Within(a[..], 0x4000_0000_0000_0000) && Within(b[..], 0x4000_0000_0000_0000)
    ensures r == 0 <==> Elem(a[..]) == Elem(b[..])
  {
    var c, d := new u8[32], new u8[32];
    Pack25519(c, a);
    Pack25519(d, b);
    r := Verify32(c, d);
    if Elem(a[..]) == Elem(b[..]) { EvalInjective(c[..], d[..], 0x100); }
  }

  // --------------------------------------------------------- exponentiation

  /** The exponent a left-to-right square-and-multiply loop has reached at index a, having
      started from 1 at index `top` and multiplied at every index outside `skip`. */
  function Chain(a: nat, top: nat, skip: set<nat>): nat
    decreases top - a
  {
    if a >= top then 1 else 2 * Chain(a + 1, top, skip) + (if a in skip then 0 else 1)
  }

  lemma {:induction false} ChainRun(a: nat, top: nat, skip: set<nat>)
    requires a <= top && forall k :: a <= k < top ==> k !in skip
    ensures Chain(a, top, skip) == Pow(2, top - a + 1) - 1
    decreases top - a
  {
    if a < top {
      ChainRun(a + 1, top, skip);
    } else {
      assert Pow(2, 1) == 2;
    }
  }

  lemma TwoPower255()
    ensures Pow(2, 255) == TWO255 && Pow(2, 252) * 8 == TWO255
  {
    PowMul(2, 16, 15);
    PowAdd(2, 240, 15);
    assert Pow(2, 16) == RADIX && Pow(2, 15) == 0x8000;
    RadixPower();
    PowAdd(2, 252, 3);
    assert Pow(2, 3) == 8;
  }

  /** Skipping indices 2 and 4 below 254 gives the Fermat exponent. */
  lemma InverseExponent(top: nat, skip: set<nat>)
    requires top == 254 && skip == {2, 4}
    ensures Chain(0, top, skip) == P - 2
  {
    ChainRun(5, top, skip);
    PowAdd(2, 250, 5);
    TwoPower255();
    assert 32 * (Chain(5, top, skip) + 1) == TWO255;
    assert Chain(3, top, skip) == 2 * Chain(4, top, skip) + 1;
    assert Chain(1, top, skip) == 2 * Chain(2, top, skip) + 1;
  }

  /** Skipping index 1 below 251 gives (P - 5) / 8. */
  lemma RootExponent(top: nat, skip: set<nat>)
    requires top == 251 && skip == {1}
    ensures Chain(0, top, skip) == (P - 5) / 8
  {
    ChainRun(2, top, skip);
    PowAdd(2, 250, 2);
    TwoPower255();
    assert 4 * (Chain(2, top, skip) + 1) == Pow(2, 252);
    assert Chain(0, top, skip) == 2 * Chain(1, top, skip) + 1;
  }

  lemma SquareThenMultiply(x: int, e: nat, v: int, sq: int, m: int)
    requires m > 0 && v == Pow(x, e) % m && sq == (v * v) % m
    ensures sq == Pow(x, 2 * e) % m
    ensures (sq * x) % m == Pow(x, 2 * e + 1) % m
  {
    ModMod(Pow(x, e), m);
    ModMul(v, Pow(x, e), v, Pow(x, e), m);
    PowAdd(x, e, e);
    ModMod(v * v, m);
    ModMul(sq, Pow(x, 2 * e), x, x, m);
  }

  /** One round of the loops: square, and multiply by x unless this index is skipped. */
  method ChainStep(c: array<i64>, i: array<i64>, multiply: bool, ghost e: nat)
    requires c.Length == i.Length == 16 && c != i && Within(c[..], 0x400_0000) && Within(i[..], 0x400_0000)
    requires Elem(c[..]) == Pow(Elem(i[..]), e) % P
    modifies c
    ensures Elem(c[..]) == Pow(Elem(i[..]), 2 * e + (if multiply then 1 else 0)) % P
    ensures Within(c[..], 0x400_0000)
  {
    ghost var v := Elem(c[..]);
    S(c, c);
    ReducedWithin(c[..]);
    SquareThenMultiply(Elem(i[..]), e, v, Elem(c[..]), P);
    if multiply {
      M(c, c, i);
      ReducedWithin(c[..]);
    }
  }

  method ChainStart(i: array<i64>) returns (c: array<i64>)
    requires i.Length == 16 && Within(i[..], 0x400_0000)
    ensures fresh(c) && c.Length == 16 && Within(c[..], 0x400_0000) && Elem(c[..]) == Pow(Elem(i[..]), 1) % P
  {
    c := new i64[16];
    Copy(c, i);
    assert c[..] == i[..];
    assert Pow(Elem(i[..]), 1) == Elem(i[..]);
    ModMod(Eval(i[..], RADIX), P);
  }

  /** The loop of both chains: square from position `top` - 1 down to 0, and multiply except at `skip`. */
  method PowerChain(o: array<i64>, i: array<i64>, top: nat, skip: set<nat>)
    requires o.Length == i.Length == 16 && Within(i[..], 0x400_0000)
    modifies o
    ensures Elem(o[..]) == Pow(old(Elem(i[..])), Chain(0, top, skip)) % P && Within(o[..], 0x400_0000)
  {
    var c := ChainStart(i);
    ghost var x := Elem(i[..]);
    for a := top downto 0
      invariant fresh(c) && Within(c[..], 0x400_0000) && i[..] == old(i[..])
      invariant Elem(c[..]) == Pow(x, Chain(a, top, skip)) % P
      modifies c
    {
      ChainStep(c, i, a !in skip, Chain(a + 1, top, skip));
    }
    Copy(o, c);
    assert c[..16] == c[..];
  }

  /** inv25519: the Fermat inverse x^(P-2); `o` may be `i`. */
  method Inv25519(o: array<i64>, i: array<i64>)
    requires o.Length == i.Length == 16 && Within(i[..], 0x400_0000)
    modifies o
    ensures Elem(o[..]) == Pow(old(Elem(i[..])), P - 2) % P && Within(o[..], 0x400_0000)
  {
    var top, skip: set<nat> := 254, {2, 4};
    PowerChain(o, i, top, skip);
    InverseExponent(top, skip);
  }

  /** pow2523: x^((P-5)/8), the core of the square root. */
  method Pow2523(o: array<i64>, i: array<i64>)
    requires o.Length == i.Length == 16 && Within(i[..], 0x400_0000)
    modifies o
    ensures Elem(o[..]) == Pow(old(Elem(i[..])), (P - 5) / 8) % P && Within(o[..], 0x400_0000)
  {
    var top, skip: set<nat> := 251, {1};
    PowerChain(o, i, top, skip);
    RootExponent(top, skip);
  }
}
