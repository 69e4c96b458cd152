/** dropbear_curve25519_scalarmult (curve25519.c) refines the X25519 function of
    section 5 of RFC 7748. */
module X25519 {
  import opened Arith
  import opened Digits
  import opened Field25519

  // ------------------------------------------------ section 5 of RFC 7748

  const A24: int := 121665

  /** Two projective points (x2 : z2) and (x3 : z3) with coordinates in [0, P). */
  datatype Pair = Pair(x2: int, z2: int, x3: int, z3: int)
  {
    function Swapped(swap: bool): Pair
    {
      if swap then Pair(x3, z3, x2, z2) else this
    }
  }

  /** One differential addition and doubling, as the RFC writes it. */
  function Step(x1: int, s: Pair): Pair
  {
    var a := (s.x2 + s.z2) % P;
    var aa := (a * a) % P;
    var b := (s.x2 - s.z2) % P;
    var bb := (b * b) % P;
    var e := (aa - bb) % P;
    var c := (s.x3 + s.z3) % P;
    var d := (s.x3 - s.z3) % P;
    var da := (d * a) % P;
    var cb := (c * b) % P;
    var plus := (da + cb) % P;
    var minus := (da - cb) % P;
    Pair((aa * bb) % P, (e * ((aa + (A24 * e) % P) % P)) % P,
         (plus * plus) % P, (x1 * ((minus * minus) % P)) % P)
  }

  predicate Bit(k: int, t: nat)
  {
    PowPositive(2, t);
    (k / Pow(2, t)) % 2 == 1
  }

  /** The ladder variables after the iterations for bits 254 down to t, with the RFC's deferred swap. */
  function Ladder(x1: int, k: int, t: nat): (Pair, bool)
    requires t <= 255
    decreases 255 - t
  {
    if t == 255 then (Pair(1, 0, x1, 1), false)
    else
      var (s, swap) := Ladder(x1, k, t + 1);
      (Step(x1, s.Swapped(swap != Bit(k, t))), Bit(k, t))
  }

  function LadderResult(x1: int, k: int): int
  {
    var (s, swap) := Ladder(x1, k, 0);
    var final := s.Swapped(swap);
    (final.x2 * (Pow(final.z2, P - 2) % P)) % P
  }

  /** decodeScalar25519: clear the low three bits and bit 255, set bit 254. */
  function DecodeScalar(n: int): int
  {
    TWO255 / 2 + n % (TWO255 / 2) - n % 8
  }

  /** X25519(k, u) on the numbers the two 32-byte strings encode. */
  function Rfc7748(k: int, u: int): int
  {
    LadderResult((u % TWO255) % P, DecodeScalar(k))
  }

  // ------------------------------------------------------- one ladder round

  ghost predicate Small(s: seq<int>)
  {
    |s| == 16 && Within(s, 0x2_0000)
  }

  ghost predicate Medium(s: seq<int>)
  {
    |s| == 16 && Within(s, 0x4_0000)
  }

  method Sum(o: array<i64>, a: array<i64>, b: array<i64>)
    requires o.Length == 16 && Small(a[..]) && Small(b[..])
    modifies o
    ensures Medium(o[..]) && Elem(o[..]) == (old(Elem(a[..])) + old(Elem(b[..]))) % P
  {
    assert forall k :: 0 <= k < 16 ==> a[k] == a[..][k] && b[k] == b[..][k];
    A(o, a, b);
  }

  method Difference(o: array<i64>, a: array<i64>, b: array<i64>)
    requires o.Length == 16 && Small(a[..]) && Small(b[..])
    modifies o
    ensures Medium(o[..]) && Elem(o[..]) == (old(Elem(a[..])) - old(Elem(b[..]))) % P
  {
    assert forall k :: 0 <= k < 16 ==> a[k] == a[..][k] && b[k] == b[..][k];
    Z(o, a, b);
  }

  method Product(o: array<i64>, a: array<i64>, b: array<i64>)
    requires o.Length == 16 && Medium(a[..]) && Medium(b[..])
    modifies o
    ensures Small(o[..]) && Elem(o[..]) == (old(Elem(a[..])) * old(Elem(b[..]))) % P
  {
    M(o, a, b);
    ReducedWithin(o[..]);
  }

  lemma SmallMedium(s: seq<int>)
    requires Small(s)
    ensures Medium(s)
  {}

  ghost predicate Distinct(a: array<i64>, b: array<i64>, c: array<i64>, d: array<i64>, e: array<i64>, f: array<i64>)
  {
    && a.Length == b.Length == c.Length == d.Length == e.Length == f.Length == 16
    && a != b && a != c && a != d && a != e && a != f
    && b != c && b != d && b != e && b != f
    && c != d && c != e && c != f
    && d != e && d != f && e != f
  }

  /** Squares of the sum and difference of the first point, and the cross products. */
  ghost predicate FirstHalf(s: Pair, aa: int, bb: int, cb: int, da: int)
  {
    && aa == (((s.x2 + s.z2) % P) * ((s.x2 + s.z2) % P)) % P
    && bb == (((s.x2 - s.z2) % P) * ((s.x2 - s.z2) % P)) % P
    && cb == (((s.x3 + s.z3) % P) * ((s.x2 - s.z2) % P)) % P
    && da == (((s.x3 - s.z3) % P) * ((s.x2 + s.z2) % P)) % P
  }

  /** The coordinates computed from them, in the order the code multiplies. */
  ghost predicate SecondHalf(x1: int, a24: int, aa: int, bb: int, cb: int, da: int, r: Pair)
  {
    var e := (aa - bb) % P;
    && r.x2 == (aa * bb) % P
    && r.z2 == (e * (((e * a24) % P + aa) % P)) % P
    && r.x3 == (((cb + da) % P) * ((cb + da) % P)) % P
    && r.z3 == (((((cb - da) % P) * ((cb - da) % P)) % P) * x1) % P
  }

  /** First half of a round: AA in d, BB in f, CB in a, DA in c. */
  method RoundFirst(a: array<i64>, b: array<i64>, c: array<i64>, d: array<i64>, e: array<i64>, f: array<i64>)
    requires Distinct(a, b, c, d, e, f)
    requires Small(a[..]) && Small(b[..]) && Small(c[..]) && Small(d[..])
    modifies a, b, c, d, e, f
    ensures Small(a[..]) && Small(c[..]) && Small(d[..]) && Small(f[..])
    ensures FirstHalf(old(Pair(Elem(a[..]), Elem(c[..]), Elem(b[..]), Elem(d[..]))),
                      Elem(d[..]), Elem(f[..]), Elem(a[..]), Elem(c[..]))
  {
    Sum(e, a, c);
    Difference(a, a, c);
    Sum(c, b, d);
    Difference(b, b, d);
    Product(d, e, e);
    Product(f, a, a);
    Product(a, c, a);
    Product(c, b, e);
  }

  /** Second half: x2 in a, z2 in c, x3 in b, z3 in d. The array k holds A24. */
  method RoundSecond(a: array<i64>, b: array<i64>, c: array<i64>, d: array<i64>, e: array<i64>, f: array<i64>,
                     x: array<i64>, k: array<i64>)
    requires Distinct(a, b, c, d, e, f) && x !in {a, b, c, d, e, f} && k !in {a, b, c, d, e, f}
    requires Small(a[..]) && Small(c[..]) && Small(d[..]) && Small(f[..]) && Small(x[..]) && Small(k[..])
    modifies a, b, c, d, e
    ensures Small(a[..]) && Small(b[..]) && Small(c[..]) && Small(d[..])
    ensures SecondHalf(Elem(x[..]), Elem(k[..]), old(Elem(d[..])), old(Elem(f[..])), old(Elem(a[..])), old(Elem(c[..])),
                       Pair(Elem(a[..]), Elem(c[..]), Elem(b[..]), Elem(d[..])))
  {
    SmallMedium(d[..]);
    SmallMedium(f[..]);
    SmallMedium(x[..]);
    SmallMedium(k[..]);
    Sum(e, a, c);
    Difference(a, a, c);
    Product(b, a, a);
    SmallMedium(b[..]);
    Difference(c, d, f);
    Product(a, c, k);
    Sum(a, a, d);
    Product(c, c, a);
    Product(a, d, f);
    Product(d, b, x);
    Product(b, e, e);
  }

  lemma Opposites(x: int, y: int, m: int)
    requires m > 0 && x + y == 0
    ensures (x % m + y % m) % m == 0
  {
    ModMod(x, m);
    ModMod(y, m);
    ModAdd(x % m, x, y % m, y, m);
  }

  lemma OppositeSquares(u: int, v: int, m: int)
    requires m > 0 && (u + v) % m == 0
    ensures (u * u) % m == (v * v) % m
  {
    ModMul(u + v, 0, u - v, u - v, m);
    assert (u + v) * (u - v) == u * u - v * v;
    ModAdd(u * u - v * v, 0, v * v, v * v, m);
  }

  /** The loop body between the two conditional swaps computes the RFC step. */
  method Round(a: array<i64>, b: array<i64>, c: array<i64>, d: array<i64>, e: array<i64>, f: array<i64>,
               x: array<i64>, k: array<i64>)
    requires Distinct(a, b, c, d, e, f) && x !in {a, b, c, d, e, f} && k !in {a, b, c, d, e, f}
    requires Small(a[..]) && Small(b[..]) && Small(c[..]) && Small(d[..]) && Small(x[..])
    requires Small(k[..]) && Elem(k[..]) == A24
    modifies a, b, c, d, e, f
    ensures Small(a[..]) && Small(b[..]) && Small(c[..]) && Small(d[..])
    ensures Pair(Elem(a[..]), Elem(c[..]), Elem(b[..]), Elem(d[..]))
         == Step(Elem(x[..]), old(Pair(Elem(a[..]), Elem(c[..]), Elem(b[..]), Elem(d[..]))))
  {
    ghost var s := Pair(Elem(a[..]), Elem(c[..]), Elem(b[..]), Elem(d[..]));
    RoundFirst(a, b, c, d, e, f);
    ghost var cb, da, aa, bb := Elem(a[..]), Elem(c[..]), Elem(d[..]), Elem(f[..]);
    RoundSecond(a, b, c, d, e, f, x, k);
    RoundIsStep(Elem(x[..]), s, aa, bb, cb, da, Pair(Elem(a[..]), Elem(c[..]), Elem(b[..]), Elem(d[..])));
  }

  lemma RoundIsStep(x1: int, s: Pair, aa: int, bb: int, cb: int, da: int, r: Pair)
    requires FirstHalf(s, aa, bb, cb, da) && SecondHalf(x1, A24, aa, bb, cb, da, r)
    ensures r == Step(x1, s)
  {
    StepFrom(x1, s, aa, bb, cb, da);
    Rearranged(x1, aa, bb, cb, da, r);
  }

  /** The end of the RFC step. */
  function Combine(x1: int, aa: int, bb: int, cb: int, da: int): Pair
  {
    var e, plus, minus := (aa - bb) % P, (da + cb) % P, (da - cb) % P;
    Pair((aa * bb) % P, (e * ((aa + (A24 * e) % P) % P)) % P, (plus * plus) % P, (x1 * ((minus * minus) % P)) % P)
  }

  lemma StepFrom(x1: int, s: Pair, aa: int, bb: int, cb: int, da: int)
    requires FirstHalf(s, aa, bb, cb, da)
    ensures Step(x1, s) == Combine(x1, aa, bb, cb, da)
  {}

  lemma Rearranged(x1: int, aa: int, bb: int, cb: int, da: int, r: Pair)
    requires SecondHalf(x1, A24, aa, bb, cb, da, r)
    ensures r == Combine(x1, aa, bb, cb, da)
  {
    Opposites(cb - da, da - cb, P);
    OppositeSquares((cb - da) % P, (da - cb) % P, P);
    var e, minus := (aa - bb) % P, (((da - cb) % P) * ((da - cb) % P)) % P;
    assert e * A24 == A24 * e && minus * x1 == x1 * minus;
  }

  // ------------------------------------------------------------ scalar bits

  lemma DivDiv(n: int, a: int, b: int)
    requires a > 0 && b > 0
    ensures a * b > 0 && n / (a * b) == (n / a) / b
  {
    MulPositive(a, b);
    var q, r := n / a, n % a;
    var q', r' := q / b, q % b;
    assert n == a * q + r && q == b * q' + r';
    assert n == (r + a * r') + (a * b) * q' by {
      assert a * (b * q' + r') == (a * b) * q' + a * r';
    }
    MulMonotone(r', b - 1, a);
    MulMonotone(0, r', a);
    DivOf(n, a * b, q', r + a * r');
  }

  lemma LowBit(h: int, z: int, m: nat)
    requires 0 <= z < 0x100 && m < 8
    ensures Pow(2, m) > 0 && ((z + 0x100 * h) / Pow(2, m)) % 2 == (z / Pow(2, m)) % 2
  {
    PowPositive(2, m);
    PowAdd(2, m, 8 - m);
    assert Pow(2, 8) == 0x100;
    LowBitOf(h, z, Pow(2, m), Pow(2, 7 - m));
  }

  lemma LowBitOf(h: int, z: int, w: int, v: int)
    requires w > 0 && w * (2 * v) == 0x100
    ensures ((z + 0x100 * h) / w) % 2 == (z / w) % 2
  {
    ShiftedQuotient(h, z, w, v);
    EvenDifference((z + 0x100 * h) / w, z / w, v * h);
  }

  lemma EvenDifference(a: int, b: int, t: int)
    requires a == b + 2 * t
    ensures a % 2 == b % 2
  {}

  lemma ShiftedQuotient(h: int, z: int, w: int, v: int)
    requires w > 0 && w * (2 * v) == 0x100
    ensures (z + 0x100 * h) / w == z / w + 2 * (v * h)
  {
    var q, t := z / w, v * h;
    TimesByte(h, w, v);
    assert w * (q + 2 * t) == w * q + w * (2 * t) by { MulDistribute(q, 2 * t, w); }
    DivOf(z + 0x100 * h, w, q + 2 * t, z % w);
  }

  lemma TimesByte(h: int, w: int, v: int)
    requires w * (2 * v) == 0x100
    ensures 0x100 * h == w * (2 * (v * h))
  {
    MulAssoc(w, 2 * v, h);
    MulAssoc(2, v, h);
  }

  /** Testing a bit of byte i / 8 tests bit i of the number. */
  lemma ByteBit(z: seq<int>, i: nat)
    requires Normal(z, 0x100) && i / 8 < |z|
    ensures Pow(2, i % 8) > 0
    ensures (z[i / 8] / Pow(2, i % 8)) % 2 == 1 <==> Bit(Eval(z, 0x100), i)
  {
    var n, j, m := Eval(z, 0x100), i / 8, i % 8;
    PowPositive(2, m);
    PowAdd(2, 8 * j, m);
    PowMul(2, 8, j);
    assert Pow(2, 8) == 0x100;
    EvalDigit(z, j, 0x100);
    var w := Pow(0x100, j);
    DivDiv(n, w, Pow(2, m));
    var q := n / w;
    LowBit(q / 0x100, z[j], m);
    assert q == z[j] + 0x100 * (q / 0x100);
  }

  // --------------------------------------------------------------- clamping

  lemma TopBytePower(k: nat)
    requires k == 31
    ensures 64 * Pow(0x100, k) == TWO255 / 2 && Pow(0x100, k) > 0
  {
    PowMul(0x100, 2, 16);
    assert Pow(0x100, 2) == RADIX;
    RadixPower();
    PowPositive(0x100, k);
    assert Pow(0x100, k + 1) == 0x100 * Pow(0x100, k);
  }

  lemma LowThreeBits(n: seq<int>)
    requires |n| > 0
    ensures Eval(n, 0x100) % 8 == n[0] % 8
  {
    EvalHead(n, 0x100);
    ModIntro(Eval(n, 0x100), n[0], 32 * Eval(n[1..], 0x100), 8);
  }

  lemma LowBits254(n: seq<int>, k: nat)
    requires |n| == 32 && k == 31 && Normal(n, 0x100)
    ensures Eval(n, 0x100) % (TWO255 / 2) == Eval(n[..k], 0x100) + (n[k] % 64) * Pow(0x100, k)
  {
    var w, low, r, h := Pow(0x100, k), Eval(n[..k], 0x100), n[k] % 64, n[k] / 64;
    TopBytePower(k);
    EvalNormal(n[..k], 0x100);
    TopByteAlgebra(r, h, w);
    MulMonotone(0, r, w);
    MulMonotone(r, 63, w);
    DivOf(Eval(n, 0x100), TWO255 / 2, h, low + r * w);
  }

  lemma TopByteAlgebra(r: int, h: int, w: int)
    ensures (r + 64 * h) * w == r * w + (64 * w) * h
  {
    MulAssoc(64, w, h);
    MulAssoc(64, h, w);
  }

  lemma TopReplaced(n: seq<int>, k: nat, r: int)
    requires |n| == k + 1
    ensures Eval(n[k := 64 + r], 0x100) == Eval(n[..k], 0x100) + 64 * Pow(0x100, k) + r * Pow(0x100, k)
  {
    var t := n[k := 64 + r];
    assert t[..k] == n[..k];
    MulDistribute(64, r, Pow(0x100, k));
  }

  lemma ClampedBytes(n: seq<int>, z: seq<int>, k: nat, t: seq<int>)
    requires |n| == k + 1 && k > 0 && t == n[k := 64 + n[k] % 64] && z == t[0 := t[0] - n[0] % 8]
    ensures Eval(z, 0x100) == Eval(n[..k], 0x100) + 64 * Pow(0x100, k) + (n[k] % 64) * Pow(0x100, k) - n[0] % 8
  {
    TopReplaced(n, k, n[k] % 64);
    EvalIncreaseFirst(t, -(n[0] % 8), 0x100);
  }

  lemma ClampValue(n: seq<int>, z: seq<int>)
    requires |n| == |z| == 32 && Normal(n, 0x100)
    requires z == n[31 := 64 + n[31] % 64][0 := n[0] - n[0] % 8]
    ensures Eval(z, 0x100) == DecodeScalar(Eval(n, 0x100))
  {
    var k := |n| - 1;
    ClampedBytes(n, z, k, n[k := 64 + n[k] % 64]);
    LowThreeBits(n);
    LowBits254(n, k);
    TopBytePower(k);
    ClampSum(Eval(z, 0x100), Eval(n, 0x100), Eval(n[..k], 0x100), (n[k] % 64) * Pow(0x100, k), n[0] % 8);
  }

  lemma ClampSum(ez: int, en: int, low: int, top: int, d: int)
    requires ez == low + TWO255 / 2 + top - d && en % (TWO255 / 2) == low + top && en % 8 == d
    ensures ez == DecodeScalar(en)
  {}

  /** The scalar set-up: masks 248, 127 and 64 on the first and last byte. */
  method Clamp(n: array<u8>) returns (z: array<u8>)
    requires n.Length == 32
    ensures fresh(z) && z.Length == 32 && Eval(z[..], 0x100) == DecodeScalar(Eval(n[..], 0x100))
  {
    z := new u8[32];
    for i := 0 to 31
      invariant forall k :: 0 <= k < i ==> z[k] == n[k]
    {
      z[i] := n[i];
    }
    var masked: u8 := n[31] % 128;
    z[31] := if masked < 64 then masked + 64 else masked;
    z[0] := z[0] - z[0] % 8;
    assert z[..] == n[..][31 := 64 + n[31] % 64][0 := n[0] - n[0] % 8];
    ClampValue(n[..], z[..]);
  }

  // -------------------------------------------------------- the whole ladder

  method Constant(c0: i64, c1: i64) returns (a: array<i64>)
    requires 0 <= c0 < 0x1_0000 && 0 <= c1 <= 1
    ensures fresh(a) && Small(a[..]) && Elem(a[..]) == c0 + c1 * 0x1_0000
  {
    a := new i64[16](_ => 0);
    ghost var zero: seq<int> := a[..];
    EvalZero(zero, RADIX);
    EvalUpdate(zero, 0, c0, RADIX);
    EvalUpdate(zero[0 := c0], 1, c1, RADIX);
    a[0] := c0;
    a[1] := c1;
    assert a[..] == zero[0 := c0][1 := c1];
    assert Pow(RADIX, 0) == 1 && Pow(RADIX, 1) == RADIX;
    ModSmall(c0 + c1 * RADIX, P);
  }

  ghost function Points(a: array<i64>, b: array<i64>, c: array<i64>, d: array<i64>): Pair
    reads a, b, c, d
  {
    Pair(Elem(a[..]), Elem(c[..]), Elem(b[..]), Elem(d[..]))
  }

  /** Swap, step and swap back is one iteration of the deferred-swap ladder. */
  method Iterate(a: array<i64>, b: array<i64>, c: array<i64>, d: array<i64>, e: array<i64>, f: array<i64>,
                 x: array<i64>, k: array<i64>, r: int, ghost s: Pair, ghost swap: bool)
    requires Distinct(a, b, c, d, e, f) && x !in {a, b, c, d, e, f} && k !in {a, b, c, d, e, f}
    requires Small(a[..]) && Small(b[..]) && Small(c[..]) && Small(d[..]) && Small(x[..])
    requires Small(k[..]) && Elem(k[..]) == A24 && 0 <= r <= 1
    requires Points(a, b, c, d) == s.Swapped(swap)
    modifies a, b, c, d, e, f
    ensures Small(a[..]) && Small(b[..]) && Small(c[..]) && Small(d[..])
    ensures Points(a, b, c, d) == Step(Elem(x[..]), s.Swapped(swap != (r == 1))).Swapped(r == 1)
  {
    Sel25519(a, b, r);
    Sel25519(c, d, r);
    assert Points(a, b, c, d) == s.Swapped(swap != (r == 1));
    Round(a, b, c, d, e, f, x, k);
    ghost var stepped := Points(a, b, c, d);
    Sel25519(a, b, r);
    Sel25519(c, d, r);
    assert Points(a, b, c, d) == stepped.Swapped(r == 1);
  }

  /** The 255 iterations, from the most significant scalar bit down. */
  method RunLadder(a: array<i64>, b: array<i64>, c: array<i64>, d: array<i64>, e: array<i64>, f: array<i64>,
                   x: array<i64>, a24: array<i64>, z: array<u8>)
    requires Distinct(a, b, c, d, e, f) && x !in {a, b, c, d, e, f} && a24 !in {a, b, c, d, e, f}
    requires Small(a[..]) && Small(b[..]) && Small(c[..]) && Small(d[..]) && Small(x[..])
    requires Small(a24[..]) && Elem(a24[..]) == A24 && z.Length == 32
    requires Points(a, b, c, d) == Pair(1, 0, Elem(x[..]), 1)
    modifies a, b, c, d, e, f
    ensures Small(a[..]) && Small(c[..])
    ensures var (s, swap) := Ladder(Elem(x[..]), Eval(z[..], 0x100), 0); Points(a, b, c, d) == s.Swapped(swap)
  {
    ghost var x1, bytes: seq<int> := Elem(x[..]), z[..];
    ghost var k := Eval(bytes, 0x100);
    for i := 255 downto 0
      invariant Small(a[..]) && Small(b[..]) && Small(c[..]) && Small(d[..])
      invariant Points(a, b, c, d) == Ladder(x1, k, i).0.Swapped(Ladder(x1, k, i).1)
    {
      ByteBit(bytes, i);
      var r := (z[i / 8] / Pow(2, i % 8)) % 2;
      Iterate(a, b, c, d, e, f, x, a24, r, Ladder(x1, k, i + 1).0, Ladder(x1, k, i + 1).1);
    }
  }

  /** After the loop: divide the projective coordinates and encode. */
  method Finish(q: array<u8>, a: array<i64>, c: array<i64>)
    requires q.Length == 32 && a != c && Small(a[..]) && Small(c[..])
    modifies q, a, c
    ensures Eval(q[..], 0x100) == old((Elem(a[..]) * (Pow(Elem(c[..]), P - 2) % P)) % P)
  {
    Inv25519(c, c);
    M(a, a, c);
    ReducedWithin(a[..]);
    Pack25519(q, a);
  }

  /** The work arrays of the ladder and its loop; a and c then hold the result. */
  method LadderOf(x: array<i64>, z: array<u8>) returns (a: array<i64>, c: array<i64>)
    requires Small(x[..]) && z.Length == 32
    ensures fresh(a) && fresh(c) && a != c && Small(a[..]) && Small(c[..])
    ensures var (s, swap) := Ladder(Elem(x[..]), Eval(z[..], 0x100), 0);
      Elem(a[..]) == s.Swapped(swap).x2 && Elem(c[..]) == s.Swapped(swap).z2
  {
    var a24 := Constant(0xDB41, 1);
    a := Constant(1, 0);
    c := Constant(0, 0);
    var d := Constant(1, 0);
    var b, e, f := new i64[16], new i64[16], new i64[16];
    Copy(b, x);
    assert b[..] == x[..];
    RunLadder(a, b, c, d, e, f, x, a24, z);
  }

  /** dropbear_curve25519_scalarmult: q receives the encoding of X25519(n, p). The work array
      x[80] of the source is the point array x and, after the loop, a and c themselves. */
  method ScalarMult(q: array<u8>, n: array<u8>, p: array<u8>)
    requires q.Length == n.Length == p.Length == 32
    modifies q
    ensures Eval(q[..], 0x100) == old(Rfc7748(Eval(n[..], 0x100), Eval(p[..], 0x100)))
  {
    var z := Clamp(n);
    var x := new i64[16];
    Unpack25519(x, p);
    assert Small(x[..]);
    var a, c := LadderOf(x, z);
    Finish(q, a, c);
  }
}
