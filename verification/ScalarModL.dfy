/** Reduction modulo the order of the Ed25519 base point: modL and reduce of curve25519.c.
    The source multiplies by an unsigned table, so its products are taken modulo 2^64; no
    value here leaves the signed range, where that agrees with exact arithmetic. */
module ScalarModL {
  import opened Arith
  import opened Digits

  /** 2^252 + 27742317777372353535851937790883648493 */
  const ORDER: int := 0x1000_0000_0000_0000_0000_0000_0000_0000_14de_f9de_a2f7_9cd6_5812_631a_5cf5_d3ed
  const LOW: int := 0x14de_f9de_a2f7_9cd6_5812_631a_5cf5_d3ed

  const L: seq<int> := [
    0xed, 0xd3, 0xf5, 0x5c, 0x1a, 0x63, 0x12, 0x58, 0xd6, 0x9c, 0xf7, 0xa2, 0xde, 0xf9, 0xde, 0x14,
    0, 0, 0, 0, 0, 0, 0, 0, 0, 0, 0, 0, 0, 0, 0, 0x10]

  lemma TailStep(s: seq<int>, k: nat)
    requires k < |s|
    ensures Eval(s[k..], 0x100) == s[k] + 0x100 * Eval(s[k + 1..], 0x100)
  {
    EvalHead(s[k..], 0x100);
    assert s[k..][1..] == s[k + 1..];
  }

  lemma LowHalf(s: seq<int>)
    requires |s| == 8 && s[0] == 0xed && s[1] == 0xd3 && s[2] == 0xf5 && s[3] == 0x5c
    requires s[4] == 0x1a && s[5] == 0x63 && s[6] == 0x12 && s[7] == 0x58
    ensures Eval(s, 0x100) == 0x5812_631a_5cf5_d3ed
  {
    TailStep(s, 7); TailStep(s, 6); TailStep(s, 5); TailStep(s, 4);
    TailStep(s, 3); TailStep(s, 2); TailStep(s, 1); TailStep(s, 0);
    assert s[8..] == [] && s[0..] == s;
  }

  lemma HighHalf(s: seq<int>)
    requires |s| == 8 && s[0] == 0xd6 && s[1] == 0x9c && s[2] == 0xf7 && s[3] == 0xa2
    requires s[4] == 0xde && s[5] == 0xf9 && s[6] == 0xde && s[7] == 0x14
    ensures Eval(s, 0x100) == 0x14de_f9de_a2f7_9cd6
  {
    TailStep(s, 7); TailStep(s, 6); TailStep(s, 5); TailStep(s, 4);
    TailStep(s, 3); TailStep(s, 2); TailStep(s, 1); TailStep(s, 0);
    assert s[8..] == [] && s[0..] == s;
  }

  lemma TableHalves(t: seq<int>)
    requires t == L
    ensures Eval(t[..8], 0x100) == 0x5812_631a_5cf5_d3ed && Eval(t[8..16], 0x100) == 0x14de_f9de_a2f7_9cd6
  {
    assert t[8] == 0xd6 && t[9] == 0x9c && t[10] == 0xf7 && t[11] == 0xa2;
    assert t[12] == 0xde && t[13] == 0xf9 && t[14] == 0xde && t[15] == 0x14;
    LowHalf(t[..8]);
    HighHalf(t[8..16]);
  }

  lemma LowDigits(t: seq<int>)
    requires t == L
    ensures Eval(t[..16], 0x100) == LOW
  {
    TableHalves(t);
    JoinHalves(t[..8], t[8..16], t[..16]);
  }

  lemma JoinHalves(lo: seq<int>, hi: seq<int>, s: seq<int>)
    requires |lo| == 8 && |hi| == 8 && s == lo + hi
    ensures Eval(s, 0x100) == Eval(lo, 0x100) + 0x1_0000_0000_0000_0000 * Eval(hi, 0x100)
  {
    EvalConcat(lo, hi, 0x100);
    PowMul(0x100, 4, 2);
    assert Pow(0x100, 4) == 0x1_0000_0000;
  }

  ghost predicate IsTable(t: seq<int>)
  {
    && |t| == 32 && Normal(t, 0x100) && t[31] == 0x10
    && (forall k :: 16 <= k < 31 ==> t[k] == 0)
    && Eval(t[..16], 0x100) == LOW
  }

  lemma Table()
    ensures IsTable(L)
  {
    LowDigits(L);
  }

  lemma ZeroDigits(t: seq<int>, k: nat)
    requires IsTable(t) && 16 <= k <= 31
    ensures Eval(t[..k], 0x100) == LOW
  {
    EvalSplit(t[..k], 16, 0x100);
    assert t[..k][..16] == t[..16];
    EvalZero(t[..k][16..], 0x100);
  }

  lemma OrderSplit(k: nat)
    requires k == 31
    ensures LOW == 27742317777372353535851937790883648493
    ensures ORDER == LOW + 0x10 * Pow(0x100, k) && 0x100 * Pow(0x100, k) == Pow(0x100, k + 1)
  {
    PowMul(0x100, 4, 8);
    assert Pow(0x100, 4) == 0x1_0000_0000;
    PowAdd(0x1_0000_0000, 1, 1);
    PowAdd(0x1_0000_0000, 2, 2);
    PowAdd(0x1_0000_0000, 4, 4);
  }

  lemma TableValue(t: seq<int>)
    requires IsTable(t)
    ensures Eval(t, 0x100) == ORDER
  {
    var k := |t| - 1;
    ZeroDigits(t, k);
    OrderSplit(k);
  }

  // ------------------------------------------- eliminating the upper 32 digits

  /** How far a carry can reach after k digits of one elimination, once the digits it meets
      beyond the sixteenth are small. */
  function CarryLimit(k: nat): int
  {
    if k <= 16 then 0x800_0000 else if k == 17 then 0x8_0002 else if k == 18 then 0x802 else if k == 19 then 10 else 1
  }

  /** One digit of an elimination: x[j] absorbs the carry and a multiple of the table digit and
      keeps a balanced remainder. */
  lemma DigitStep(x: seq<int>, j: nat, carry: int, sub: int, d: int, carry': int)
    requires j < |x| && d == x[j] + carry - sub - 0x100 * carry'
    ensures Eval(x[j := d], 0x100) + carry' * Pow(0x100, j + 1)
         == Eval(x, 0x100) + carry * Pow(0x100, j) - sub * Pow(0x100, j)
  {
    EvalIncrease(x, j, d - x[j], 0x100);
    DigitAlgebra(carry, sub, carry', Pow(0x100, j));
  }

  lemma DigitAlgebra(c: int, s: int, c': int, w: int)
    ensures (c - s - 0x100 * c') * w == c * w - s * w - c' * (0x100 * w)
  {
    MulAssoc(0x100, c', w);
    MulAssoc(c', 0x100, w);
    MulDistribute(c - s, -(0x100 * c'), w);
    MulDistribute(c, -s, w);
  }

  lemma ScaledPrefix(t: seq<int>, k: nat, c: int, base: nat, m: int)
    requires k < |t| && m == c * Pow(0x100, base)
    ensures (c * t[k]) * Pow(0x100, base + k) == m * Eval(t[..k + 1], 0x100) - m * Eval(t[..k], 0x100)
  {
    EvalSnoc(t, k, 0x100);
    PowAdd(0x100, base, k);
    var w, v, e := Pow(0x100, base), Pow(0x100, k), Eval(t[..k], 0x100);
    MulSwap(c, t[k], w, v);
    MulDistribute(e, t[k] * v, m);
  }

  lemma CarryShrinks(k: nat, x: int, carry: int, sub: int, next: int)
    requires next == (x + carry - sub + 128) / 0x100 && k < 20
    requires -0x800_0000 <= carry <= 0x800_0000 && -0x40_0000 <= x <= 0x40_0000
    requires -0x4_0000_0000 <= sub <= 0x4_0000_0000 && (k >= 16 ==> sub == 0)
    ensures -0x800_0000 <= next <= 0x800_0000 && (k >= 16 ==> -0x10_0000 <= next <= 0x10_0000)
    ensures -CarryLimit(k) <= carry <= CarryLimit(k) && (k >= 16 ==> -129 <= x <= 129)
        ==> -CarryLimit(k + 1) <= next <= CarryLimit(k + 1)
  {}

  /** The digits before index i is eliminated: those at or above i are gone, those that
      eliminations have passed over are small, the others are as they were given. */
  ghost predicate Bounded(x: seq<int>, i: nat)
    requires |x| == 64 && 32 <= i <= 64
  {
    && (forall k :: 0 <= k < 64 ==> -0x40_0000 <= x[k] <= 0x40_0000)
    && (forall k :: 0 <= k < 64 && (k < i - 32 || i == 64) ==> 0 <= x[k] <= 0x20_0000)
    && (forall k :: i - 32 <= k < i && k <= 50 && i < 64 ==> -129 <= x[k] <= 129)
    && (forall k :: i - 32 <= k < i - 12 && i < 64 ==> -128 <= x[k] < 128)
    && (forall k :: i <= k < 64 ==> x[k] == 0)
  }

  method AbsorbDigit(x: array<i64>, j: nat, carry: i64, sub: i64) returns (next: i64)
    requires j < x.Length && -0x40_0000 <= x[j] <= 0x40_0000
    requires -0x800_0000 <= carry <= 0x800_0000 && -0x4_0000_0000 <= sub <= 0x4_0000_0000
    modifies x
    ensures (forall k :: 0 <= k < x.Length && k != j ==> x[k] == old(x[k])) && -128 <= x[j] < 128
    ensures next == (old(x[j]) + carry - sub + 128) / 0x100
    ensures Eval(x[..], 0x100) + next * Pow(0x100, j + 1)
         == old(Eval(x[..], 0x100)) + carry * Pow(0x100, j) - sub * Pow(0x100, j)
  {
    ghost var was: seq<int> := x[..];
    x[j] := x[j] + carry - sub;
    next := (x[j] + 128) / 0x100;
    x[j] := x[j] - next * 0x100;
    DigitStep(was, j, carry, sub, x[j], next);
    assert x[..] == was[j := x[j]];
  }

  /** The k-th step of the inner loop, with the carry it hands on. */
  method SubtractAt(x: array<i64>, j: nat, carry: i64, top: i64, t: seq<int>, k: nat) returns (next: i64)
    requires IsTable(t) && k < 20 && j < x.Length
    requires -0x40_0000 <= x[j] <= 0x40_0000 && -0x40_0000 <= top <= 0x40_0000 && -0x800_0000 <= carry <= 0x800_0000
    modifies x
    ensures (forall k :: 0 <= k < x.Length && k != j ==> x[k] == old(x[k])) && -128 <= x[j] < 128
    ensures -0x800_0000 <= next <= 0x800_0000 && (k >= 16 ==> -0x10_0000 <= next <= 0x10_0000)
    ensures -CarryLimit(k) <= carry <= CarryLimit(k) && (k >= 16 ==> -129 <= old(x[j]) <= 129)
        ==> -CarryLimit(k + 1) <= next <= CarryLimit(k + 1)
    ensures Eval(x[..], 0x100) + next * Pow(0x100, j + 1)
         == old(Eval(x[..], 0x100)) + carry * Pow(0x100, j) - (16 * top * t[k]) * Pow(0x100, j)
  {
    var sub: i64 := ScaleDigit(top, t[k]);
    ghost var was := x[j];
    next := AbsorbDigit(x, j, carry, sub);
    CarryShrinks(k, was, carry, sub, next);
  }

  /** The inner loop of modL: subtract 16 * x[i] times the low 20 table digits, 32 places down. */
  method SubtractMultiple(x: array<i64>, i: nat, t: seq<int>) returns (carry: i64)
    requires IsTable(t) && 32 <= i < 64 == x.Length && Bounded(x[..], i + 1)
    modifies x
    ensures forall k :: 0 <= k < 64 && !(i - 32 <= k < i - 12) ==> x[k] == old(x[k])
    ensures forall k :: i - 32 <= k < i - 12 ==> -128 <= x[k] < 128
    ensures -0x10_0000 <= carry <= 0x10_0000 && (i < 63 ==> -1 <= carry <= 1)
    ensures Eval(x[..], 0x100) + carry * Pow(0x100, i - 12)
         == old(Eval(x[..], 0x100)) - 16 * x[i] * Pow(0x100, i - 32) * LOW
  {
    ghost var base := i - 32;
    ghost var was: seq<int> := x[..];
    ghost var v, m := Eval(was, 0x100), 16 * x[i] * Pow(0x100, base);
    var top := x[i];
    carry := 0;
    assert t[..0] == [];
    for k := 0 to 20
      invariant forall n :: 0 <= n < 64 && !(base <= n < base + k) ==> x[n] == was[n]
      invariant forall n :: base <= n < base + k ==> -128 <= x[n] < 128
      invariant -0x800_0000 <= carry <= 0x800_0000 && (k > 16 ==> -0x10_0000 <= carry <= 0x10_0000)
      invariant i < 63 ==> -CarryLimit(k) <= carry <= CarryLimit(k)
      invariant Eval(x[..], 0x100) + carry * Pow(0x100, base + k) == v - m * Eval(t[..k], 0x100)
    {
      ScaledPrefix(t, k, 16 * top, base, m);
      assert i < 63 && k >= 16 ==> -129 <= was[base + k] <= 129;
      carry := SubtractAt(x, i - 32 + k, carry, top, t, k);
    }
    ZeroDigits(t, 20);
  }

  function ScaleDigit(top: int, digit: int): (r: int)
    requires -0x40_0000 <= top <= 0x40_0000 && 0 <= digit < 0x100
    ensures -0x4_0000_0000 <= r <= 0x4_0000_0000
  {
    MulMonotone(top, 0x40_0000, digit);
    MulMonotone(-0x40_0000, top, digit);
    16 * top * digit
  }

  lemma EliminationAlgebra(top: int, w: int, v: int, e: int, full: int)
    requires full == w * Pow(0x100, 32) && e == v - 16 * top * w * LOW - top * full
    ensures e == v - (16 * top * w) * ORDER
  {
    OrderSplit(31);
    var p := Pow(0x100, 31);
    assert Pow(0x100, 32) == 0x100 * p;
    var m := 16 * top * w;
    assert m * ORDER == m * LOW + m * (0x10 * p) by { MulDistribute(LOW, 0x10 * p, m); }
    assert m * (0x10 * p) == top * (w * (0x100 * p)) by {
      MulSwap(16 * top, w, 0x10, p);
      MulSwap(top, 0x100, w, p);
      MulAssoc(w, 0x100, p);
    }
  }

  lemma EliminatedValue(s: seq<int>, carry: int, i: nat, v: int)
    requires 32 <= i < |s|
    requires Eval(s, 0x100) + carry * Pow(0x100, i - 12) == v - 16 * s[i] * Pow(0x100, i - 32) * LOW
    ensures Eval(s[i - 12 := s[i - 12] + carry][i := 0], 0x100) % ORDER == v % ORDER
  {
    var s', w := s[i - 12 := s[i - 12] + carry], Pow(0x100, i - 32);
    EvalIncrease(s, i - 12, carry, 0x100);
    EvalIncrease(s', i, -s[i], 0x100);
    var e := Eval(s'[i := 0], 0x100);
    assert e == Eval(s', 0x100) - s[i] * Pow(0x100, i);
    PowAdd(0x100, i - 32, 32);
    EliminationAlgebra(s[i], w, v, e, Pow(0x100, i));
    ModIntro(v, e, 16 * s[i] * w, ORDER);
  }

  lemma EliminatedBounds(was: seq<int>, s: seq<int>, carry: int, i: nat)
    requires |was| == |s| == 64 && 32 <= i < 64 && Bounded(was, i + 1)
    requires forall k :: 0 <= k < 64 && !(i - 32 <= k < i - 12) ==> s[k] == was[k]
    requires forall k :: i - 32 <= k < i - 12 ==> -128 <= s[k] < 128
    requires -0x10_0000 <= carry <= 0x10_0000 && (i < 63 ==> -1 <= carry <= 1)
    ensures Bounded(s[i - 12 := s[i - 12] + carry][i := 0], i)
  {}

  /** One round of the outer loop: digit i becomes zero, the number keeps its residue. */
  method EliminateTop(x: array<i64>, i: nat, t: seq<int>)
    requires IsTable(t) && 32 <= i < 64 == x.Length && Bounded(x[..], i + 1)
    modifies x
    ensures Bounded(x[..], i) && Eval(x[..], 0x100) % ORDER == old(Eval(x[..], 0x100)) % ORDER
  {
    ghost var was: seq<int> := x[..];
    var carry := SubtractMultiple(x, i, t);
    ghost var s: seq<int> := x[..];
    EliminatedValue(s, carry, i, Eval(was, 0x100));
    EliminatedBounds(was, s, carry, i);
    x[i - 12] := x[i - 12] + carry;
    x[i] := 0;
    assert x[..] == s[i - 12 := s[i - 12] + carry][i := 0];
  }

  // ------------------------------------------------------- the final quotient

  ghost predicate Near(x: seq<int>, bound: int)
  {
    forall k :: 0 <= k < |x| ==> -bound <= x[k] <= bound
  }

  lemma {:induction false} SmallDigits(x: seq<int>)
    requires Near(x, 129)
    ensures -129 * (Pow(0x100, |x|) - 1) <= 255 * Eval(x, 0x100) <= 129 * (Pow(0x100, |x|) - 1)
  {
    if |x| > 0 {
      var n := |x| - 1;
      SmallDigits(x[..n]);
      PowPositive(0x100, n);
      MulMonotone(x[n], 129, Pow(0x100, n));
      MulMonotone(-129, x[n], Pow(0x100, n));
    }
  }

  /** Dividing the top digit by 16 misses the quotient by at most one. */
  lemma QuotientGuess(x: seq<int>)
    requires |x| == 32 && Near(x, 129)
    ensures -ORDER < Eval(x, 0x100) - (x[31] / 16) * ORDER < ORDER
  {
    var k := |x| - 1;
    var w, q, r, low := Pow(0x100, k), x[k] / 16, x[k] % 16, Eval(x[..k], 0x100);
    OrderSplit(k);
    SmallDigits(x[..k]);
    assert Eval(x, 0x100) == low + (16 * q + r) * w;
    assert (16 * q + r) * w == q * (0x10 * w) + r * w by { MulDistribute(16 * q, r, w); MulAssoc(q, 0x10, w); }
    assert q * ORDER == q * LOW + q * (0x10 * w) by { MulDistribute(LOW, 0x10 * w, q); }
    assert 0 <= r * w <= 15 * w by { MulMonotone(0, r, w); MulMonotone(r, 15, w); }
    assert -9 * LOW <= q * LOW <= 9 * LOW by { MulMonotone(q, 9, LOW); MulMonotone(-9, q, LOW); }
  }

  method AbsorbByte(x: array<i64>, j: nat, carry: i64, sub: i64) returns (next: i64)
    requires j < x.Length && -0x40_0000 <= x[j] <= 0x40_0000
    requires -0x1_0000 <= carry <= 0x1_0000 && -0x1_0000 <= sub <= 0x1_0000
    modifies x
    ensures (forall k :: 0 <= k < x.Length && k != j ==> x[k] == old(x[k])) && 0 <= x[j] < 0x100
    ensures next == (old(x[j]) + carry - sub) / 0x100
    ensures Eval(x[..], 0x100) + next * Pow(0x100, j + 1)
         == old(Eval(x[..], 0x100)) + carry * Pow(0x100, j) - sub * Pow(0x100, j)
  {
    ghost var was: seq<int> := x[..];
    x[j] := x[j] + carry - sub;
    next := x[j] / 0x100;
    x[j] := x[j] % 0x100;
    DigitStep(was, j, carry, sub, x[j], next);
    assert x[..] == was[j := x[j]];
  }

  /** The third loop of modL: subtract the guessed multiple of the order and make bytes. */
  method SubtractQuotient(x: array<i64>, t: seq<int>) returns (carry: i64)
    requires IsTable(t) && x.Length == 64 && forall k :: 0 <= k < 32 ==> -129 <= x[k] <= 129
    modifies x
    ensures forall k :: 0 <= k < 32 ==> 0 <= x[k] < 0x100
    ensures forall k :: 32 <= k < 64 ==> x[k] == old(x[k])
    ensures -0x1_0000 <= carry <= 0x1_0000
    ensures Eval(x[..], 0x100) + carry * Pow(0x100, 32)
         == old(Eval(x[..], 0x100)) - old(x[31] / 16) * ORDER
  {
    ghost var v, q := Eval(x[..], 0x100), x[31] / 16;
    carry := 0;
    assert t[..0] == [];
    for j := 0 to 32
      invariant forall k :: 0 <= k < j ==> 0 <= x[k] < 0x100
      invariant forall k :: j <= k < 64 ==> x[k] == old(x[k])
      invariant -0x1_0000 <= carry <= 0x1_0000
      invariant Eval(x[..], 0x100) + carry * Pow(0x100, j) == v - q * Eval(t[..j], 0x100)
    {
      var sub: i64 := SmallMultiple(x[31] / 16, t[j]);
      EvalSnoc(t, j, 0x100);
      ScaledDigit(q, t[j], Eval(t[..j], 0x100), Pow(0x100, j));
      carry := AbsorbByte(x, j, carry, sub);
    }
    EvalFull(t, 0x100);
    TableValue(t);
  }

  function SmallMultiple(q: int, digit: int): (r: int)
    requires -9 <= q <= 9 && 0 <= digit < 0x100
    ensures -0x8f7 <= r <= 0x8f7
  {
    MulMonotone(q, 9, digit);
    MulMonotone(-9, q, digit);
    q * digit
  }

  lemma ScaledDigit(q: int, d: int, e: int, w: int)
    ensures q * (e + d * w) == q * e + (q * d) * w
  {
    MulAssoc(q, d, w);
    MulDistribute(e, d * w, q);
  }

  /** The fourth loop: undo the last multiple if the guess was one too high. */
  method AddBack(x: array<i64>, carry: i64, t: seq<int>)
    requires IsTable(t) && x.Length == 64 && -1 <= carry <= 0
    requires forall k :: 0 <= k < 32 ==> 0 <= x[k] < 0x100
    modifies x
    ensures forall k :: 0 <= k < 32 ==> 0 <= x[k] < 0x200
    ensures forall k :: 32 <= k < 64 ==> x[k] == old(x[k])
    ensures Eval(x[..32], 0x100) == old(Eval(x[..32], 0x100)) - carry * ORDER
  {
    ghost var was: seq<int> := x[..];
    for j := 0 to 32
      invariant forall k :: 0 <= k < j ==> x[k] == was[k] - carry * t[k]
      invariant forall k :: j <= k < 64 ==> x[k] == was[k]
    {
      var sub: i64 := if carry == 0 then 0 else -t[j];
      x[j] := x[j] - sub;
    }
    AddBackValue(x[..32], was[..32], carry, t);
  }

  lemma AddBackValue(x: seq<int>, was: seq<int>, carry: int, t: seq<int>)
    requires IsTable(t) && |x| == |was| == 32 && forall k :: 0 <= k < 32 ==> x[k] == was[k] - carry * t[k]
    ensures Eval(x, 0x100) == Eval(was, 0x100) - carry * ORDER
  {
    var scaled := seq(32, k requires 0 <= k < 32 => carry * t[k]);
    EvalScale(scaled, t, carry, 0x100);
    EvalAdd(was, x, scaled, 0x100);
    TableValue(t);
  }

  lemma EmitStep(r: seq<int>, s: seq<int>, i: nat, xi: int)
    requires i < |s| && |r| == i
    requires Eval(r, 0x100) + (xi - s[i]) * Pow(0x100, i) == Eval(s[..i], 0x100)
    ensures Eval(r + [xi % 0x100], 0x100) + (xi / 0x100) * Pow(0x100, i + 1) == Eval(s[..i + 1], 0x100)
  {
    var r', w := r + [xi % 0x100], Pow(0x100, i);
    assert r'[..i] == r;
    EvalSnoc(s, i, 0x100);
    EmitAlgebra(xi, s[i], w);
  }

  lemma EmitAlgebra(x: int, s: int, w: int)
    ensures (x - s) * w == (x % 0x100) * w + (x / 0x100) * (0x100 * w) - s * w
  {
    MulAssoc(x / 0x100, 0x100, w);
    MulDistribute(x % 0x100, (x / 0x100) * 0x100, w);
    MulDistribute(x, -s, w);
  }

  /** The last loop: propagate and store bytes; what leaves the top is dropped. */
  method Emit(r: array<u8>, off: nat, x: array<i64>) returns (ghost over: int)
    requires x.Length == 64 && off + 32 <= r.Length
    requires x[32] == 0 && forall k :: 0 <= k < 32 ==> 0 <= x[k] < 0x200
    modifies r, x
    ensures Eval(r[off..off + 32], 0x100) + over * Pow(0x100, 32) == old(Eval(x[..32], 0x100))
    ensures forall k :: 0 <= k < r.Length && !(off <= k < off + 32) ==> r[k] == old(r[k])
  {
    ghost var s: seq<int> := x[..];
    assert r[off..off] == [] && s[..0] == [];
    for i := 0 to 32
      invariant forall k :: i < k < 64 ==> x[k] == s[k]
      invariant s[i] <= x[i] <= s[i] + 2
      invariant Eval(r[off..off + i], 0x100) + (x[i] - s[i]) * Pow(0x100, i) == Eval(s[..i], 0x100)
      invariant forall k :: 0 <= k < r.Length && !(off <= k < off + i) ==> r[k] == old(r[k])
    {
      EmitStep(r[off..off + i], s, i, x[i]);
      ghost var done := r[off..off + i];
      x[i + 1] := x[i + 1] + x[i] / 0x100;
      r[off + i] := x[i] % 0x100;
      assert r[off..off + i + 1] == done + [r[off + i]];
    }
    over := x[32];
    assert s[..32] == old(x[..32]);
  }

  /** The quotient guess leaves a borrow of 0 or -1. */
  lemma FinalCarry(d: int, x: int, carry: int, two256: int)
    requires two256 == 16 * (ORDER - LOW) && -ORDER < d < ORDER
    requires x + carry * two256 == d && 0 <= x < two256
    ensures carry == (if d < 0 then -1 else 0)
  {
    if carry >= 1 { MulMonotone(1, carry, two256); }
    if carry <= -2 { MulMonotone(carry, -2, two256); }
  }

  lemma Residue(d: int, carry: int, over: int, r: int, two256: int)
    requires two256 == 16 * (ORDER - LOW) && -ORDER < d < ORDER && carry == (if d < 0 then -1 else 0)
    requires r + over * two256 == d - carry * two256 - carry * ORDER && 0 <= r < two256
    ensures r == d % ORDER
  {
    var e := if d < 0 then d + ORDER else d;
    assert two256 * (-carry - over) == -carry * two256 - over * two256;
    MultipleBelow(two256, -carry - over, r - e);
    ModIntro(e, d, if d < 0 then 1 else 0, ORDER);
    ModSmall(e, ORDER);
  }

  lemma LowHalfValue(x: seq<int>)
    requires |x| == 64 && forall k :: 32 <= k < 64 ==> x[k] == 0
    ensures Eval(x, 0x100) == Eval(x[..32], 0x100)
  {
    EvalSplit(x, 32, 0x100);
    EvalZero(x[32..], 0x100);
  }

  /** The loops of modL below the eliminations: from 32 small digits to the canonical residue. */
  method Canonical(r: array<u8>, off: nat, x: array<i64>, t: seq<int>)
    requires IsTable(t) && x.Length == 64 && off + 32 <= r.Length && Bounded(x[..], 32)
    modifies r, x
    ensures Eval(r[off..off + 32], 0x100) == old(Eval(x[..], 0x100)) % ORDER
    ensures forall k :: 0 <= k < r.Length && !(off <= k < off + 32) ==> r[k] == old(r[k])
  {
    ghost var s: seq<int> := x[..];
    ghost var two256 := Pow(0x100, 32);
    OrderSplit(31);
    LowHalfValue(s);
    assert forall k :: 0 <= k < 32 ==> -129 <= s[k] <= 129;
    QuotientGuess(s[..32]);
    ghost var d := Eval(s, 0x100) - (s[31] / 16) * ORDER;
    ModIntro(d, Eval(s, 0x100), -(s[31] / 16), ORDER);
    var carry := SubtractQuotient(x, t);
    LowHalfValue(x[..]);
    assert x[..][..32] == x[..32];
    EvalNormal(x[..32], 0x100);
    FinalCarry(d, Eval(x[..32], 0x100), carry, two256);
    AddBack(x, carry, t);
    ghost var over := Emit(r, off, x);
    EvalNormal(r[off..off + 32], 0x100);
    Residue(d, carry, over, Eval(r[off..off + 32], 0x100), two256);
  }

  /** modL: the 32 bytes at r + off become the residue of x modulo the group order. */
  method ModL(r: array<u8>, off: nat, x: array<i64>)
    requires x.Length == 64 && off + 32 <= r.Length
    requires forall k :: 0 <= k < 64 ==> 0 <= x[k] <= 0x20_0000
    modifies r, x
    ensures Eval(r[off..off + 32], 0x100) == old(Eval(x[..], 0x100)) % ORDER
    ensures forall k :: 0 <= k < r.Length && !(off <= k < off + 32) ==> r[k] == old(r[k])
  {
    Table();
    for i := 64 downto 32
      invariant Bounded(x[..], i) && Eval(x[..], 0x100) % ORDER == old(Eval(x[..], 0x100)) % ORDER
      modifies x
    {
      EliminateTop(x, i, L);
    }
    Canonical(r, off, x, L);
  }

  /** reduce: replace 64 bytes by their residue in 32 bytes, zero above. */
  method Reduce(r: array<u8>)
    requires r.Length == 64
    modifies r
    ensures Eval(r[..32], 0x100) == old(Eval(r[..], 0x100)) % ORDER
    ensures forall k :: 32 <= k < 64 ==> r[k] == 0
  {
    ghost var bytes: seq<int> := r[..];
    var x := new i64[64];
    for i := 0 to 64
      invariant forall k :: 0 <= k < i ==> x[k] == bytes[k]
      modifies x
    {
      x[i] := r[i];
    }
    for i := 0 to 64
      invariant forall k :: 0 <= k < i ==> r[k] == 0
      modifies r
    {
      r[i] := 0;
    }
    assert x[..] == bytes;
    ModL(r, 0, x);
    assert r[0..32] == r[..32];
  }
}
