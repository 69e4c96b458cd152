/** Points of the Ed25519 curve as four limb arrays (add, cswap, scalarmult, scalarbase and pack of
    curve25519.c): the limb code computes the addition formulas of section 5.1.4 of RFC 8032 and the
    ladder over them, and every operand of a multiplication stays below 2^26. */
module Edwards {
  import opened Arith
  import opened Digits
  import opened Field25519
  import opened X25519
  import Ed25519

  // ------------------------------------------------ section 5.1.4 of RFC 8032

  /** d = -121665/121666 */
  const D: int := 0x5203_6cee_2b6f_fe73_8cc7_4079_7779_e898_0070_0a4d_4141_d8ab_75eb_4dca_1359_78a3

  /** Extended homogeneous coordinates in [0, P). */
  datatype Coords = Coords(x: int, y: int, z: int, t: int)

  const ZERO: Coords := Coords(0, 1, 1, 0)

  /** The formulas modulo m, with k for 2d. */
  function AddMod(p: Coords, q: Coords, k: int, m: int): Coords
    requires m > 0
  {
    var a := (p.y - p.x) * (q.y - q.x);
    var b := (p.y + p.x) * (q.y + q.x);
    var c := p.t * k * q.t;
    var d := p.z * 2 * q.z;
    var e, f, g, h := b - a, d - c, d + c, b + a;
    Coords((e * f) % m, (g * h) % m, (f * g) % m, (e * h) % m)
  }

  function AddCoords(p: Coords, q: Coords): Coords
  {
    AddMod(p, q, 2 * D, P)
  }

  /** The product x*y stays z*t, which makes the four coordinates one point. */
  ghost predicate Coherent(c: Coords, m: int)
    requires m > 0
  {
    (c.x * c.y) % m == (c.z * c.t) % m
  }

  lemma AddCoherent(p: Coords, q: Coords, k: int, m: int)
    requires m > 0
    ensures Coherent(AddMod(p, q, k, m), m)
  {
    var a := (p.y - p.x) * (q.y - q.x);
    var b := (p.y + p.x) * (q.y + q.x);
    var c := p.t * k * q.t;
    var d := p.z * 2 * q.z;
    FourProduct(b - a, d - c, d + c, b + a, m);
  }

  lemma FourProduct(e: int, f: int, g: int, h: int, m: int)
    requires m > 0
    ensures (((e * f) % m) * ((g * h) % m)) % m == (((f * g) % m) * ((e * h) % m)) % m
  {
    MulReduced((e * f) % m, e * f, (g * h) % m, g * h, m);
    MulReduced((f * g) % m, f * g, (e * h) % m, e * h, m);
    MulSwap(f, g, e, h);
    assert f * e == e * f && (f * e) * (g * h) == (f * g) * (e * h);
  }

  // ------------------------------------------------------------ limb arrays

  datatype Point = Point(x: array<i64>, y: array<i64>, z: array<i64>, t: array<i64>)

  ghost predicate Proper(p: Point)
  {
    p.x != p.y && p.x != p.z && p.x != p.t && p.y != p.z && p.y != p.t && p.z != p.t
  }

  ghost function Arrays(p: Point): set<object>
  {
    {p.x, p.y, p.z, p.t}
  }

  ghost predicate SmallPoint(p: Point)
    reads p.x, p.y, p.z, p.t
  {
    Small(p.x[..]) && Small(p.y[..]) && Small(p.z[..]) && Small(p.t[..])
  }

  ghost function Value(p: Point): Coords
    reads p.x, p.y, p.z, p.t
  {
    Coords(Elem(p.x[..]), Elem(p.y[..]), Elem(p.z[..]), Elem(p.t[..]))
  }

  ghost predicate Wide(s: seq<int>)
  {
    |s| == 16 && Within(s, 0x8_0000)
  }

  method WideProduct(o: array<i64>, a: array<i64>, b: array<i64>)
    requires o.Length == 16 && Wide(a[..]) && Wide(b[..])
    modifies o
    ensures Small(o[..]) && Elem(o[..]) == (old(Elem(a[..])) * old(Elem(b[..]))) % P
  {
    M(o, a, b);
    ReducedWithin(o[..]);
  }

  method WideSum(a: array<i64>, b: array<i64>) returns (o: array<i64>)
    requires Medium(a[..]) && Medium(b[..])
    ensures fresh(o) && Wide(o[..]) && Elem(o[..]) == (Elem(a[..]) + Elem(b[..])) % P
  {
    o := new i64[16];
    assert forall k :: 0 <= k < 16 ==> a[k] == a[..][k] && b[k] == b[..][k];
    A(o, a, b);
  }

  method WideDifference(a: array<i64>, b: array<i64>) returns (o: array<i64>)
    requires Medium(a[..]) && Medium(b[..])
    ensures fresh(o) && Wide(o[..]) && Elem(o[..]) == (Elem(a[..]) - Elem(b[..])) % P
  {
    o := new i64[16];
    assert forall k :: 0 <= k < 16 ==> a[k] == a[..][k] && b[k] == b[..][k];
    Z(o, a, b);
  }

  // ------------------------------------------------------------------- add

  /** (u - v) * (w - s), and with a sum instead. */
  method DifferenceProduct(u: array<i64>, v: array<i64>, w: array<i64>, s: array<i64>) returns (o: array<i64>)
    requires Small(u[..]) && Small(v[..]) && Small(w[..]) && Small(s[..])
    ensures fresh(o) && Small(o[..])
    ensures Elem(o[..]) == (((Elem(u[..]) - Elem(v[..])) % P) * ((Elem(w[..]) - Elem(s[..])) % P)) % P
  {
    o := new i64[16];
    var t := new i64[16];
    Difference(o, u, v);
    Difference(t, w, s);
    Product(o, o, t);
  }

  method SumProduct(u: array<i64>, v: array<i64>, w: array<i64>, s: array<i64>) returns (o: array<i64>)
    requires Small(u[..]) && Small(v[..]) && Small(w[..]) && Small(s[..])
    ensures fresh(o) && Small(o[..])
    ensures Elem(o[..]) == (((Elem(u[..]) + Elem(v[..])) % P) * ((Elem(w[..]) + Elem(s[..])) % P)) % P
  {
    o := new i64[16];
    var t := new i64[16];
    Sum(o, u, v);
    Sum(t, w, s);
    Product(o, o, t);
  }

  /** t1 * t2 * D2 */
  method ScaledProduct(t1: array<i64>, t2: array<i64>, d2: array<i64>) returns (o: array<i64>)
    requires Small(t1[..]) && Small(t2[..]) && Small(d2[..])
    ensures fresh(o) && Small(o[..]) && Elem(o[..]) == (((Elem(t1[..]) * Elem(t2[..])) % P) * Elem(d2[..])) % P
  {
    SmallMedium(t1[..]);
    SmallMedium(t2[..]);
    SmallMedium(d2[..]);
    o := new i64[16];
    Product(o, t1, t2);
    SmallMedium(o[..]);
    Product(o, o, d2);
  }

  /** z1 * z2, doubled */
  method DoubledProduct(z1: array<i64>, z2: array<i64>) returns (o: array<i64>)
    requires Small(z1[..]) && Small(z2[..])
    ensures fresh(o) && Medium(o[..])
            && Elem(o[..]) == ((Elem(z1[..]) * Elem(z2[..])) % P + (Elem(z1[..]) * Elem(z2[..])) % P) % P
  {
    SmallMedium(z1[..]);
    SmallMedium(z2[..]);
    o := new i64[16];
    Product(o, z1, z2);
    Sum(o, o, o);
  }

  /** The four products of add, in the order it computes them. */
  ghost predicate Products(p: Coords, q: Coords, a: int, b: int, c: int, d: int, k: int, m: int)
    requires m > 0
  {
    && a == (((p.y - p.x) % m) * ((q.y - q.x) % m)) % m
    && b == (((p.x + p.y) % m) * ((q.x + q.y) % m)) % m
    && c == (((p.t * q.t) % m) * (k % m)) % m
    && d == ((p.z * q.z) % m + (p.z * q.z) % m) % m
  }

  /** What add makes of them. */
  function FromProducts(a: int, b: int, c: int, d: int, m: int): Coords
    requires m > 0
  {
    var e, f, g, h := (b - a) % m, (d - c) % m, (d + c) % m, (b + a) % m;
    Coords((e * f) % m, (h * g) % m, (g * f) % m, (e * h) % m)
  }

  lemma ReducedProduct(x: int, y: int, m: int)
    requires m > 0
    ensures ((x % m) * (y % m)) % m % m == (x * y) % m
  {
    ModMod(x, m);
    ModMod(y, m);
    ModMul(x % m, x, y % m, y, m);
    ModMod((x % m) * (y % m), m);
  }

  lemma ReducedDouble(v: int, m: int)
    requires m > 0
    ensures (v % m + v % m) % m % m == (2 * v) % m
  {
    ModMod(v, m);
    ModAdd(v % m, v, v % m, v, m);
    ModMod(v % m + v % m, m);
  }

  lemma MulReduced(x: int, x': int, y: int, y': int, m: int)
    requires m > 0 && x == x' % m && y == y' % m
    ensures (x * y) % m == (x' * y') % m
  {
    ModMod(x', m);
    ModMod(y', m);
    ModMul(x, x', y, y', m);
  }

  lemma ProductsCongruent(p: Coords, q: Coords, a: int, b: int, c: int, d: int, k: int, m: int)
    requires m > 0 && Products(p, q, a, b, c, d, k, m)
    ensures a % m == ((p.y - p.x) * (q.y - q.x)) % m && b % m == ((p.y + p.x) * (q.y + q.x)) % m
    ensures c % m == (p.t * k * q.t) % m && d % m == (p.z * 2 * q.z) % m
  {
    ReducedProduct(p.y - p.x, q.y - q.x, m);
    ReducedProduct(p.x + p.y, q.x + q.y, m);
    ReducedProduct(p.t * q.t, k, m);
    ReducedDouble(p.z * q.z, m);
    assert p.t * q.t * k == p.t * k * q.t by { MulAssoc(p.t, q.t, k); MulAssoc(p.t, k, q.t); }
    assert 2 * (p.z * q.z) == p.z * 2 * q.z by { MulAssoc(p.z, 2, q.z); MulAssoc(2, p.z, q.z); }
  }

  /** The order of the code and of the formulas makes no difference. */
  lemma AddFrom(p: Coords, q: Coords, a: int, b: int, c: int, d: int, k: int, m: int)
    requires m > 0 && Products(p, q, a, b, c, d, k, m)
    ensures FromProducts(a, b, c, d, m) == AddMod(p, q, k, m)
  {
    ProductsCongruent(p, q, a, b, c, d, k, m);
    var a', b' := (p.y - p.x) * (q.y - q.x), (p.y + p.x) * (q.y + q.x);
    var c', d' := p.t * k * q.t, p.z * 2 * q.z;
    var e, f, g, h := (b - a) % m, (d - c) % m, (d + c) % m, (b + a) % m;
    ModSub(b, b', a, a', m);
    ModSub(d, d', c, c', m);
    ModAdd(d, d', c, c', m);
    ModAdd(b, b', a, a', m);
    MulReduced(e, b' - a', f, d' - c', m);
    MulReduced(g, d' + c', h, b' + a', m);
    MulReduced(f, d' - c', g, d' + c', m);
    MulReduced(e, b' - a', h, b' + a', m);
    assert h * g == g * h && g * f == f * g;
  }

  method FourProducts(p: Point, q: Point, d2: array<i64>)
    returns (a: array<i64>, b: array<i64>, c: array<i64>, d: array<i64>)
    requires SmallPoint(p) && SmallPoint(q) && Small(d2[..]) && Elem(d2[..]) == (2 * D) % P
    ensures fresh(a) && fresh(b) && fresh(c) && fresh(d)
    ensures Small(a[..]) && Small(b[..]) && Small(c[..]) && Medium(d[..])
    ensures Products(Value(p), Value(q), Elem(a[..]), Elem(b[..]), Elem(c[..]), Elem(d[..]), 2 * D, P)
  {
    a := DifferenceProduct(p.y, p.x, q.y, q.x);
    b := SumProduct(p.x, p.y, q.x, q.y);
    c := ScaledProduct(p.t, q.t, d2);
    d := DoubledProduct(p.z, q.z);
  }

  method StoreProducts(p: Point, a: array<i64>, b: array<i64>, c: array<i64>, d: array<i64>)
    requires Proper(p) && p.x.Length == p.y.Length == p.z.Length == p.t.Length == 16
    requires Small(a[..]) && Small(b[..]) && Small(c[..]) && Medium(d[..]) && {a, b, c, d} !! Arrays(p)
    modifies p.x, p.y, p.z, p.t
    ensures SmallPoint(p) && Value(p) == FromProducts(Elem(a[..]), Elem(b[..]), Elem(c[..]), Elem(d[..]), P)
  {
    SmallMedium(a[..]);
    SmallMedium(b[..]);
    SmallMedium(c[..]);
    var e := WideDifference(b, a);
    var f := WideDifference(d, c);
    var g := WideSum(d, c);
    var h := WideSum(b, a);
    WideProduct(p.x, e, f);
    WideProduct(p.y, h, g);
    WideProduct(p.z, g, f);
    WideProduct(p.t, e, h);
  }

  /** add: p becomes p + q; q may be p. */
  method Add(p: Point, q: Point, d2: array<i64>)
    requires Proper(p) && SmallPoint(p) && SmallPoint(q) && (p == q || Arrays(p) !! Arrays(q))
    requires Small(d2[..]) && Elem(d2[..]) == (2 * D) % P && d2 !in Arrays(p)
    modifies p.x, p.y, p.z, p.t
    ensures SmallPoint(p) && Value(p) == AddCoords(old(Value(p)), old(Value(q)))
  {
    var a, b, c, d := FourProducts(p, q, d2);
    AddFrom(Value(p), Value(q), Elem(a[..]), Elem(b[..]), Elem(c[..]), Elem(d[..]), 2 * D, P);
    StoreProducts(p, a, b, c, d);
  }

  // ------------------------------------------------------------- scalarmult

  /** cswap */
  method CSwap(p: Point, q: Point, b: int)
    requires Proper(p) && Proper(q) && Arrays(p) !! Arrays(q) && SmallPoint(p) && SmallPoint(q) && 0 <= b <= 1
    modifies p.x, p.y, p.z, p.t, q.x, q.y, q.z, q.t
    ensures SmallPoint(p) && SmallPoint(q)
    ensures Value(p) == old(if b == 1 then Value(q) else Value(p))
            && Value(q) == old(if b == 1 then Value(p) else Value(q))
  {
    Sel25519(p.x, q.x, b);
    Sel25519(p.y, q.y, b);
    Sel25519(p.z, q.z, b);
    Sel25519(p.t, q.t, b);
  }

  /** The ladder over bits, least significant first, for any addition: the pair (k * q, (k + 1) * q) for
      the number k that they make. */
  function Ladder<C>(add: (C, C) -> C, zero: C, q: C, bits: seq<bool>): (C, C)
  {
    if bits == [] then (zero, q) else Doubled(add, Ladder(add, zero, q, bits[1..]), bits[0])
  }

  function Doubled<C>(add: (C, C) -> C, uv: (C, C), b: bool): (C, C)
  {
    if b then (add(uv.1, uv.0), add(uv.1, uv.1)) else (add(uv.0, uv.0), add(uv.1, uv.0))
  }

  /** The lowest k bits of a number. */
  function BitsOf(n: int, k: nat): (s: seq<bool>)
    ensures |s| == k && forall i :: 0 <= i < k ==> (s[i] <==> Bit(n, i))
  {
    if k == 0 then [] else BitsOf(n, k - 1) + [Bit(n, k - 1)]
  }

  /** The number that bits make. */
  function FromBits(bits: seq<bool>): nat
  {
    if bits == [] then 0 else 2 * FromBits(bits[1..]) + if bits[0] then 1 else 0
  }

  lemma {:induction false} UpperBits(n: nat, bits: seq<bool>, i: nat)
    requires i <= |bits| && n < Pow(2, |bits|) && forall j :: 0 <= j < |bits| ==> (bits[j] <==> Bit(n, j))
    ensures Pow(2, i) > 0 && FromBits(bits[i..]) == n / Pow(2, i)
    decreases |bits| - i
  {
    PowPositive(2, i);
    if i == |bits| {
      DivOf(n, Pow(2, i), 0, n);
    } else {
      UpperBits(n, bits, i + 1);
      Ed25519.ShiftIn(n, i);
      assert bits[i..][1..] == bits[i + 1..];
    }
  }

  lemma AllBits(n: nat, k: nat)
    requires n < Pow(2, k)
    ensures FromBits(BitsOf(n, k)) == n
  {
    var bits := BitsOf(n, k);
    UpperBits(n, bits, 0);
    assert bits[0..] == bits && Pow(2, 0) == 1;
  }

  lemma AddCommutes(p: Coords, q: Coords, k: int, m: int)
    requires m > 0
    ensures AddMod(p, q, k, m) == AddMod(q, p, k, m)
  {
    assert (p.y - p.x) * (q.y - q.x) == (q.y - q.x) * (p.y - p.x);
    assert (p.y + p.x) * (q.y + q.x) == (q.y + q.x) * (p.y + p.x);
    assert p.t * k * q.t == q.t * k * p.t by { MulAssoc(p.t, k, q.t); MulAssoc(q.t, k, p.t); }
    assert p.z * 2 * q.z == q.z * 2 * p.z by { MulAssoc(p.z, 2, q.z); MulAssoc(q.z, 2, p.z); }
  }

  /** One iteration of scalarmult. */
  method LadderStep(p: Point, q: Point, d2: array<i64>, b: int)
    requires Proper(p) && Proper(q) && Arrays(p) !! Arrays(q) && SmallPoint(p) && SmallPoint(q) && 0 <= b <= 1
    requires Small(d2[..]) && Elem(d2[..]) == (2 * D) % P && d2 !in Arrays(p) && d2 !in Arrays(q)
    modifies p.x, p.y, p.z, p.t, q.x, q.y, q.z, q.t
    ensures SmallPoint(p) && SmallPoint(q)
    ensures (Value(p), Value(q)) == Doubled(AddCoords, old((Value(p), Value(q))), b == 1)
  {
    AddCommutes(Value(p), Value(q), 2 * D, P);
    CSwap(p, q, b);
    Add(q, p, d2);
    Add(p, p, d2);
    CSwap(p, q, b);
  }

  method Constant16(c: seq<i64>) returns (a: array<i64>)
    requires |c| == 16 && Normal(c, RADIX)
    ensures fresh(a) && a[..] == c && Small(a[..]) && Elem(a[..]) == Eval(c, RADIX) % P
  {
    a := new i64[16];
    for i := 0 to 16
      invariant forall k :: 0 <= k < i ==> a[k] == c[k]
    {
      a[i] := c[i];
    }
    assert a[..] == c;
  }

  /** scalarmult: p becomes the multiple of q by the number in s, over the addition formulas. */
  method ScalarMult(p: Point, q: Point, s: seq<u8>, d2: array<i64>)
    requires Proper(p) && Proper(q) && Arrays(p) !! Arrays(q) && SmallPoint(p) && SmallPoint(q) && |s| == 32
    requires Value(p) == ZERO
    requires Small(d2[..]) && Elem(d2[..]) == (2 * D) % P && d2 !in Arrays(p) && d2 !in Arrays(q)
    modifies p.x, p.y, p.z, p.t, q.x, q.y, q.z, q.t
    ensures SmallPoint(p) && SmallPoint(q)
    ensures (Value(p), Value(q)) == Ladder(AddCoords, ZERO, old(Value(q)), BitsOf(Ed25519.Number(s), 8 * |s|))
  {
    ghost var bits, base := BitsOf(Ed25519.Number(s), 8 * |s|), Value(q);
    for i := 8 * |s| downto 0
      invariant SmallPoint(p) && SmallPoint(q) && (Value(p), Value(q)) == Ladder(AddCoords, ZERO, base, bits[i..])
    {
      assert bits[i..][0] == bits[i] && bits[i..][1..] == bits[i + 1..];
      ByteBit(s, i);
      var b := (s[i / 8] / Pow(2, i % 8)) % 2;
      LadderStep(p, q, d2, b);
    }
    assert bits[0..] == bits;
  }

  // -------------------------------------------------- the group it stands for

  /** Which coordinates stand for which group elements, and how coordinates are added. */
  datatype Meaning<!C, !G> = Meaning(add: (C, C) -> C, zero: C, stands: (C, G) -> bool)

  ghost predicate Respects<C, G>(g: Ed25519.Group<G>, m: Meaning<C, G>, c: C, d: C, x: G, y: G)
  {
    m.stands(c, x) && m.stands(d, y) ==> m.stands(m.add(c, d), g.add(x, y))
  }

  /** The addition of coordinates computes the addition of the group. */
  ghost predicate Models<C(!new), G(!new)>(g: Ed25519.Group<G>, m: Meaning<C, G>)
  {
    Ed25519.Abelian(g) && m.stands(m.zero, g.zero) && forall c, d, x, y :: Respects(g, m, c, d, x, y)
  }

  lemma DoubledStands<C(!new), G(!new)>(g: Ed25519.Group<G>, m: Meaning<C, G>, uv: (C, C), x: G, k: nat, b: bool)
    requires Models(g, m) && m.stands(uv.0, Ed25519.Times(g, k, x)) && m.stands(uv.1, Ed25519.Times(g, k + 1, x))
    ensures var r, n := Doubled(m.add, uv, b), 2 * k + if b then 1 else 0;
      m.stands(r.0, Ed25519.Times(g, n, x)) && m.stands(r.1, Ed25519.Times(g, n + 1, x))
  {
    Ed25519.LadderStep(g, k, x);
    var (u, v) := uv;
    var kx, lx := Ed25519.Times(g, k, x), Ed25519.Times(g, k + 1, x);
    assert Respects(g, m, u, u, kx, kx) && Respects(g, m, v, u, lx, kx) && Respects(g, m, v, v, lx, lx);
  }

  /** So the ladder computes the multiple, for every scalar and point. */
  lemma {:induction false} LadderStands<C(!new), G(!new)>(g: Ed25519.Group<G>, m: Meaning<C, G>, q: C, x: G,
                                                          bits: seq<bool>)
    requires Models(g, m) && m.stands(q, x)
    ensures m.stands(Ladder(m.add, m.zero, q, bits).0, Ed25519.Times(g, FromBits(bits), x))
    ensures m.stands(Ladder(m.add, m.zero, q, bits).1, Ed25519.Times(g, FromBits(bits) + 1, x))
  {
    if bits == [] {
      assert Ed25519.Times(g, 1, x) == x by { assert Ed25519.Commutes(g, g.zero, x); assert Ed25519.Neutral(g, x); }
    } else {
      LadderStands(g, m, q, x, bits[1..]);
      DoubledStands(g, m, Ladder(m.add, m.zero, q, bits[1..]), x, FromBits(bits[1..]), bits[0]);
    }
  }

  /** scalarmult on limbs yields coordinates of the multiple, in any group that the addition formulas
      model; sections 3 and 5.1.4 of RFC 8032 say that the curve is one. */
  method ScalarMultiple<G(!new)>(p: Point, q: Point, s: seq<u8>, d2: array<i64>,
                                 ghost g: Ed25519.Group<G>, ghost m: Meaning<Coords, G>, ghost x: G)
    requires Proper(p) && Proper(q) && Arrays(p) !! Arrays(q) && SmallPoint(p) && SmallPoint(q) && |s| == 32
    requires m.add == AddCoords && m.zero == ZERO && Models(g, m) && Value(p) == ZERO && m.stands(Value(q), x)
    requires Small(d2[..]) && Elem(d2[..]) == (2 * D) % P && d2 !in Arrays(p) && d2 !in Arrays(q)
    modifies p.x, p.y, p.z, p.t, q.x, q.y, q.z, q.t
    ensures SmallPoint(p) && m.stands(Value(p), Ed25519.Times(g, Ed25519.Number(s), x))
  {
    ScalarBound(s);
    AllBits(Ed25519.Number(s), 8 * |s|);
    LadderStands(g, m, Value(q), x, BitsOf(Ed25519.Number(s), 8 * |s|));
    ScalarMult(p, q, s, d2);
  }

  lemma ScalarBound(s: seq<u8>)
    requires |s| == 32
    ensures Ed25519.Number(s) < Pow(2, 8 * |s|)
  {
    EvalNormal(s, 0x100);
    PowMul(2, 8, |s|);
    assert Pow(2, 8) == 0x100;
  }

  // ------------------------------------------------------------------- pack

  /** par25519: the lowest bit of the reduced element. */
  method Parity(a: array<i64>) returns (b: int)
    requires a.Length == 16 && Within(a[..], 0x4000_0000_0000_0000)
    ensures b == Elem(a[..]) % 2
  {
    var d := new u8[32];
    Pack25519(d, a);
    EvalHead(d[..], 0x100);
    ModIntro(Eval(d[..], 0x100), d[0], 0x80 * Eval(d[..][1..], 0x100), 2);
    b := d[0] % 2;
  }

  /** The affine coordinates of a point. */
  function Affine(c: Coords): (int, int)
  {
    var zi := Pow(c.z, P - 2) % P;
    ((c.x * zi) % P, (c.y * zi) % P)
  }

  lemma TopByteFree(r: seq<int>, v: int)
    requires |r| == 32 && Normal(r, 0x100) && Eval(r, 0x100) == v && 0 <= v < P
    ensures r[31] < 0x80 && Pow(0x100, 31) * 0x80 == TWO255
  {
    var w := Pow(0x100, 31);
    TopBytePower(31);
    EvalNormal(r[..31], 0x100);
    if r[31] >= 0x80 { MulMonotone(0x80, r[31], w); }
  }

  method Divide(p: Point) returns (tx: array<i64>, ty: array<i64>)
    requires SmallPoint(p)
    ensures fresh(tx) && fresh(ty) && Small(tx[..]) && Small(ty[..]) && (Elem(tx[..]), Elem(ty[..])) == Affine(Value(p))
  {
    var zi := new i64[16];
    tx, ty := new i64[16], new i64[16];
    Inv25519(zi, p.z);
    M(tx, p.x, zi);
    M(ty, p.y, zi);
    ReducedWithin(tx[..]);
    ReducedWithin(ty[..]);
  }

  method SetTopBit(r: array<u8>, b: int, ghost v: int)
    requires r.Length == 32 && 0 <= b <= 1 && Eval(r[..], 0x100) == v && 0 <= v < P
    modifies r
    ensures Eval(r[..], 0x100) == v + b * TWO255
  {
    ghost var was: seq<int> := r[..];
    TopByteFree(was, v);
    r[31] := r[31] + 0x80 * b;
    assert r[..] == was[31 := was[31] + 0x80 * b];
    EvalIncrease(was, 31, 0x80 * b, 0x100);
    assert (0x80 * b) * Pow(0x100, 31) == b * TWO255 by { MulAssoc(b, 0x80, Pow(0x100, 31)); }
  }

  /** pack: section 5.1.2 of RFC 8032, the y coordinate with the parity of x in the top bit. */
  method Pack(r: array<u8>, p: Point)
    requires r.Length == 32 && SmallPoint(p)
    modifies r
    ensures var (x, y) := Affine(Value(p)); Eval(r[..], 0x100) == y + (x % 2) * TWO255
  {
    var tx, ty := Divide(p);
    Pack25519(r, ty);
    var b := Parity(tx);
    SetTopBit(r, b, Elem(ty[..]));
  }

  // ------------------------------------------------------------- scalarbase

  const D2_LIMBS: seq<i64> := [0xf159, 0x26b2, 0x9b94, 0xebd6, 0xb156, 0x8283, 0x149a, 0x00e0,
                               0xd130, 0xeef3, 0x80f2, 0x198e, 0xfce7, 0x56df, 0xd9dc, 0x2406]
  const X_LIMBS: seq<i64> := [0xd51a, 0x8f25, 0x2d60, 0xc956, 0xa7b2, 0x9525, 0xc760, 0x692c,
                              0xdc5c, 0xfdd6, 0xe231, 0xc0a4, 0x53fe, 0xcd6e, 0x36d3, 0x2169]
  const Y_LIMBS: seq<i64> := [0x6658, 0x6666, 0x6666, 0x6666, 0x6666, 0x6666, 0x6666, 0x6666,
                              0x6666, 0x6666, 0x6666, 0x6666, 0x6666, 0x6666, 0x6666, 0x6666]

  const BASE_X: int := 0x2169_36d3_cd6e_53fe_c0a4_e231_fdd6_dc5c_692c_c760_9525_a7b2_c956_2d60_8f25_d51a
  const BASE_Y: int := 0x6666_6666_6666_6666_6666_6666_6666_6666_6666_6666_6666_6666_6666_6666_6666_6658

  lemma FourLimbs(s: seq<int>)
    requires |s| >= 4
    ensures Eval(s, RADIX) == s[0] + 0x1_0000 * s[1] + 0x1_0000_0000 * s[2] + 0x1_0000_0000_0000 * s[3]
                              + 0x1_0000_0000_0000_0000 * Eval(s[4..], RADIX)
  {
    EvalHead(s, RADIX);
    EvalHead(s[1..], RADIX);
    assert s[1..][1..] == s[2..];
    EvalHead(s[2..], RADIX);
    assert s[2..][1..] == s[3..];
    EvalHead(s[3..], RADIX);
    assert s[3..][1..] == s[4..];
  }

  lemma SixteenLimbs(s: seq<int>)
    requires |s| == 16
    ensures var q := (i: int) requires 0 <= i <= 12 =>
        s[i] + 0x1_0000 * s[i + 1] + 0x1_0000_0000 * s[i + 2] + 0x1_0000_0000_0000 * s[i + 3];
      var w := 0x1_0000_0000_0000_0000;
      Eval(s, RADIX) == q(0) + w * (q(4) + w * (q(8) + w * q(12)))
  {
    FourLimbs(s);
    FourLimbs(s[4..]);
    assert s[4..][4..] == s[8..];
    FourLimbs(s[8..]);
    assert s[8..][4..] == s[12..];
    FourLimbs(s[12..]);
    assert s[12..][4..] == [];
  }

  /** The tables hold 2d, where d is -121665/121666, and the base point of section 5.1 of RFC 8032. */
  lemma D2Table()
    ensures Eval(D2_LIMBS, RADIX) == (2 * D) % P && Normal(D2_LIMBS, RADIX) && (D * 121666) % P == (-121665) % P
  {
    SixteenLimbs(D2_LIMBS);
  }

  lemma XTable()
    ensures Eval(X_LIMBS, RADIX) == BASE_X && Normal(X_LIMBS, RADIX)
  {
    SixteenLimbs(X_LIMBS);
  }

  lemma YTable()
    ensures Eval(Y_LIMBS, RADIX) == BASE_Y && Normal(Y_LIMBS, RADIX)
  {
    SixteenLimbs(Y_LIMBS);
  }

  /** The base point is on the curve; its y is 4/5 and its x is even. */
  lemma BaseOnCurve()
    ensures (5 * BASE_Y) % P == 4 && BASE_X % 2 == 0 && 0 <= BASE_X < P && 0 <= BASE_Y < P
    ensures var xx, yy := BASE_X * BASE_X, BASE_Y * BASE_Y; (yy - xx) % P == (1 + D * xx * yy) % P
  {}

  const BASE: Coords := Coords(BASE_X, BASE_Y, 1, (BASE_X * BASE_Y) % P)

  method BaseX() returns (a: array<i64>)
    ensures fresh(a) && Small(a[..]) && Elem(a[..]) == BASE_X
  {
    XTable();
    ModSmall(BASE_X, P);
    a := Constant16(X_LIMBS);
  }

  method BaseY() returns (a: array<i64>)
    ensures fresh(a) && Small(a[..]) && Elem(a[..]) == BASE_Y
  {
    YTable();
    ModSmall(BASE_Y, P);
    a := Constant16(Y_LIMBS);
  }

  method TwiceD() returns (a: array<i64>)
    ensures fresh(a) && Small(a[..]) && Elem(a[..]) == (2 * D) % P
  {
    D2Table();
    ModMod(2 * D, P);
    a := Constant16(D2_LIMBS);
  }

  method BasePoint() returns (q: Point)
    ensures Proper(q) && fresh(q.x) && fresh(q.y) && fresh(q.z) && fresh(q.t) && SmallPoint(q) && Value(q) == BASE
  {
    var x := BaseX();
    var y := BaseY();
    var z := Constant(1, 0);
    var t := new i64[16];
    SmallMedium(x[..]);
    SmallMedium(y[..]);
    Product(t, x, y);
    q := Point(x, y, z, t);
  }

  /** The start of scalarmult. */
  method ZeroPoint() returns (p: Point)
    ensures Proper(p) && fresh(p.x) && fresh(p.y) && fresh(p.z) && fresh(p.t) && SmallPoint(p) && Value(p) == ZERO
  {
    var x := Constant(0, 0);
    var y := Constant(1, 0);
    var z := Constant(1, 0);
    var t := Constant(0, 0);
    p := Point(x, y, z, t);
  }

  /** scalarbase: the multiple of the base point. */
  method ScalarBase(s: seq<u8>) returns (p: Point)
    requires |s| == 32
    ensures Proper(p) && fresh(p.x) && fresh(p.y) && fresh(p.z) && fresh(p.t) && SmallPoint(p)
    ensures Value(p) == Ladder(AddCoords, ZERO, BASE, BitsOf(Ed25519.Number(s), 8 * |s|)).0
  {
    var q := BasePoint();
    var d2 := TwiceD();
    p := ZeroPoint();
    ScalarMult(p, q, s, d2);
  }
}
