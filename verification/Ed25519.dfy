/** Ed25519 over any commutative group: the scalar side of signing (curve25519.c), what verification
    accepts, and how that compares with RFC 8032. The group, its encoding and SHA-512 are parameters. */
module Ed25519 {
  import opened Arith
  import opened Common
  import opened Digits
  import opened ScalarModL
  import X25519

  datatype Group<!G> = Group(zero: G, add: (G, G) -> G, neg: G -> G)

  // The laws are stated through these names so that they are used only where they are called for.
  ghost predicate Commutes<G>(g: Group<G>, x: G, y: G) { g.add(x, y) == g.add(y, x) }
  ghost predicate Associates<G>(g: Group<G>, x: G, y: G, z: G) { g.add(g.add(x, y), z) == g.add(x, g.add(y, z)) }
  ghost predicate Neutral<G>(g: Group<G>, x: G) { g.add(x, g.zero) == x }
  ghost predicate Cancels<G>(g: Group<G>, x: G) { g.add(x, g.neg(x)) == g.zero }

  ghost predicate Abelian<G(!new)>(g: Group<G>)
  {
    && (forall x, y :: Commutes(g, x, y))
    && (forall x, y, z :: Associates(g, x, y, z))
    && (forall x :: Neutral(g, x))
    && (forall x :: Cancels(g, x))
  }

  /** The sum of n copies of x. */
  function Times<G>(g: Group<G>, n: nat, x: G): G
  {
    if n == 0 then g.zero else g.add(Times(g, n - 1, x), x)
  }

  lemma {:induction false} TimesAdd<G(!new)>(g: Group<G>, m: nat, n: nat, x: G)
    requires Abelian(g)
    ensures Times(g, m + n, x) == g.add(Times(g, m, x), Times(g, n, x))
  {
    if n == 0 {
      assert Neutral(g, Times(g, m, x));
    } else {
      TimesAdd(g, m, n - 1, x);
      assert Associates(g, Times(g, m, x), Times(g, n - 1, x), x);
    }
  }

  lemma {:induction false} TimesZero<G(!new)>(g: Group<G>, n: nat)
    requires Abelian(g)
    ensures Times(g, n, g.zero) == g.zero
  {
    if n > 0 { TimesZero(g, n - 1); assert Neutral(g, g.zero); }
  }

  lemma {:induction false} TimesMul<G(!new)>(g: Group<G>, m: nat, n: nat, x: G)
    requires Abelian(g)
    ensures m * n >= 0 && Times(g, m * n, x) == Times(g, m, Times(g, n, x))
  {
    if m == 0 {
      assert m * n == 0;
    } else {
      TimesMul(g, m - 1, n, x);
      assert m * n == (m - 1) * n + n;
      TimesAdd(g, (m - 1) * n, n, x);
    }
  }

  /** (a + x) + (b + y) = (a + b) + (x + y) */
  lemma AddSwap<G(!new)>(g: Group<G>, a: G, x: G, b: G, y: G)
    requires Abelian(g)
    ensures g.add(g.add(a, x), g.add(b, y)) == g.add(g.add(a, b), g.add(x, y))
  {
    calc {
      g.add(g.add(a, x), g.add(b, y));
      { assert Associates(g, a, x, g.add(b, y)); }
      g.add(a, g.add(x, g.add(b, y)));
      { assert Associates(g, x, b, y); assert Commutes(g, x, b); assert Associates(g, b, x, y); }
      g.add(a, g.add(b, g.add(x, y)));
      { assert Associates(g, a, b, g.add(x, y)); }
      g.add(g.add(a, b), g.add(x, y));
    }
  }

  /** n times the inverse of x cancels n times x. */
  lemma {:induction false} TimesNeg<G(!new)>(g: Group<G>, n: nat, x: G)
    requires Abelian(g)
    ensures g.add(Times(g, n, x), Times(g, n, g.neg(x))) == g.zero
  {
    assert Neutral(g, g.zero);
    if n > 0 {
      TimesNeg(g, n - 1, x);
      AddSwap(g, Times(g, n - 1, x), x, Times(g, n - 1, g.neg(x)), g.neg(x));
      assert Cancels(g, x);
    }
  }

  ghost predicate Kills<G>(g: Group<G>, n: nat, x: G)
  {
    Times(g, n, x) == g.zero
  }

  /** Multiples of a point of order dividing L depend on the residue only. */
  lemma TimesResidue<G(!new)>(g: Group<G>, n: nat, x: G, order: nat)
    requires Abelian(g) && order > 0 && Kills(g, order, x)
    ensures Times(g, n % order, x) == Times(g, n, x)
  {
    var q := n / order;
    assert n == n % order + q * order;
    TimesAdd(g, n % order, q * order, x);
    TimesMul(g, q, order, x);
    TimesZero(g, q);
    assert Neutral(g, Times(g, n % order, x));
  }

  // ------------------------------------------------------------- the ladder

  /** The number a byte string encodes, least significant byte first. */
  function Number(s: seq<u8>): nat
  {
    EvalNormal(s, 0x100);
    Eval(s, 0x100)
  }

  lemma {:induction false} ShiftIn(n: nat, i: nat)
    ensures Pow(2, i) > 0 && Pow(2, i + 1) > 0
    ensures n / Pow(2, i) == 2 * (n / Pow(2, i + 1)) + (if X25519.Bit(n, i) then 1 else 0)
  {
    PowPositive(2, i);
    PowPositive(2, i + 1);
    X25519.DivDiv(n, Pow(2, i), 2);
  }

  lemma LadderStep<G(!new)>(g: Group<G>, k: nat, x: G)
    requires Abelian(g)
    ensures g.add(Times(g, k, x), Times(g, k, x)) == Times(g, 2 * k, x)
    ensures g.add(Times(g, k + 1, x), Times(g, k, x)) == Times(g, 2 * k + 1, x)
    ensures g.add(Times(g, k, x), Times(g, k + 1, x)) == Times(g, 2 * k + 1, x)
    ensures g.add(Times(g, k + 1, x), Times(g, k + 1, x)) == Times(g, 2 * k + 2, x)
  {
    TimesAdd(g, k, k, x);
    TimesAdd(g, k, k + 1, x);
    TimesAdd(g, k + 1, k, x);
    TimesAdd(g, k + 1, k + 1, x);
  }

  // ------------------------------------------------------ signing and verifying

  /** What the signature scheme is built from. `decodeNeg` is unpackneg: it yields the inverse
      of the encoded point. */
  datatype Suite<!G> = Suite(group: Group<G>, base: G, hash: seq<u8> -> seq<u8>,
                             encode: G -> seq<u8>, decodeNeg: seq<u8> -> Option<G>)

  ghost predicate Hashes(hash: seq<u8> -> seq<u8>)
  {
    forall m :: |hash(m)| == 64
  }

  ghost predicate Sound<G(!new)>(suite: Suite<G>)
  {
    && Abelian(suite.group)
    && Kills(suite.group, ORDER, suite.base)
    && Hashes(suite.hash)
    && (forall p :: |suite.encode(p)| == 32)
    && (forall p :: suite.decodeNeg(suite.encode(p)) == Some(suite.group.neg(p)))
  }

  ghost function SecretScalar<G(!new)>(suite: Suite<G>, sk: seq<u8>): nat
    requires Hashes(suite.hash)
  {
    X25519.DecodeScalar(Number(suite.hash(sk)[..32]))
  }

  ghost function PublicKey<G(!new)>(suite: Suite<G>, sk: seq<u8>): seq<u8>
    requires Hashes(suite.hash)
  {
    suite.encode(Times(suite.group, SecretScalar(suite, sk), suite.base))
  }

  ghost function Nonce<G(!new)>(suite: Suite<G>, sk: seq<u8>, m: seq<u8>): nat
    requires Hashes(suite.hash)
  {
    Number(suite.hash(suite.hash(sk)[32..] + m)) % ORDER
  }

  ghost function Challenge<G(!new)>(suite: Suite<G>, r: seq<u8>, pk: seq<u8>, m: seq<u8>): nat
  {
    Number(suite.hash(r + pk + m)) % ORDER
  }

  /** The second half of a signature. */
  function Response(r: nat, h: nat, a: nat): nat
  {
    (r + h * a) % ORDER
  }

  /** The bit masks on the hashed secret. */
  method ClampInPlace(d: array<u8>)
    requires d.Length == 64
    modifies d
    ensures Number(d[..32]) == X25519.DecodeScalar(Number(old(d[..32]))) && d[32..] == old(d[32..])
  {
    ghost var was: seq<int> := d[..32];
    d[0] := d[0] - d[0] % 8;
    d[31] := d[31] % 128;
    d[31] := if d[31] < 64 then d[31] + 64 else d[31];
    assert d[31] == 64 + was[31] % 64 && d[0] == was[0] - was[0] % 8;
    assert d[..32] == was[31 := 64 + was[31] % 64][0 := was[0] - was[0] % 8];
    X25519.ClampValue(was, d[..32]);
  }

  /** The double loop of dropbear_ed25519_sign: x = r + h * d, columns at most 2^21. */
  method MultiplyAdd(r: seq<u8>, h: seq<u8>, d: seq<u8>) returns (x: array<i64>)
    requires |r| == |h| == |d| == 32
    ensures fresh(x) && x.Length == 64 && Eval(x[..], 0x100) == Number(r) + Number(h) * Number(d)
    ensures forall k :: 0 <= k < 64 ==> 0 <= x[k] <= 0x20_0000
  {
    x := new i64[64](k => if 0 <= k < 32 then r[k] else 0);
    LowHalfValue(x[..]);
    assert x[..][..32] == r;
    assert h[..0] == [];
    for i := 0 to 32
      invariant Eval(x[..], 0x100) == Number(r) + Eval(h[..i], 0x100) * Number(d)
      invariant forall k :: 0 <= k < 64 ==> 0 <= x[k] <= 255 + i * 65025
    {
      assert d[..0] == [];
      for j := 0 to 32
        invariant Eval(x[..], 0x100) == Number(r) + Eval(h[..i], 0x100) * Number(d)
                                        + h[i] * Eval(d[..j], 0x100) * Pow(0x100, i)
        invariant forall k :: 0 <= k < 64 ==> 0 <= x[k] <= 255 + (i + 1) * 65025
        invariant forall k :: i + j <= k < 64 ==> x[k] <= 255 + i * 65025
      {
        MulMonotone(h[i], 255, d[j]);
        MulMonotone(0, h[i], d[j]);
        var product: i64 := h[i] as int * d[j] as int;
        ProductStep(x[..], h[i], d, product, i, j, 0x100);
        ghost var s: seq<int> := x[..];
        x[i + j] := x[i + j] + product;
        assert x[..] == s[i + j := s[i + j] + product];
      }
      EvalFull(d, 0x100);
      ProductRow(h, d, i, 0x100);
    }
    EvalFull(h, 0x100);
  }

  method HashInto(hash: seq<u8> -> seq<u8>, m: seq<u8>) returns (out: array<u8>)
    requires Hashes(hash)
    ensures fresh(out) && out.Length == 64 && out[..] == hash(m)
  {
    var digest := hash(m);
    out := new u8[64](k requires 0 <= k < 64 => assert |digest| == 64; digest[k]);
    assert out[..] == digest;
  }

  /** Hash a message and reduce the digest to a scalar. */
  method HashScalar(hash: seq<u8> -> seq<u8>, m: seq<u8>) returns (r: seq<u8>)
    requires Hashes(hash)
    ensures |r| == 32 && Number(r) == Number(hash(m)) % ORDER
  {
    var out := HashInto(hash, m);
    Reduce(out);
    r := out[..32];
  }

  /** The end of signing: store the nonce point, then the response scalar behind it. */
  method Respond(s: array<u8>, encoded: seq<u8>, r: seq<u8>, h: seq<u8>, d: seq<u8>)
    requires s.Length == 64 && |encoded| == |r| == |h| == |d| == 32
    modifies s
    ensures s[..32] == encoded && Number(s[32..]) == Response(Number(r), Number(h), Number(d))
  {
    for i := 0 to 32
      invariant forall k :: 0 <= k < i ==> s[k] == encoded[k]
    {
      s[i] := encoded[i];
    }
    var x := MultiplyAdd(r, h, d);
    ModL(s, 32, x);
    assert s[..32] == encoded;
    assert s[32..32 + 32] == s[32..];
  }

  /** S * B - h * A encodes to the first half of the signature. */
  ghost predicate Accepts<G(!new)>(suite: Suite<G>, m: seq<u8>, s: seq<u8>, pk: seq<u8>)
  {
    && |s| >= 64 && suite.decodeNeg(pk).Some?
    && var hA := Times(suite.group, Challenge(suite, s[..32], pk, m), suite.decodeNeg(pk).value);
       suite.encode(suite.group.add(hA, Times(suite.group, Number(s[32..64]), suite.base))) == s[..32]
  }

  /** Section 5.1.7 of RFC 8032 asks for 64 bytes and for S below the order as well. */
  ghost predicate RfcAccepts<G(!new)>(suite: Suite<G>, m: seq<u8>, s: seq<u8>, pk: seq<u8>)
  {
    |s| == 64 && Number(s[32..64]) < ORDER && Accepts(suite, m, s, pk)
  }

  /** The equation of section 5.1.7 of RFC 8032 without the cofactor: S * B = R + k * A, where `r` is R. */
  ghost predicate Equation<G(!new)>(suite: Suite<G>, s: seq<u8>, a: G, k: nat, r: G)
    requires |s| >= 64
  {
    suite.encode(r) == s[..32]
    && Times(suite.group, Number(s[32..64]), suite.base) == suite.group.add(r, Times(suite.group, k, a))
  }

  lemma NegTwice<G(!new)>(g: Group<G>, x: G)
    requires Abelian(g)
    ensures g.neg(g.neg(x)) == x
  {
    var y := g.neg(x);
    assert Cancels(g, x) && Cancels(g, y) && Associates(g, x, y, g.neg(y)) && Neutral(g, x);
    assert Commutes(g, g.zero, g.neg(y)) && Neutral(g, g.neg(y));
  }

  lemma EncodeInjective<G(!new)>(suite: Suite<G>, p: G, q: G)
    requires Sound(suite) && suite.encode(p) == suite.encode(q)
    ensures p == q
  {
    NegTwice(suite.group, p);
    NegTwice(suite.group, q);
    assert suite.decodeNeg(suite.encode(p)) == Some(suite.group.neg(p));
    assert suite.decodeNeg(suite.encode(q)) == Some(suite.group.neg(q));
  }

  /** Where c cancels b, x = r + b exactly when c + x = r. */
  lemma Transpose<G(!new)>(g: Group<G>, b: G, c: G, x: G, r: G)
    requires Abelian(g) && g.add(b, c) == g.zero
    ensures x == g.add(r, b) <==> g.add(c, x) == r
  {
    assert Commutes(g, b, c) && Commutes(g, g.zero, x) && Neutral(g, x) && Associates(g, b, c, x);
    assert Commutes(g, r, b) && Commutes(g, g.zero, r) && Neutral(g, r) && Associates(g, c, b, r);
    assert Commutes(g, g.add(c, x), b);
  }

  /** What is accepted: the key decodes to a point A, and the first half encodes the one point R that
      solves the equation with k the hash of R, the key and the message, reduced. */
  lemma AcceptsEquation<G(!new)>(suite: Suite<G>, m: seq<u8>, s: seq<u8>, pk: seq<u8>, a: G)
    requires Sound(suite) && |s| >= 64 && suite.decodeNeg(pk) == Some(suite.group.neg(a))
    ensures Accepts(suite, m, s, pk) <==>
      exists r :: Equation(suite, s, a, Number(suite.hash(s[..32] + pk + m)) % ORDER, r)
  {
    var g, k := suite.group, Number(suite.hash(s[..32] + pk + m)) % ORDER;
    var c, x := Times(g, k, g.neg(a)), Times(g, Number(s[32..64]), suite.base);
    TimesNeg(g, k, a);
    var r := g.add(c, x);
    Transpose(g, Times(g, k, a), c, x, r);
    if Accepts(suite, m, s, pk) {
      assert Equation(suite, s, a, k, r);
    }
    if r' :| Equation(suite, s, a, k, r') {
      Transpose(g, Times(g, k, a), c, x, r');
    }
  }

  /** With a key whose point has the order of the base, the hash need not be reduced. */
  lemma HonestEquation<G(!new)>(suite: Suite<G>, m: seq<u8>, s: seq<u8>, pk: seq<u8>, a: G)
    requires Sound(suite) && |s| >= 64 && suite.decodeNeg(pk) == Some(suite.group.neg(a))
    requires Kills(suite.group, ORDER, a)
    ensures Accepts(suite, m, s, pk) <==> exists r :: Equation(suite, s, a, Number(suite.hash(s[..32] + pk + m)), r)
  {
    var k := Number(suite.hash(s[..32] + pk + m));
    AcceptsEquation(suite, m, s, pk, a);
    TimesResidue(suite.group, k, a, ORDER);
    forall r ensures Equation(suite, s, a, k % ORDER, r) <==> Equation(suite, s, a, k, r) {}
  }

  lemma {:induction false} TimesSum<G(!new)>(g: Group<G>, n: nat, x: G, y: G)
    requires Abelian(g)
    ensures Times(g, n, g.add(x, y)) == g.add(Times(g, n, x), Times(g, n, y))
  {
    assert Neutral(g, g.zero);
    if n > 0 {
      TimesSum(g, n - 1, x, y);
      AddSwap(g, Times(g, n - 1, x), x, Times(g, n - 1, y), y);
    }
  }

  lemma EightResidue(k: nat, order: nat)
    requires order > 0
    ensures (8 * (k % order)) % (8 * order) == (8 * k) % (8 * order)
  {
    var q := k / order;
    assert k == order * q + k % order;
    assert 8 * k == 8 * (k % order) + q * (8 * order) by { assert q * (8 * order) == 8 * (order * q); }
    ModIntro(8 * k, 8 * (k % order), q, 8 * order);
  }

  /** In a group of order 8 * L, as the curve is, what is accepted satisfies the cofactored equation of
      section 5.1.7 whatever the key: 8 * S * B = 8 * R + 8 * k * A with the hash k unreduced. */
  lemma CofactorEquation<G(!new)>(suite: Suite<G>, m: seq<u8>, s: seq<u8>, pk: seq<u8>, a: G) returns (r: G)
    requires Sound(suite) && |s| >= 64 && suite.decodeNeg(pk) == Some(suite.group.neg(a))
    requires Kills(suite.group, 8 * ORDER, a) && Accepts(suite, m, s, pk)
    ensures suite.encode(r) == s[..32]
    ensures var g, k := suite.group, Number(suite.hash(s[..32] + pk + m));
      Times(g, 8 * Number(s[32..64]), suite.base) == g.add(Times(g, 8, r), Times(g, 8 * k, a))
  {
    AcceptsEquation(suite, m, s, pk, a);
    var g, k, n := suite.group, Number(suite.hash(s[..32] + pk + m)), Number(s[32..64]);
    r :| Equation(suite, s, a, k % ORDER, r);
    TimesMul(g, 8, n, suite.base);
    TimesSum(g, 8, r, Times(g, k % ORDER, a));
    TimesMul(g, 8, k % ORDER, a);
    EightResidue(k, ORDER);
    TimesResidue(g, 8 * (k % ORDER), a, 8 * ORDER);
    TimesResidue(g, 8 * k, a, 8 * ORDER);
  }

  /** Acceptance depends on S modulo the order only. */
  lemma AcceptsResidue<G(!new)>(suite: Suite<G>, m: seq<u8>, s: seq<u8>, s': seq<u8>, pk: seq<u8>)
    requires Sound(suite) && |s| >= 64 && |s'| >= 64 && s[..32] == s'[..32]
    requires Number(s[32..64]) % ORDER == Number(s'[32..64]) % ORDER
    ensures Accepts(suite, m, s, pk) <==> Accepts(suite, m, s', pk)
  {
    TimesResidue(suite.group, Number(s[32..64]), suite.base, ORDER);
    TimesResidue(suite.group, Number(s'[32..64]), suite.base, ORDER);
  }

  /** The k lowest bytes of a number. */
  function LittleEndian(n: nat, k: nat): (s: seq<u8>)
    requires n < Pow(0x100, k)
    ensures |s| == k && Number(s) == n
  {
    if k == 0 then []
    else
      PowPositive(0x100, k - 1);
      var w := Pow(0x100, k - 1);
      TopDigit(n, w);
      var low := LittleEndian(n % w, k - 1);
      assert (low + [n / w])[..k - 1] == low;
      low + [n / w]
  }

  lemma TopDigit(n: nat, w: nat)
    requires w > 0 && n < 0x100 * w
    ensures 0 <= n / w < 0x100 && n == n % w + (n / w) * w
  {
    var q := n / w;
    assert n == w * q + n % w;
    if q >= 0x100 { MulMonotone(0x100, q, w); }
  }

  /** So every signature that is accepted and has S below the order has a second form. */
  lemma SecondForm<G(!new)>(suite: Suite<G>, m: seq<u8>, s: seq<u8>, pk: seq<u8>) returns (s': seq<u8>)
    requires Sound(suite) && |s| == 64 && Number(s[32..64]) < ORDER && Accepts(suite, m, s, pk)
    ensures |s'| == 64 && s' != s && Accepts(suite, m, s', pk)
    ensures Number(s'[32..64]) >= ORDER && !RfcAccepts(suite, m, s', pk)
  {
    var n := Number(s[32..64]) + ORDER;
    X25519.TopBytePower(31);
    assert Pow(0x100, 32) == 0x100 * Pow(0x100, 31);
    var half := LittleEndian(n, 32);
    s' := s[..32] + half;
    assert s'[..32] == s[..32] && s'[32..64] == half;
    ModIntro(n, Number(s[32..64]), 1, ORDER);
    AcceptsResidue(suite, m, s, s', pk);
  }

  /** The signature with S reduced modulo the order. */
  ghost function Reduced(s: seq<u8>): (r: seq<u8>)
    requires |s| == 64
    ensures |r| == 64 && r[..32] == s[..32] && Number(r[32..64]) == Number(s[32..64]) % ORDER
  {
    X25519.TopBytePower(31);
    assert Pow(0x100, 32) == 0x100 * Pow(0x100, 31);
    var half := LittleEndian(Number(s[32..64]) % ORDER, 32);
    assert (s[..32] + half)[32..64] == half;
    s[..32] + half
  }

  /** What the code accepts is what RFC 8032 accepts once S is reduced. On one signature the two
      verdicts agree if and only if S is below the order or the reduced signature is no good. */
  lemma AcceptsReduced<G(!new)>(suite: Suite<G>, m: seq<u8>, s: seq<u8>, pk: seq<u8>)
    requires Sound(suite) && |s| == 64
    ensures Accepts(suite, m, s, pk) <==> RfcAccepts(suite, m, Reduced(s), pk)
    ensures (Accepts(suite, m, s, pk) <==> RfcAccepts(suite, m, s, pk)) <==>
      Number(s[32..64]) < ORDER || !RfcAccepts(suite, m, Reduced(s), pk)
  {
    var n := Number(s[32..64]);
    ModMod(n, ORDER);
    AcceptsResidue(suite, m, s, Reduced(s), pk);
  }

  /** Whatever S is, some point and some key go with it: the neutral element as a key, and S * B. */
  lemma AcceptedWith<G(!new)>(suite: Suite<G>, m: seq<u8>, half: seq<u8>) returns (r: seq<u8>, pk: seq<u8>)
    requires Sound(suite) && |half| == 32
    ensures |r| == 32 && Accepts(suite, m, r + half, pk)
  {
    var g := suite.group;
    var p := Times(g, Number(half), suite.base);
    r, pk := suite.encode(p), suite.encode(g.zero);
    var s := r + half;
    assert s[..32] == r && s[32..64] == half;
    assert Cancels(g, g.zero) && Commutes(g, g.zero, g.neg(g.zero)) && Neutral(g, g.neg(g.zero));
    assert suite.decodeNeg(pk) == Some(g.zero);
    TimesZero(g, Challenge(suite, r, pk, m));
    assert Commutes(g, g.zero, p) && Neutral(g, p);
  }

  /** The code keeps to RFC 8032 for a value of S, whatever else the signature and the key are, if and
      only if that value is below the order. */
  lemma MeetsRfc<G(!new)>(suite: Suite<G>, m: seq<u8>, half: seq<u8>)
    requires Sound(suite) && |half| == 32
    ensures Number(half) < ORDER <==>
      forall r: seq<u8>, pk: seq<u8> :: |r| == 32 ==>
        (Accepts(suite, m, r + half, pk) <==> RfcAccepts(suite, m, r + half, pk))
  {
    forall r: seq<u8> | |r| == 32 ensures (r + half)[32..64] == half {}
    var r, pk := AcceptedWith(suite, m, half);
  }

  lemma CancelTerm<G(!new)>(g: Group<G>, x: G, y: G, z: G)
    requires Abelian(g) && g.add(y, z) == g.zero
    ensures g.add(z, g.add(x, y)) == x
  {
    assert Commutes(g, z, g.add(x, y));
    assert Associates(g, x, y, z);
    assert Neutral(g, x);
  }

  /** The verification equation holds for every signature made with the matching key. */
  lemma SignatureEquation<G(!new)>(g: Group<G>, base: G, r: nat, h: nat, a: nat)
    requires Abelian(g) && Kills(g, ORDER, base)
    ensures g.add(Times(g, h, g.neg(Times(g, a, base))), Times(g, Response(r, h, a), base)) == Times(g, r, base)
  {
    var aB := Times(g, a, base);
    TimesMul(g, h, a, base);
    TimesResidue(g, r + h * a, base, ORDER);
    TimesAdd(g, r, h * a, base);
    TimesNeg(g, h, aB);
    CancelTerm(g, Times(g, r, base), Times(g, h, aB), Times(g, h, g.neg(aB)));
  }

  /** What dropbear_ed25519_sign computes is what section 5.1.6 of RFC 8032 computes with its hashes
      unreduced. */
  lemma RfcSignature<G(!new)>(suite: Suite<G>, sk: seq<u8>, m: seq<u8>, r: seq<u8>, pk: seq<u8>)
    requires Sound(suite) && r == suite.encode(Times(suite.group, Nonce(suite, sk, m), suite.base))
    ensures var n := Number(suite.hash(suite.hash(sk)[32..64] + m));
      && r == suite.encode(Times(suite.group, n, suite.base))
      && Response(Nonce(suite, sk, m), Challenge(suite, r, pk, m), SecretScalar(suite, sk))
         == (n + Number(suite.hash(r + pk + m)) * SecretScalar(suite, sk)) % ORDER
  {
    assert suite.hash(sk)[32..64] == suite.hash(sk)[32..];
    var n, a := Number(suite.hash(suite.hash(sk)[32..64] + m)), SecretScalar(suite, sk);
    var k := Number(suite.hash(r + pk + m));
    TimesResidue(suite.group, n, suite.base, ORDER);
    ModMod(n, ORDER);
    ModMod(k, ORDER);
    ModMul(k % ORDER, k, a, a, ORDER);
    ModAdd(n % ORDER, n, (k % ORDER) * a, k * a, ORDER);
  }

  /** Every signature made as dropbear_ed25519_sign makes it is accepted. */
  lemma SignatureAccepted<G(!new)>(suite: Suite<G>, sk: seq<u8>, m: seq<u8>, r: seq<u8>, half: seq<u8>)
    requires Sound(suite) && |half| == 32 && r == suite.encode(Times(suite.group, Nonce(suite, sk, m), suite.base))
    requires Number(half) ==
      Response(Nonce(suite, sk, m), Challenge(suite, r, PublicKey(suite, sk), m), SecretScalar(suite, sk))
    ensures Accepts(suite, m, r + half, PublicKey(suite, sk))
  {
    var pk, a := PublicKey(suite, sk), SecretScalar(suite, sk);
    SignatureEquation(suite.group, suite.base, Nonce(suite, sk, m), Challenge(suite, r, pk, m), a);
    var aB := Times(suite.group, a, suite.base);
    assert suite.decodeNeg(suite.encode(aB)) == Some(suite.group.neg(aB));
    var s := r + half;
    assert s[..32] == r && s[32..64] == half;
  }
}
