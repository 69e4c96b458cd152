/** DSS signatures: key relations of gendss.c, signing and verification of dss.c. */
module Dss {
  import opened Arith
  import opened Common
  import opened Digits
  import opened NumberTheory
  import Polynomial
  import opened Bignum

  datatype DssKey = DssKey(p: int, q: int, g: int, x: int, y: int)

  const HASH_SIZE: nat := 20

  // ------------------------------------------------------------ key generation

  /** getp: the candidate X - (X mod 2q) + 1 is 1 modulo 2q. */
  method CandidateP(x: nat, q: int) returns (p: int)
    requires q > 0
    ensures Divides(q, p - 1) && p % 2 == 1 && x - 2 * q < p - 1 <= x
  {
    var c := x % (2 * q);
    p := x - c + 1;
    var k := x / (2 * q);
    assert p - 1 == (2 * k) * q by { MulAssoc(2, k, q); MulAssoc(2, q, k); }
    DividesIntro(q, p - 1, 2 * k);
    assert p - 1 == 2 * (k * q) by { MulAssoc(2, k, q); }
  }

  /** q is the least positive exponent for which the power of g is 1. */
  ghost predicate HasOrder(g: int, q: int, p: int)
    requires p > 0 && q > 0
  {
    Pow(g, q) % p == 1 && forall e: nat :: 0 < e < q ==> Pow(g, e) % p != 1
  }

  /** A power h^((p-1)/q) that is not 0 or 1 has order q. */
  lemma GeneratorOrder(p: int, q: int, h: int, g: int)
    requires Prime(p) && Prime(q) && Divides(q, p - 1) && g == Pow(h, (p - 1) / q) % p && g > 1
    ensures HasOrder(g, q, p)
  {
    var div := (p - 1) / q;
    assert div * q == p - 1;
    assert !Divides(p, h) by { if Divides(p, h) { PowerOfMultiple(p, h, div); } }
    ModMod(Pow(h, div), p);
    ModPow(g, Pow(h, div), q, p);
    PowMul(h, div, q);
    Fermat(p, h);
    ModSmall(g, p);
    forall e: nat | 0 < e < q ensures Pow(g, e) % p != 1 { PrimeOrder(p, q, g, e); }
  }

  lemma PowerOfMultiple(p: int, h: int, e: nat)
    requires p >= 2 && Divides(p, h)
    ensures Pow(h, e) % p <= 1
  {
    if e == 0 {
      ModSmall(1, p);
    } else {
      ModMul(h, 0, Pow(h, e - 1), Pow(h, e - 1), p);
    }
  }

  /** Some h below p has a power above 1. */
  lemma GeneratorExists(p: int, q: int) returns (h: int)
    requires Prime(p) && Prime(q) && Divides(q, p - 1)
    ensures 0 < h < p && Pow(h, (p - 1) / q) % p > 1
  {
    var div := (p - 1) / q;
    assert div * q == p - 1;
    if p == 2 { ModSmall(1, q); }
    MulMonotone(2, q, div);
    h := Polynomial.PowerNotOne(p, div);
    PowerNonzero(p, h, div);
  }

  lemma {:induction false} PowerNonzero(p: int, h: int, e: nat)
    requires Prime(p) && 0 < h < p
    ensures !Divides(p, Pow(h, e))
  {
    if e == 0 {
      ModSmall(1, p);
    } else {
      PowerNonzero(p, h, e - 1);
      ModSmall(h, p);
      if Divides(p, Pow(h, e)) { EuclidLemma(p, h, Pow(h, e - 1)); }
    }
  }

  /** getg: the first h whose power exceeds 1. The search ends, and the power has order q. */
  method GetG(p: int, q: int) returns (g: int)
    requires Prime(p) && Prime(q) && Divides(q, p - 1)
    ensures 1 < g < p && HasOrder(g, q, p)
  {
    var div := (p - 1) / q;
    ghost var last := GeneratorExists(p, q);
    var h := 1;
    g := Pow(h, div) % p;
    while g <= 1
      invariant 1 <= h <= last && g == Pow(h, div) % p
      decreases last - h
    {
      h := h + 1;
      g := Pow(h, div) % p;
    }
    GeneratorOrder(p, q, h, g);
  }

  /** What getq, getp, getg, getx and gety establish. */
  ghost predicate KeyRelations(key: DssKey)
  {
    && Prime(key.p) && Prime(key.q) && Divides(key.q, key.p - 1)
    && key.q < Pow(0x100, HASH_SIZE)
    && 1 < key.g < key.p && Pow(key.g, key.q) % key.p == 1
    && 0 < key.x < key.q && key.y == Pow(key.g, key.x) % key.p
  }

  // -------------------------------------------------------------- group algebra

  lemma WholePeriods(g: int, q: nat, p: int, b: nat, k: nat)
    requires p >= 2 && Pow(g, q) % p == 1
    ensures q * k >= 0 && Pow(g, b + q * k) % p == Pow(g, b) % p
  {
    PowMul(g, q, k);
    PowAdd(g, b, q * k);
    ModSmall(1, p);
    ModPow(Pow(g, q), 1, k, p);
    PowOfOne(k);
    ModMul(Pow(g, b), Pow(g, b), Pow(g, q * k), 1, p);
  }

  lemma OrderedResidue(key: DssKey, a: nat, b: nat)
    requires KeyRelations(key) && a % key.q == b % key.q && b <= a
    ensures Pow(key.g, a) % key.p == Pow(key.g, b) % key.p
  {
    var k := ModElim(a, b, key.q);
    if k <= -1 { MulMonotone(k, -1, key.q); }
    WholePeriods(key.g, key.q, key.p, b, k);
    assert a == b + key.q * k;
  }

  /** Powers of g depend on the exponent modulo q only. */
  lemma ExponentResidue(key: DssKey, a: nat, b: nat)
    requires KeyRelations(key) && a % key.q == b % key.q
    ensures Pow(key.g, a) % key.p == Pow(key.g, b) % key.p
  {
    if b <= a { OrderedResidue(key, a, b); } else { OrderedResidue(key, b, a); }
  }

  /** g^u1 * y^u2 = g^(u1 + x * u2) modulo p. */
  lemma CombinedPower(key: DssKey, u1: nat, u2: nat)
    requires KeyRelations(key)
    ensures key.x * u2 >= 0
    ensures ((Pow(key.g, u1) % key.p) * (Pow(key.y, u2) % key.p)) % key.p == Pow(key.g, u1 + key.x * u2) % key.p
  {
    var p, gx := key.p, Pow(key.g, key.x);
    ModMod(gx, p);
    ModPow(key.y, gx, u2, p);
    PowMul(key.g, key.x, u2);
    PowAdd(key.g, u1, key.x * u2);
    ModMod(Pow(key.g, u1), p);
    ModMod(Pow(key.y, u2), p);
    ModMul(Pow(key.g, u1) % p, Pow(key.g, u1), Pow(key.y, u2) % p, Pow(key.g, key.x * u2), p);
  }

  /** The verification exponents recombine to the signing exponent k modulo q. */
  lemma RecoversExponent(q: int, k: int, w: int, m: int, x: int, r: int, s: int, u1: int, u2: int)
    requires q >= 2 && (k * s) % q == (m + r * x) % q && (s * w) % q == 1 % q
    requires u1 == (m * w) % q && u2 == (r * w) % q
    ensures (u1 + x * u2) % q == k % q
  {
    VerifyExponent(q, m, x, r, w, u1, u2);
    ModMul(k * s, m + r * x, w, w, q);
    MulAssoc(k, s, w);
    ModMul(k, k, s * w, 1, q);
  }

  lemma VerifyExponent(q: int, m: int, x: int, r: int, w: int, u1: int, u2: int)
    requires q >= 2 && u1 == (m * w) % q && u2 == (r * w) % q
    ensures (u1 + x * u2) % q == ((m + r * x) * w) % q
  {
    ModMod(m * w, q);
    ModMod(r * w, q);
    ModMul(x, x, u2, r * w, q);
    ModAdd(u1, m * w, x * u2, x * (r * w), q);
    MulAssoc(x, r, w);
    MulDistribute(m, r * x, w);
  }

  lemma SignEquation(q: int, k: int, kinv: int, m: int, rx: int, s: int)
    requires q >= 2 && (k * kinv) % q == 1 % q && s == (kinv * ((m + rx % q) % q)) % q
    ensures (k * s) % q == (m + rx) % q
  {
    var t := (m + rx % q) % q;
    ModMod(rx, q);
    ModAdd(m, m, rx % q, rx, q);
    ModMod(m + rx % q, q);
    ModMod(kinv * t, q);
    ModMul(k, k, s, kinv * t, q);
    MulAssoc(k, kinv, t);
    ModMul(k * kinv, 1, t, m + rx, q);
  }

  // -------------------------------------------------------- signing and verifying

  datatype Verdict = Success | Failure | Fatal

  function SignR(key: DssKey, k: nat): int
    requires key.p > 0 && key.q > 0
  {
    (Pow(key.g, k) % key.p) % key.q
  }

  /** buf_put_dss_sign from the length field on, with the random k in (0, q) as a parameter. */
  method Sign(key: DssKey, digest: seq<u8>, k: int) returns (blob: seq<u8>, ghost s: int)
    requires KeyRelations(key) && |digest| == HASH_SIZE && 0 < k < key.q
    ensures 0 <= s < key.q && (k * s) % key.q == (FromUbin(digest) + SignR(key, k) * key.x) % key.q
    ensures |blob| == 4 + 2 * HASH_SIZE && FromUbin(blob[..4]) == 2 * HASH_SIZE
    ensures FromUbin(blob[4..4 + HASH_SIZE]) == SignR(key, k)
    ensures FromUbin(blob[4 + HASH_SIZE..]) == s
  {
    var m := FromUbin(digest);
    var temp1 := Pow(key.g, k) % key.p;
    var r := temp1 % key.q;
    temp1 := (r * key.x) % key.q;
    var temp2 := (m + temp1) % key.q;
    var inv := InvMod(k, key.q);
    assert inv.Some? by {
      ModSmall(k, key.q);
      var x := PrimeInverse(key.q, k);
      ModSmall(1, key.q);
      assert IsInverse(k, x, key.q);
    }
    var sig := (inv.value * temp2) % key.q;
    SignEquation(key.q, k, inv.value, m, r * key.x, sig);
    FitsHash(key, r);
    FitsHash(key, sig);
    var rBytes, sBytes := Padded(r, HASH_SIZE), Padded(sig, HASH_SIZE);
    blob := Uint32(2 * HASH_SIZE) + rBytes + sBytes;
    assert blob[..4] == Uint32(2 * HASH_SIZE) && blob[4..4 + HASH_SIZE] == rBytes && blob[4 + HASH_SIZE..] == sBytes;
    s := sig;
  }

  lemma FitsHash(key: DssKey, v: nat)
    requires KeyRelations(key) && v < key.q
    ensures |ToUbin(v)| <= HASH_SIZE
  {
    FitsBytes(v, HASH_SIZE);
  }

  const MAX_STRING_LEN: nat := 9000

  /** v = ((g^u1 * y^u2) mod p) mod q for an inverse w of the received s. */
  function Check(key: DssKey, m: nat, r: nat, w: nat): int
    requires key.p > 0 && key.q > 0
  {
    var u1, u2 := (m * w) % key.q, (r * w) % key.q;
    (((Pow(key.g, u1) % key.p) * (Pow(key.y, u2) % key.p)) % key.p) % key.q
  }

  lemma InverseUnique(a: int, x: int, y: int, m: int)
    requires m > 0 && IsInverse(a, x, m) && IsInverse(a, y, m)
    ensures x == y
  {
    TimesInverse(a, x, y, m);
    TimesInverse(a, y, x, m);
    assert x * (a * y) == y * (a * x) by { MulAssoc(x, a, y); MulAssoc(y, a, x); }
  }

  lemma TimesInverse(a: int, x: int, y: int, m: int)
    requires m > 0 && 0 <= x < m && IsInverse(a, y, m)
    ensures (x * (a * y)) % m == x
  {
    ModMul(x, x, a * y, 1, m);
    ModSmall(x, m);
  }

  ghost predicate Accepts(key: DssKey, m: nat, r: nat, s: nat)
    requires key.p > 0 && key.q > 0
  {
    0 < r < key.q && 0 < s < key.q && exists w :: IsInverse(s, w, key.q) && Check(key, m, r, w) == r
  }

  /** buf_dss_verify. Fatal when the string cannot be read from the buffer. */
  method Verify(key: DssKey, digest: seq<u8>, buf: seq<u8>) returns (v: Verdict)
    requires key.p > 0 && key.q > 0
    ensures v.Fatal? <==> |buf| < 4 || FromUbin(buf[..4]) > MAX_STRING_LEN || |buf| < 4 + FromUbin(buf[..4])
    ensures v.Success? <==>
      (&& |buf| >= 4 + 2 * HASH_SIZE && FromUbin(buf[..4]) == 2 * HASH_SIZE
       && Accepts(key, FromUbin(digest), FromUbin(buf[4..4 + HASH_SIZE]),
                  FromUbin(buf[4 + HASH_SIZE..4 + 2 * HASH_SIZE])))
  {
    if |buf| < 4 { return Fatal; }
    var stringlen := FromUbin(buf[..4]);
    if stringlen > MAX_STRING_LEN || |buf| < 4 + stringlen { return Fatal; }
    if stringlen != 2 * HASH_SIZE { return Failure; }
    var val1 := FromUbin(buf[4 + HASH_SIZE..4 + 2 * HASH_SIZE]);
    if val1 >= key.q || val1 <= 0 { return Failure; }
    var inv := InvMod(val1, key.q);
    if inv.None? { return Failure; }
    ghost var s := val1;
    var val2 := inv.value;
    val1 := FromUbin(digest);
    var val3 := (val1 * val2) % key.q;
    val1 := FromUbin(buf[4..4 + HASH_SIZE]);
    if val1 >= key.q || val1 <= 0 { return Failure; }
    var val4 := (val1 * val2) % key.q;
    val2 := Pow(key.g, val3) % key.p;
    val3 := Pow(key.y, val4) % key.p;
    val4 := (val2 * val3) % key.p;
    val2 := val4 % key.q;
    assert val2 == Check(key, FromUbin(digest), val1, inv.value);
    forall w | IsInverse(s, w, key.q) ensures w == inv.value { InverseUnique(s, w, inv.value, key.q); }
    v := if val2 == val1 then Success else Failure;
  }

  /** The check value is g to the exponent that s stands for, whatever r is. */
  lemma CheckIs(key: DssKey, m: nat, r: nat, k: nat, s: int, w: int)
    requires KeyRelations(key) && IsInverse(s, w, key.q) && (k * s) % key.q == (m + r * key.x) % key.q
    ensures Check(key, m, r, w) == SignR(key, k)
  {
    var u1, u2 := (m * w) % key.q, (r * w) % key.q;
    RecoversExponent(key.q, k, w, m, key.x, r, s, u1, u2);
    CombinedPower(key, u1, u2);
    ExponentResidue(key, u1 + key.x * u2, k);
  }

  /** s as the solution of k * s = m + r * x, where r comes from k. */
  ghost predicate SignedWith(key: DssKey, m: nat, r: nat, s: nat, k: nat)
    requires key.p > 0 && key.q > 0
  {
    k < key.q && r == SignR(key, k) && (k * s) % key.q == (m + r * key.x) % key.q
  }

  /** What verifies is what signing makes with some exponent, and nothing else. */
  lemma AcceptsIffSigned(key: DssKey, m: nat, r: nat, s: nat)
    requires KeyRelations(key)
    ensures Accepts(key, m, r, s) <==> 0 < r < key.q && 0 < s < key.q && exists k :: SignedWith(key, m, r, s, k)
  {
    var q := key.q;
    if 0 < s < q {
      ModSmall(s, q);
      ModSmall(1, q);
      var w := PrimeInverse(q, s);
      assert IsInverse(s, w, q);
      var k := SolveExponent(q, m + r * key.x, s, w);
      CheckIs(key, m, r, k, s, w);
      if Accepts(key, m, r, s) {
        var v :| IsInverse(s, v, q) && Check(key, m, r, v) == r;
        InverseUnique(s, v, w, q);
        assert SignedWith(key, m, r, s, k);
      }
      if k' :| SignedWith(key, m, r, s, k') {
        CheckIs(key, m, r, k', s, w);
      }
    }
  }

  lemma SolveExponent(q: int, b: int, s: int, w: int) returns (k: nat)
    requires q > 0 && IsInverse(s, w, q)
    ensures k < q && (k * s) % q == b % q
  {
    k := (b * w) % q;
    ModMod(b * w, q);
    ModMul(k, b * w, s, s, q);
    assert (b * w) * s == b * (s * w) by { MulAssoc(b, w, s); }
    ModMul(b, b, s * w, 1, q);
  }

  /** The second half of a signature is zero exactly when m + r*x is a multiple of q. */
  lemma SecondHalfZero(key: DssKey, m: nat, k: int, s: int)
    requires KeyRelations(key) && 0 < k < key.q && 0 <= s < key.q
    requires (k * s) % key.q == (m + SignR(key, k) * key.x) % key.q
    ensures s == 0 <==> (m + SignR(key, k) * key.x) % key.q == 0
  {
    ModSmall(k, key.q);
    ModSmall(s, key.q);
    if s == 0 {
      ModSmall(0, key.q);
    } else if (k * s) % key.q == 0 {
      EuclidLemma(key.q, k, s);
    }
  }

  /** A signature verifies if and only if neither half of it is zero: signing does not retry. Both
      conditions are on the arguments of the signer alone. */
  method SignThenVerify(key: DssKey, digest: seq<u8>, k: int) returns (v: Verdict)
    requires KeyRelations(key) && |digest| == HASH_SIZE && 0 < k < key.q
    ensures v.Success? <==>
      SignR(key, k) != 0 && (FromUbin(digest) + SignR(key, k) * key.x) % key.q != 0
  {
    var blob;
    ghost var s;
    blob, s := Sign(key, digest, k);
    v := Verify(key, digest, blob);
    assert blob[4 + HASH_SIZE..4 + 2 * HASH_SIZE] == blob[4 + HASH_SIZE..];
    SecondHalfZero(key, FromUbin(digest), k, s);
    if s != 0 {
      ModSmall(s, key.q);
      ModSmall(1, key.q);
      ghost var w := PrimeInverse(key.q, s);
      assert IsInverse(s, w, key.q);
      CheckIs(key, FromUbin(digest), SignR(key, k), k, s, w);
    }
  }

  /** m + r*x is a multiple of q for the digest m = -r*x. */
  lemma ZeroDigest(key: DssKey, k: int, m: int)
    requires KeyRelations(key) && 0 < k < key.q && m == (-(SignR(key, k) * key.x)) % key.q
    ensures |ToUbin(m)| <= HASH_SIZE && (m + SignR(key, k) * key.x) % key.q == 0
  {
    var rx := SignR(key, k) * key.x;
    FitsBytes(m, HASH_SIZE);
    ModMod(-rx, key.q);
    ModAdd(m, -rx, rx, rx, key.q);
    ModSmall(0, key.q);
  }

  /** For every key and every k there is a digest whose signature the key does not accept. */
  method ZeroSignature(key: DssKey, k: int) returns (digest: seq<u8>, v: Verdict)
    requires KeyRelations(key) && 0 < k < key.q
    ensures |digest| == HASH_SIZE && (FromUbin(digest) + SignR(key, k) * key.x) % key.q == 0
    ensures !v.Success?
  {
    var m := (-(SignR(key, k) * key.x)) % key.q;
    ZeroDigest(key, k, m);
    digest := Padded(m, HASH_SIZE);
    v := SignThenVerify(key, digest, k);
  }
}
