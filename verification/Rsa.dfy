/** RSA signatures: key relations of genrsa.c, signing and verification of rsa.c. */
module Rsa {
  import opened Arith
  import opened Common
  import opened Digits
  import opened NumberTheory
  import opened Bignum

  datatype RsaKey = RsaKey(p: int, q: int, n: int, e: int, d: int)

  // ------------------------------------------------------------ key generation

  function Gcd(a: nat, b: nat): (g: int)
    requires a > 0
    ensures g > 0
    decreases b
  {
    if b == 0 then a else Gcd(b, a % b)
  }

  lemma {:induction false} GcdDivides(a: nat, b: nat)
    requires a > 0
    ensures Divides(Gcd(a, b), a) && Divides(Gcd(a, b), b)
    decreases b
  {
    var g := Gcd(a, b);
    if b == 0 {
      DividesIntro(a, a, 1);
      DividesIntro(a, 0, 0);
    } else {
      GcdDivides(b, a % b);
      var m := DividesElim(g, b);
      var n := DividesElim(g, a % b);
      var k := a / b;
      assert a == (k * m + n) * g by { MulAssoc(k, m, g); MulDistribute(k * m, n, g); }
      DividesIntro(g, a, k * m + n);
    }
  }

  lemma LcmMultiple(a: nat, b: nat)
    requires a > 0 && b > 0
    ensures var l := (a / Gcd(a, b)) * b; l > 0 && Divides(a, l) && Divides(b, l)
  {
    GcdDivides(a, b);
    var g := Gcd(a, b);
    var m := DividesElim(g, a);
    var n := DividesElim(g, b);
    assert m > 0 by { if m <= 0 { MulMonotone(m, 0, g); } }
    DivOf(a, g, m, 0);
    MulPositive(m, b);
    DividesIntro(b, m * b, m);
    assert m * b == n * a by { MulAssoc(m, n, g); MulAssoc(n, m, g); }
    DividesIntro(a, m * b, n);
  }

  /** mp_lcm */
  function Lcm(a: nat, b: nat): (l: int)
    requires a > 0 && b > 0
    ensures l > 0 && Divides(a, l) && Divides(b, l)
  {
    LcmMultiple(a, b);
    (a / Gcd(a, b)) * b
  }

  /** What gen_rsa_priv_key establishes about a key. It does not compare p with q. */
  ghost predicate KeyRelations(key: RsaKey)
  {
    && Prime(key.p) && Prime(key.q) && key.n == key.p * key.q
    && key.e == EXPONENT && key.d >= 1
    && (key.e * key.d) % Lcm(key.p - 1, key.q - 1) == 1 % Lcm(key.p - 1, key.q - 1)
  }

  const EXPONENT: int := 65537

  /** None of lo, lo + 2, ... below hi divides n. */
  function NoDivisor(n: int, lo: int, hi: int): bool
    requires lo > 0
    decreases hi - lo
  {
    if lo >= hi then true else if n % lo == 0 then false else NoDivisor(n, lo + 2, hi)
  }

  lemma {:induction false} NoDivisorAt(n: int, lo: int, hi: int, d: int)
    requires 0 < lo && (d - lo) % 2 == 0 && NoDivisor(n, lo, hi)
    ensures lo <= d < hi ==> !Divides(d, n)
    decreases hi - lo
  {
    if lo < d < hi { NoDivisorAt(n, lo + 2, hi, d); }
  }

  lemma LowOdd(d: int)
    requires 3 <= d < 123 && d % 2 == 1
    ensures !Divides(d, 65537)
  {
    if d < 63 {
      if d < 33 { NoDivisorAt(65537, 3, 33, d); } else { NoDivisorAt(65537, 33, 63, d); }
    } else {
      if d < 93 { NoDivisorAt(65537, 63, 93, d); } else { NoDivisorAt(65537, 93, 123, d); }
    }
  }

  lemma MiddleOdd(d: int)
    requires 123 <= d < 213 && d % 2 == 1
    ensures !Divides(d, 65537)
  {
    if d < 153 {
      NoDivisorAt(65537, 123, 153, d);
    } else {
      if d < 183 { NoDivisorAt(65537, 153, 183, d); } else { NoDivisorAt(65537, 183, 213, d); }
    }
  }

  lemma HighOdd(d: int)
    requires 213 <= d < 257 && d % 2 == 1
    ensures !Divides(d, 65537)
  {
    if d < 243 { NoDivisorAt(65537, 213, 243, d); } else { NoDivisorAt(65537, 243, 257, d); }
  }

  lemma SmallDivisor(d: int)
    requires 2 <= d < 257
    ensures !Divides(d, 65537)
  {
    if d % 2 == 0 {
      if Divides(d, 65537) {
        var k := DividesElim(d, 65537);
        assert 65537 == 2 * (k * (d / 2)) by { MulAssoc(k, 2, d / 2); MulAssoc(2, k, d / 2); }
      }
    } else if d < 123 {
      LowOdd(d);
    } else if d < 213 {
      MiddleOdd(d);
    } else {
      HighOdd(d);
    }
  }

  /** A divisor or its cofactor would be below 257. */
  lemma ExponentPrime()
    ensures Prime(EXPONENT)
  {
    forall d | 2 <= d < EXPONENT ensures !Divides(d, EXPONENT) {
      if d < 257 {
        SmallDivisor(d);
      } else if Divides(d, EXPONENT) {
        var k := DividesElim(d, EXPONENT);
        if k >= 257 { MulMonotone(257, k, d); MulMonotone(257, d, 257); }
        if k <= 1 { MulMonotone(k, 1, d); }
        DividesIntro(k, EXPONENT, d);
        SmallDivisor(k);
      }
    }
  }

  /** A number whose gcd with a prime is 1 is not divisible by it. */
  lemma GcdOne(a: nat, e: int)
    requires a > 0 && Prime(e) && Gcd(a, e) == 1
    ensures !Divides(e, a)
  {
    GcdStep(a, e);
  }

  lemma GcdStep(a: nat, e: nat)
    requires a > 0 && e > 0
    ensures Divides(e, a) ==> Gcd(a, e) == e
  {
    assert Gcd(a, e) == Gcd(e, a % e);
  }

  lemma LcmNotDivisible(a: nat, b: nat, e: int)
    requires a > 0 && b > 0 && Prime(e) && !Divides(e, a) && !Divides(e, b)
    ensures !Divides(e, Lcm(a, b))
  {
    GcdDivides(a, b);
    var g := Gcd(a, b);
    var m := DividesElim(g, a);
    DivOf(a, g, m, 0);
    if Divides(e, m * b) {
      if Divides(e, m) { DividesMultiple(e, m, g); } else { EuclidLemma(e, m, b); }
    }
  }

  lemma DividesMultiple(e: int, m: int, g: int)
    requires e > 0 && Divides(e, m)
    ensures Divides(e, m * g)
  {
    var k := DividesElim(e, m);
    assert m * g == (k * g) * e by { MulAssoc(k, g, e); MulAssoc(k, e, g); }
    DividesIntro(e, m * g, k * g);
  }

  /** A prime has an inverse modulo a number that it does not divide. */
  lemma InverseOfPrime(e: int, l: int) returns (d: int)
    requires Prime(e) && l > 0 && !Divides(e, l)
    ensures IsInverse(e, d, l)
  {
    var x := PrimeInverse(e, l);
    ModSmall(1, e);
    var k := ModElim(l * x, 1, e);
    d := (-k) % l;
    ModMod(-k, l);
    ModMul(e, e, d, -k, l);
    assert e * (-k) == 1 + (-x) * l;
    ModIntro(e * (-k), 1, -x, l);
  }

  /** The end of gen_rsa_priv_key: n, the lcm and the private exponent from two primes that passed the
      test of getrsaprime. The inverse always exists. */
  method DeriveKey(p: int, q: int) returns (key: RsaKey)
    requires Prime(p) && Prime(q) && p > 2 && q > 2 && Gcd(p - 1, EXPONENT) == 1 && Gcd(q - 1, EXPONENT) == 1
    ensures key.p == p && key.q == q && KeyRelations(key)
  {
    var n := p * q;
    var lcm := Lcm(p - 1, q - 1);
    var d := InvMod(EXPONENT, lcm);
    InverseExists(p, q);
    LcmAtLeast(p - 1, q - 1);
    InversePositive(EXPONENT, d.value, lcm);
    key := RsaKey(p, q, n, EXPONENT, d.value);
  }

  lemma InverseExists(p: int, q: int)
    requires p > 2 && q > 2 && Gcd(p - 1, EXPONENT) == 1 && Gcd(q - 1, EXPONENT) == 1
    ensures var l := Lcm(p - 1, q - 1); exists d :: IsInverse(EXPONENT, d, l)
  {
    ExponentPrime();
    GcdOne(p - 1, EXPONENT);
    GcdOne(q - 1, EXPONENT);
    LcmNotDivisible(p - 1, q - 1, EXPONENT);
    var d := InverseOfPrime(EXPONENT, Lcm(p - 1, q - 1));
  }

  lemma InversePositive(a: int, x: int, m: int)
    requires m >= 2 && IsInverse(a, x, m)
    ensures x >= 1
  {
    ModSmall(1, m);
    ModSmall(0, m);
    FactorNonzero(a, x);
  }

  lemma LcmAtLeast(a: nat, b: nat)
    requires a > 0 && b > 0
    ensures Lcm(a, b) >= a
  {
    var k := DividesElim(a, Lcm(a, b));
    if k <= 0 { MulMonotone(k, 0, a); } else { MulMonotone(1, k, a); }
  }

  // ------------------------------------------------------- the trapdoor identity

  /** e * d is one more than a multiple of p - 1, and likewise of q - 1. */
  lemma ExponentOverPrime(ed: nat, p: int, l: int) returns (j: nat)
    requires p >= 2 && l > 0 && Divides(p - 1, l) && ed >= 1 && ed % l == 1 % l
    ensures ed == 1 + j * (p - 1)
  {
    var k := ModElim(ed, 1, l);
    var m := DividesElim(p - 1, l);
    assert ed == 1 + (k * m) * (p - 1) by { MulAssoc(k, m, p - 1); }
    assert k * m >= 0 by { if k * m <= -1 { MulMonotone(k * m, -1, p - 1); } }
    j := k * m;
  }

  lemma PowerIdentity(p: int, m: int, ed: nat, l: int)
    requires Prime(p) && l > 0 && Divides(p - 1, l) && ed >= 1 && ed % l == 1 % l
    ensures Pow(m, ed) % p == m % p
  {
    var j := ExponentOverPrime(ed, p, l);
    FermatExponent(p, m, j);
  }

  /** Raising to d and then to e is the identity modulo n. */
  lemma Trapdoor(key: RsaKey, m: int)
    requires KeyRelations(key) && key.p != key.q
    ensures key.n > 0 && key.e * key.d >= 0
    ensures Pow(m, key.e * key.d) % key.n == m % key.n
  {
    var ed := key.e * key.d;
    var l := Lcm(key.p - 1, key.q - 1);
    PowerIdentity(key.p, m, ed, l);
    PowerIdentity(key.q, m, ed, l);
    ModuloProduct(key.p, key.q, Pow(m, ed), m);
  }

  lemma SignVerifyIdentity(key: RsaKey, m: int)
    requires KeyRelations(key) && key.p != key.q
    ensures key.n > 0 && Pow(Pow(m, key.d) % key.n, key.e) % key.n == m % key.n
  {
    Trapdoor(key, m);
    ModMod(Pow(m, key.d), key.n);
    ModPow(Pow(m, key.d) % key.n, Pow(m, key.d), key.e, key.n);
    PowMul(m, key.d, key.e);
    assert key.d * key.e == key.e * key.d;
  }

  /** The round trip on all residues needs exactly that the two primes differ. */
  lemma RoundTripIffDistinct(key: RsaKey)
    requires KeyRelations(key)
    ensures key.n > 0
    ensures (forall m :: 0 <= m < key.n ==> Pow(Pow(m, key.d) % key.n, key.e) % key.n == m) <==> key.p != key.q
  {
    MulPositive(key.p, key.q);
    if key.p != key.q {
      forall m | 0 <= m < key.n ensures Pow(Pow(m, key.d) % key.n, key.e) % key.n == m {
        SignVerifyIdentity(key, m);
        ModSmall(m, key.n);
      }
    } else {
      var p := key.p;
      EqualPrimesFail(p, key.d, key.e, key.n);
      MulMonotone(2, p, p);
    }
  }

  lemma EqualPrimesFail(p: int, d: nat, e: nat, n: int)
    requires p >= 2 && n == p * p && d >= 1 && e >= 2
    ensures n > 0 && Pow(Pow(p, d) % n, e) % n == 0
  {
    MulPositive(p, p);
    ModMod(Pow(p, d), n);
    ModPow(Pow(p, d) % n, Pow(p, d), e, n);
    PowMul(p, d, e);
    assert d * e >= 2 by { MulMonotone(1, d, e); }
    var k := d * e - 2;
    PowAdd(p, k, 2);
    assert Pow(p, 2) == p * Pow(p, 1) && Pow(p, 1) == p * Pow(p, 0);
    ModIntro(Pow(p, d * e), 0, Pow(p, k), n);
  }

  /** Every prime that getrsaprime can return twice makes such a key, and the residue p does not come
      back. */
  lemma EqualPrimesKey(p: int) returns (key: RsaKey)
    requires Prime(p) && p > 2 && Gcd(p - 1, EXPONENT) == 1
    ensures KeyRelations(key) && key.p == key.q == p
    ensures 0 <= p < key.n && Pow(Pow(p, key.d) % key.n, key.e) % key.n != p
  {
    var l := Lcm(p - 1, p - 1);
    InverseExists(p, p);
    var d :| IsInverse(EXPONENT, d, l);
    LcmAtLeast(p - 1, p - 1);
    InversePositive(EXPONENT, d, l);
    key := RsaKey(p, p, p * p, EXPONENT, d);
    MulMonotone(2, p, p);
    EqualPrimesFail(p, d, EXPONENT, p * p);
  }

  // ------------------------------------------------------------------- padding

  function Ones(k: nat): (s: seq<u8>)
    ensures |s| == k
  {
    if k == 0 then [] else Ones(k - 1) + [0xff]
  }

  /** EM = 00 01 FF..FF 00 T H, as long as the modulus (section 9.2 of RFC 8017). */
  function EncodedMessage(nsize: nat, t: seq<u8>, digest: seq<u8>): (em: seq<u8>)
    requires nsize >= 3 + |t| + |digest|
    ensures |em| == nsize
  {
    [0, 1] + Ones(nsize - 3 - |t| - |digest|) + [0] + t + digest
  }

  /** rsa_pad_em. The buffer holds nsize bytes; a key too short for the encoding makes the
      padding loop run into the end of the buffer, which exits (None). */
  method PadEm(nsize: nat, t: seq<u8>, digest: seq<u8>) returns (r: Option<seq<u8>>)
    ensures r.Some? <==> nsize >= 3 + |t| + |digest|
    ensures r.Some? ==> r.value == EncodedMessage(nsize, t, digest)
  {
    if nsize < 2 { return None; }
    var em: seq<u8> := [0, 1];
    var stop := nsize - (1 + |t| + |digest|);
    assert em == [0, 1] + Ones(0);
    while |em| != stop
      invariant 2 <= |em| <= nsize && em == [0, 1] + Ones(|em| - 2)
      invariant stop >= 2 ==> |em| <= stop
      decreases nsize - |em|
    {
      if |em| == nsize { return None; }
      em := em + [0xff];
      assert em == [0, 1] + (Ones(|em| - 3) + [0xff]);
    }
    em := em + [0] + t + digest;
    r := Some(em);
  }

  /** DigestInfo of SHA-1 and of SHA-256, up to the digest (section 9.2 of RFC 8017). */
  const T_SHA1: seq<u8> := [0x30, 0x21, 0x30, 0x09, 0x06, 0x05, 0x2b, 0x0e, 0x03, 0x02, 0x1a, 0x05, 0x00, 0x04, 0x14]
  const T_SHA256: seq<u8> := [0x30, 0x31, 0x30, 0x0d, 0x06, 0x09, 0x60, 0x86, 0x48, 0x01, 0x65, 0x03, 0x04, 0x02, 0x01,
                              0x05, 0x00, 0x04, 0x20]

  lemma {:induction false} OnesAt(k: nat, i: nat)
    requires i < k
    ensures Ones(k)[i] == 0xff
  {
    if i < k - 1 { OnesAt(k - 1, i); }
  }

  /** Byte by byte: a zero, a one, then only ones bits up to the zero in front of the rest. */
  lemma EncodedAt(nsize: nat, t: seq<u8>, digest: seq<u8>, i: nat)
    requires nsize >= 3 + |t| + |digest| && i < nsize
    ensures var em, sep := EncodedMessage(nsize, t, digest), nsize - 1 - |t| - |digest|;
      && em[i] == (if i == 0 || i == sep then 0 else if i == 1 then 1 else if i < sep then 0xff else em[i])
      && em[sep + 1..] == t + digest
  {
    var em, sep := EncodedMessage(nsize, t, digest), nsize - 1 - |t| - |digest|;
    assert em == [0, 1] + Ones(sep - 2) + [0] + (t + digest);
    if 2 <= i < sep { OnesAt(sep - 2, i - 2); }
  }

  /** Nothing else is encoded alike: the first zero behind the padding ends it. */
  lemma EncodedInjective(nsize: nat, t: seq<u8>, digest: seq<u8>, t': seq<u8>, digest': seq<u8>)
    requires nsize >= 3 + |t| + |digest| && nsize >= 3 + |t'| + |digest'|
    requires EncodedMessage(nsize, t, digest) == EncodedMessage(nsize, t', digest')
    ensures t + digest == t' + digest'
  {
    var sep, sep' := nsize - 1 - |t| - |digest|, nsize - 1 - |t'| - |digest'|;
    EncodedAt(nsize, t, digest, sep);
    EncodedAt(nsize, t', digest', sep);
    EncodedAt(nsize, t, digest, sep');
    EncodedAt(nsize, t', digest', sep');
  }

  predicate HashOf(t: seq<u8>, digest: seq<u8>)
  {
    (t == T_SHA1 && |digest| == 20) || (t == T_SHA256 && |digest| == 32)
  }

  /** So an encoded message stands for one hash algorithm and one digest. */
  lemma EncodedBinds(nsize: nat, t: seq<u8>, digest: seq<u8>, t': seq<u8>, digest': seq<u8>)
    requires HashOf(t, digest) && HashOf(t', digest') && nsize >= 3 + |t| + |digest| && nsize >= 3 + |t'| + |digest'|
    requires FromUbin(EncodedMessage(nsize, t, digest)) == FromUbin(EncodedMessage(nsize, t', digest'))
    ensures t == t' && digest == digest'
  {
    FromInjective(EncodedMessage(nsize, t, digest), EncodedMessage(nsize, t', digest'));
    EncodedInjective(nsize, t, digest, t', digest');
    var x, y := t + digest, t' + digest';
    assert x[1] == t[1] && y[1] == t'[1];
    assert x[|t|..] == digest && y[|t'|..] == digest';
  }

  /** The encoded message is a residue: its leading byte is zero. */
  lemma EncodedBelow(n: nat, t: seq<u8>, digest: seq<u8>)
    requires |ToUbin(n)| >= 3 + |t| + |digest|
    ensures FromUbin(EncodedMessage(|ToUbin(n)|, t, digest)) < n
  {
    LeadingZero(EncodedMessage(|ToUbin(n)|, t, digest));
    BelowByLength(n, FromUbin(EncodedMessage(|ToUbin(n)|, t, digest)));
  }

  lemma BelowByLength(n: nat, v: nat)
    requires |ToUbin(n)| > 0 && v < Pow(0x100, |ToUbin(n)| - 1)
    ensures v < n
  {
    ToBounds(n);
  }

  // -------------------------------------------------------- signing and verifying

  datatype Outcome = Exit | Written(bytes: seq<u8>)
  datatype Verdict = Success | Failure | Fatal

  ghost function EmOf(key: RsaKey, t: seq<u8>, digest: seq<u8>): nat
    requires key.n >= 0 && |ToUbin(key.n)| >= 3 + |t| + |digest|
  {
    FromUbin(EncodedMessage(|ToUbin(key.n)|, t, digest))
  }

  /** The blinded computation: r cancels out. */
  lemma Blinding(key: RsaKey, em: int, r: int, inverse: int, s: int)
    requires KeyRelations(key) && key.p != key.q && key.n > 0 && IsInverse(r, inverse, key.n)
    requires s == (Pow((em * (Pow(r, key.e) % key.n)) % key.n, key.d) % key.n * inverse) % key.n
    ensures s == Pow(em, key.d) % key.n
  {
    var n, re := key.n, Pow(r, key.e) % key.n;
    var blinded := (em * re) % n;
    assert blinded % n == (em * Pow(r, key.e)) % n by {
      ModMod(Pow(r, key.e), n);
      ModMul(em, em, re, Pow(r, key.e), n);
      ModMod(em * re, n);
    }
    var emd := Pow(em, key.d);
    assert Pow(blinded, key.d) % n == (emd * r) % n by {
      ModPow(blinded, em * Pow(r, key.e), key.d, n);
      PowProduct(em, Pow(r, key.e), key.d);
      PowMul(r, key.e, key.d);
      Trapdoor(key, r);
      ModMul(emd, emd, Pow(Pow(r, key.e), key.d), r, n);
    }
    Unblind(Pow(blinded, key.d), emd, r, inverse, n);
  }

  lemma Unblind(x: int, y: int, r: int, inverse: int, n: int)
    requires n > 0 && x % n == (y * r) % n && (r * inverse) % n == 1 % n
    ensures (x % n * inverse) % n == y % n
  {
    ModMod(x, n);
    ModMul(x % n, y * r, inverse, inverse, n);
    MulAssoc(y, r, inverse);
    ModMul(y, y, r * inverse, 1, n);
  }

  /** The private power of the encoded message: with a random blinding value, or plainly in the build
      without blinding. A value without inverse exits. */
  method PrivatePower(key: RsaKey, em: nat, blinding: Option<int>) returns (s: Option<nat>)
    requires key.n > 0 && key.e >= 0 && key.d >= 0
    ensures s.None? <==> blinding.Some? && forall x :: !IsInverse(blinding.value, x, key.n)
    ensures s.Some? ==> s.value < key.n
    ensures s.Some? && (blinding.None? || (KeyRelations(key) && key.p != key.q)) ==> s.value == Pow(em, key.d) % key.n
  {
    if blinding.None? { return Some(Pow(em, key.d) % key.n); }
    var tmp2 := blinding.value;
    var t := Pow(tmp2, key.e) % key.n;
    var tmp3 := InvMod(tmp2, key.n);
    if tmp3.None? { return None; }
    tmp2 := (em * t) % key.n;
    var s' := Pow(tmp2, key.d) % key.n;
    t := (s' * tmp3.value) % key.n;
    if KeyRelations(key) && key.p != key.q { Blinding(key, em, blinding.value, tmp3.value, t); }
    s := Some(t);
  }

  /** buf_put_rsa_sign from the length field on. */
  method Sign(key: RsaKey, t: seq<u8>, digest: seq<u8>, blinding: Option<int>) returns (o: Outcome)
    requires key.n > 0 && key.e >= 0 && key.d >= 0 && |ToUbin(key.n)| < 0x1_0000_0000
    ensures o.Exit? <==>
      |ToUbin(key.n)| < 3 + |t| + |digest| || (blinding.Some? && forall x :: !IsInverse(blinding.value, x, key.n))
    ensures o.Written? ==> |o.bytes| == 4 + |ToUbin(key.n)| && FromUbin(o.bytes[..4]) == |ToUbin(key.n)|
    ensures o.Written? && (blinding.None? || (KeyRelations(key) && key.p != key.q)) ==>
      FromUbin(o.bytes[4..]) == Pow(EmOf(key, t, digest), key.d) % key.n
  {
    var nsize := |ToUbin(key.n)|;
    var padded := PadEm(nsize, t, digest);
    if padded.None? { return Exit; }
    var s := PrivatePower(key, FromUbin(padded.value), blinding);
    if s.None? { return Exit; }
    SizeMonotone(s.value, key.n);
    var pad := Padded(s.value, nsize);
    o := Written(Uint32(nsize) + pad);
    assert o.bytes[..4] == Uint32(nsize) && o.bytes[4..] == pad;
  }

  ghost predicate Verifies(key: RsaKey, t: seq<u8>, digest: seq<u8>, buf: seq<u8>)
    requires key.n > 0 && key.e >= 0
  {
    && |buf| >= 4 && |ToUbin(key.n)| >= 3 + |t| + |digest|
    && FromUbin(buf[..4]) == |ToUbin(key.n)| && FromUbin(buf[4..]) < key.n
    && Pow(FromUbin(buf[4..]), key.e) % key.n == EmOf(key, t, digest)
  }

  /** The same bytes never verify for two digests, or for one digest under two hash algorithms. */
  lemma OneDigest(key: RsaKey, buf: seq<u8>, t: seq<u8>, digest: seq<u8>, t': seq<u8>, digest': seq<u8>)
    requires key.n > 0 && key.e >= 0 && HashOf(t, digest) && HashOf(t', digest')
    requires Verifies(key, t, digest, buf) && Verifies(key, t', digest', buf)
    ensures t == t' && digest == digest'
  {
    EncodedBinds(|ToUbin(key.n)|, t, digest, t', digest');
  }

  /** buf_rsa_verify from the length field on. The number is read from everything that is left
      in the buffer, whatever the length field says. */
  method Verify(key: RsaKey, t: seq<u8>, digest: seq<u8>, buf: seq<u8>) returns (v: Verdict)
    requires key.n > 0 && key.e >= 0
    ensures v.Fatal? ==> |buf| < 4 || |ToUbin(key.n)| < 3 + |t| + |digest|
    ensures v.Success? <==> Verifies(key, t, digest, buf)
  {
    if |buf| < 4 { return Fatal; }
    var slen := FromUbin(buf[..4]);
    if slen != |ToUbin(key.n)| { return Failure; }
    var s := FromUbin(buf[4..]);
    if s >= key.n { return Failure; }
    var padded := PadEm(|ToUbin(key.n)|, t, digest);
    if padded.None? { return Fatal; }
    var em := FromUbin(padded.value);
    var mdash := Pow(s, key.e) % key.n;
    v := if em == mdash then Success else Failure;
  }

  /** Only one number verifies: the one that signing computes. */
  lemma OnlySignature(key: RsaKey, s: int, em: int)
    requires KeyRelations(key) && key.p != key.q && 0 <= s < key.n && 0 <= em
    ensures Pow(s, key.e) % key.n == em <==> em < key.n && s == Pow(em, key.d) % key.n
  {
    var n := key.n;
    if Pow(s, key.e) % n == em {
      ModMod(Pow(s, key.e), n);
      ModPow(em, Pow(s, key.e), key.d, n);
      PowMul(s, key.e, key.d);
      Trapdoor(key, s);
      ModSmall(s, n);
    } else if em < n {
      SignVerifyIdentity(key, em);
      ModSmall(em, n);
    }
  }

  /** A signature that ends the buffer verifies, for every message, with any blinding value or none. */
  method SignThenVerify(key: RsaKey, t: seq<u8>, digest: seq<u8>, blinding: Option<int>)
    returns (o: Outcome, v: Verdict)
    requires KeyRelations(key) && key.p != key.q && key.n > 0 && |ToUbin(key.n)| < 0x1_0000_0000
    ensures o.Written? ==> v.Success?
  {
    o := Sign(key, t, digest, blinding);
    v := Failure;
    if o.Written? {
      v := Verify(key, t, digest, o.bytes);
      SignVerifyIdentity(key, EmOf(key, t, digest));
      EncodedBelow(key.n, t, digest);
      ModSmall(EmOf(key, t, digest), key.n);
    }
  }
}
