/** The curve25519 key exchange (common-kex.c): both sides get the same secret or both refuse, and
    every point of small order is refused. */
module CurveExchange {
  import opened Arith
  import opened Common
  import opened Digits
  import opened Bignum
  import opened Field25519
  import opened X25519
  import opened Ed25519
  import opened MontgomeryCurve

  const CURVE25519_LEN: nat := 32

  lemma FirstDigit(s: seq<int>, b: int)
    requires |s| > 0 && forall k :: 0 < k < |s| ==> s[k] == 0
    ensures Eval(s, b) == s[0]
  {
    EvalSplit(s, 1, b);
    EvalFirst(s, b);
    EvalZero(s[1..], b);
  }

  /** gen_kexcurve25519_param, with the random private value as a parameter. */
  method GenParam(priv: array<u8>) returns (pub: array<u8>)
    requires priv.Length == CURVE25519_LEN
    ensures fresh(pub) && pub.Length == CURVE25519_LEN && Number(pub[..]) == Rfc7748(Number(priv[..]), 9)
  {
    var basepoint := new u8[CURVE25519_LEN](i => if i == 0 then 9 else 0);
    pub := new u8[CURVE25519_LEN];
    FirstDigit(basepoint[..], 0x100);
    ScalarMult(pub, priv, basepoint);
  }

  /** constant_time_memcmp with zeroes. */
  method AllZero(out: array<u8>) returns (zero: bool)
    requires out.Length == CURVE25519_LEN
    ensures zero <==> Number(out[..]) == 0
  {
    var i := 0;
    zero := true;
    while i < out.Length
      invariant 0 <= i <= out.Length && (zero <==> forall k :: 0 <= k < i ==> out[k] == 0)
    {
      if out[i] != 0 { zero := false; }
      i := i + 1;
    }
    ghost var zeroes: seq<u8> := Zeros(CURVE25519_LEN);
    EvalZero(zeroes, 0x100);
    if zero {
      assert out[..] == zeroes;
    } else if Number(out[..]) == 0 {
      EvalInjective(out[..], zeroes, 0x100);
    }
  }

  /** kexcurve25519_comb_key: refuse a value of the wrong length or an all-zero result. */
  method CombKey(priv: array<u8>, them: seq<u8>) returns (k: Option<nat>, ghost bytes: seq<u8>)
    requires priv.Length == CURVE25519_LEN
    ensures k.None? <==> |them| != CURVE25519_LEN || Rfc7748(Number(priv[..]), Number(them)) == 0
    ensures k.Some? ==> |bytes| == CURVE25519_LEN && Number(bytes) == Rfc7748(Number(priv[..]), Number(them))
                        && k.value == FromUbin(bytes)
  {
    bytes := [];
    if |them| != CURVE25519_LEN { return None, bytes; }
    var pub := new u8[CURVE25519_LEN](i requires 0 <= i < |them| => them[i]);
    var out := new u8[CURVE25519_LEN];
    assert pub[..] == them;
    ScalarMult(out, priv, pub);
    var zero := AllZero(out);
    if zero { return None, bytes; }
    k, bytes := Some(FromUbin(out[..])), out[..];
  }

  /** Both sides of an exchange: the secrets are equal, or both refuse. */
  method Exchange<G(!new)>(x: array<u8>, y: array<u8>, ghost cv: Curve<G>, ghost base: G)
    returns (client: Option<nat>, server: Option<nat>)
    requires x.Length == y.Length == CURVE25519_LEN && Lawful(cv) && cv.m == P && Coordinate(cv, base) == 9
    ensures client == server
    ensures client.None? <==> Rfc7748(Number(x[..]), Rfc7748(Number(y[..]), 9)) == 0
  {
    var e := GenParam(x);
    var f := GenParam(y);
    ghost var atClient, atServer;
    client, atClient := CombKey(x, f[..]);
    server, atServer := CombKey(y, e[..]);
    ModSmall(9, TWO255);
    ModSmall(9, P);
    Agreement(cv, Number(x[..]), Number(y[..]), 9, base);
    if client.Some? { EvalInjective(atClient, atServer, 0x100); }
  }

  /** Whatever the private value, a point whose order divides 8 leads to an all-zero result, which is
      refused. */
  lemma SmallOrderRefused<G(!new)>(cv: Curve<G>, k: int, q: G)
    requires Lawful(cv) && cv.m == P && Kills(cv.group, 8, q)
    ensures Rfc7748(k, Coordinate(cv, q)) == 0
  {
    var n := DecodeScalar(k);
    Multiplies(cv, k, q);
    ScalarInRange(k);
    assert n == (n / 8) * 8;
    TimesMul(cv.group, n / 8, 8, q);
    TimesZero(cv.group, n / 8);
    assert Placed(cv, cv.group.zero);
  }
}
