/** Key generation, signing and verification of curve25519.c on limbs. On the curve of section 5.1 of
    RFC 8032 they compute what module Ed25519 says of a group, and so every signature verifies. */
module EdDsa {
  import opened Arith
  import opened Common
  import opened Digits
  import opened Field25519
  import opened X25519
  import opened Edwards
  import opened Decompress
  import opened EdwardsLaw
  import opened EdwardsCurve
  import opened Ed25519

  /** The multiple of the base point by a number. */
  ghost function OfBase(n: nat): CurvePoint
  {
    Times(CurveGroup(), n, BASE_POINT)
  }

  /** scalarbase: coordinates of the multiple of the base point. */
  method BaseMultiple(k: seq<u8>) returns (p: Point)
    requires RfcCurve() && |k| == 32
    ensures Proper(p) && fresh(p.x) && fresh(p.y) && fresh(p.z) && fresh(p.t) && SmallPoint(p)
    ensures Represents(Value(p), OfBase(Number(k)).x, OfBase(Number(k)).y, P)
  {
    CoordinatesModel();
    ScalarBound(k);
    AllBits(Number(k), 8 * |k|);
    LadderStands(CurveGroup(), Coordinates(), BASE, BASE_POINT, BitsOf(Number(k), 8 * |k|));
    p := ScalarBase(k);
  }

  /** pack: the encoding of the point. */
  method Encode(p: Point, ghost x: CurvePoint) returns (r: seq<u8>)
    requires RfcCurve() && SmallPoint(p) && Represents(Value(p), x.x, x.y, P)
    ensures r == EncodePoint(x)
  {
    var t := new u8[32];
    Pack(t, p);
    r := t[..];
    Divides(Value(p).x, Value(p).z, x.x, P);
    Divides(Value(p).y, Value(p).z, x.y, P);
    EvalInjective(r, EncodePoint(x), 0x100);
  }

  method EncodeBase(k: seq<u8>) returns (r: seq<u8>)
    requires RfcCurve() && |k| == 32
    ensures r == EncodePoint(OfBase(Number(k)))
  {
    var p := BaseMultiple(k);
    r := Encode(p, OfBase(Number(k)));
  }

  /** dropbear_ed25519_make_key, given the random secret. */
  method MakeKey(hash: seq<u8> -> seq<u8>, sk: seq<u8>) returns (pk: seq<u8>)
    requires RfcCurve() && Hashes(hash)
    ensures pk == PublicKey(Curve(hash), sk)
  {
    var d := HashInto(hash, sk);
    ClampInPlace(d);
    pk := EncodeBase(d[..32]);
  }

  /** dropbear_ed25519_sign: the encoded nonce point, then (r + h * a) modulo the order. */
  method Sign(hash: seq<u8> -> seq<u8>, m: seq<u8>, s: array<u8>, sk: seq<u8>, pk: seq<u8>)
    requires RfcCurve() && Hashes(hash) && s.Length == 64
    modifies s
    ensures var suite := Curve(hash);
      && s[..32] == EncodePoint(OfBase(Nonce(suite, sk, m)))
      && Number(s[32..]) == Response(Nonce(suite, sk, m), Challenge(suite, s[..32], pk, m), SecretScalar(suite, sk))
  {
    var d := HashInto(hash, sk);
    ClampInPlace(d);
    var r := HashScalar(hash, d[32..] + m);
    var encoded := EncodeBase(r);
    var h := HashScalar(hash, encoded + pk + m);
    Respond(s, encoded, r, h, d[..32]);
  }

  /** unpackneg: coordinates of the inverse of the key's point, or there is none. */
  method DecodeKey(pk: seq<u8>) returns (ret: int, q: Point)
    requires RfcCurve() && |pk| == 32
    ensures fresh(q.x) && fresh(q.y) && fresh(q.z) && fresh(q.t)
    ensures ret == 0 <==> DecodeNeg(pk).Some?
    ensures ret == 0 ==> var x := DecodeNeg(pk).value; Proper(q) && SmallPoint(q) && Represents(Value(q), x.x, x.y, P)
  {
    var b := new u8[32](i requires 0 <= i < 32 => pk[i]);
    assert b[..] == pk;
    ret, q := UnpackNeg(b);
    if ret == 0 {
      AffineRepresents(Value(q), P);
      DecodesTo(pk, Value(q).x);
    }
  }

  /** h * A', where A' is what the key decodes to. */
  method KeyMultiple(q: Point, ghost x: CurvePoint, h: seq<u8>, d2: array<i64>) returns (p: Point)
    requires RfcCurve() && |h| == 32 && Proper(q) && SmallPoint(q) && Represents(Value(q), x.x, x.y, P)
    requires Small(d2[..]) && Elem(d2[..]) == (2 * D) % P && d2 !in Arrays(q)
    modifies q.x, q.y, q.z, q.t
    ensures Proper(p) && fresh(p.x) && fresh(p.y) && fresh(p.z) && fresh(p.t) && SmallPoint(p)
    ensures var r := Times(CurveGroup(), Number(h), x); Represents(Value(p), r.x, r.y, P)
  {
    CoordinatesModel();
    p := ZeroPoint();
    ScalarMultiple(p, q, h, d2, CurveGroup(), Coordinates(), x);
  }

  /** add, on points. */
  method AddTo(p: Point, q: Point, d2: array<i64>, ghost x: CurvePoint, ghost y: CurvePoint)
    requires RfcCurve() && Proper(p) && SmallPoint(p) && SmallPoint(q) && Arrays(p) !! Arrays(q)
    requires Small(d2[..]) && Elem(d2[..]) == (2 * D) % P && d2 !in Arrays(p)
    requires Represents(Value(p), x.x, x.y, P) && Represents(Value(q), y.x, y.y, P)
    modifies p.x, p.y, p.z, p.t
    ensures SmallPoint(p) && Represents(Value(p), AddPoints(x, y).x, AddPoints(x, y).y, P)
  {
    ghost var c, d := Value(p), Value(q);
    Add(p, q, d2);
    CoordinatesAdd(c, d, x, y);
  }

  /** S * B on top of a point. */
  method AddBaseMultiple(p: Point, k: seq<u8>, d2: array<i64>, ghost x: CurvePoint)
    requires RfcCurve() && |k| == 32 && Proper(p) && SmallPoint(p) && Represents(Value(p), x.x, x.y, P)
    requires Small(d2[..]) && Elem(d2[..]) == (2 * D) % P && d2 !in Arrays(p)
    modifies p.x, p.y, p.z, p.t
    ensures SmallPoint(p)
    ensures var r := AddPoints(x, OfBase(Number(k))); Represents(Value(p), r.x, r.y, P)
  {
    var sb := BaseMultiple(k);
    AddTo(p, sb, d2, x, OfBase(Number(k)));
  }

  /** h * A' + S * B */
  method Combine(q: Point, ghost x: CurvePoint, h: seq<u8>, k: seq<u8>, ghost hA: CurvePoint, ghost sB: CurvePoint)
    returns (p: Point)
    requires RfcCurve() && |h| == |k| == 32 && Proper(q) && SmallPoint(q) && Represents(Value(q), x.x, x.y, P)
    requires hA == Times(CurveGroup(), Number(h), x) && sB == OfBase(Number(k))
    modifies q.x, q.y, q.z, q.t
    ensures SmallPoint(p) && Represents(Value(p), AddPoints(hA, sB).x, AddPoints(hA, sB).y, P)
  {
    var d2 := TwiceD();
    p := KeyMultiple(q, x, h, d2);
    AddBaseMultiple(p, k, d2, hA);
  }

  /** dropbear_ed25519_verify */
  method Verify(hash: seq<u8> -> seq<u8>, m: seq<u8>, s: seq<u8>, pk: seq<u8>) returns (ret: int)
    requires RfcCurve() && Hashes(hash) && |pk| == 32
    ensures ret == 0 || ret == -1
    ensures ret == 0 <==> Accepts(Curve(hash), m, s, pk)
  {
    if |s| < 64 { return -1; }
    var bad, q := DecodeKey(pk);
    if bad != 0 { return -1; }
    ghost var x := DecodeNeg(pk).value;
    var h := HashScalar(hash, s[..32] + pk + m);
    ghost var hA, sB := Times(CurveGroup(), Number(h), x), OfBase(Number(s[32..64]));
    var p := Combine(q, x, h, s[32..64], hA, sB);
    var t := Encode(p, AddPoints(hA, sB));
    ret := if s[..32] != t then -1 else 0;
  }

  /** Every signature dropbear_ed25519_sign produces is accepted by dropbear_ed25519_verify. */
  method SignThenVerify(hash: seq<u8> -> seq<u8>, sk: seq<u8>, m: seq<u8>) returns (ret: int)
    requires RfcCurve() && Hashes(hash)
    ensures ret == 0
  {
    var pk := MakeKey(hash, sk);
    var s := new u8[64];
    Sign(hash, m, s, sk, pk);
    CurveSound(hash);
    SignatureAccepted(Curve(hash), sk, m, s[..32], s[32..]);
    assert s[..] == s[..32] + s[32..];
    ret := Verify(hash, m, s[..], pk);
  }
}
