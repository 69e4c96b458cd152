/** What both sides hash and derive in a key exchange (common-kex.c, buffer.c): equal inputs to the
    exchange hash and no two different transcripts with the same input, the same shared secret, and
    the same keys in opposite directions. */
module KeyDerivation {
  import opened Arith
  import opened Common
  import opened Digits
  import opened Bignum
  import opened NumberTheory

  const BUF_MAX_MPINT: nat := 8240 / 8
  const MAX_IV_LEN: nat := 20
  const MAX_KEY_LEN: nat := 64

  // ------------------------------------------------------------------ SSH strings and integers

  /** buf_putstring */
  function PutString(s: seq<u8>): seq<u8>
    requires |s| < 0x1_0000_0000
  {
    Uint32(|s|) + s
  }

  /** mp_count_bits */
  function Bits(x: nat): (n: nat)
    ensures x > 0 ==> n > 0
  {
    if x == 0 then 0 else Bits(x / 2) + 1
  }

  /** The length field that buf_putmpint computes from the number of bits, and the padding byte that
      keeps the number from looking negative. */
  function MpintLen(x: nat): (nat, nat)
  {
    if x == 0 then (0, 0) else (Bits(x) / 8 + 1, if Bits(x) % 8 == 0 then 1 else 0)
  }

  lemma {:induction false} BitsMonotone(x: nat, y: nat)
    requires x <= y
    ensures Bits(x) <= Bits(y) && MpintLen(x).0 <= MpintLen(y).0
  {
    if x > 0 { BitsMonotone(x / 2, y / 2); }
  }

  lemma BitsByFour(x: nat)
    requires x >= 4
    ensures Bits(x) == Bits(x / 4) + 2
  {
    assert x / 2 / 2 == x / 4;
    assert Bits(x / 2) == Bits(x / 2 / 2) + 1;
  }

  lemma BitsBySixteen(x: nat)
    requires x >= 16
    ensures Bits(x) == Bits(x / 16) + 4
  {
    BitsByFour(x);
    BitsByFour(x / 4);
    assert x / 4 / 4 == x / 16;
  }

  lemma BitsByByte(x: nat)
    requires x >= 0x100
    ensures Bits(x) == Bits(x / 0x100) + 8
  {
    BitsBySixteen(x);
    BitsBySixteen(x / 16);
    assert x / 16 / 16 == x / 0x100;
  }

  lemma BitsOfNibble(x: nat)
    requires 0 < x < 16
    ensures 1 <= Bits(x) <= 4 && (Bits(x) == 4 <==> x >= 8)
  {
    if x >= 4 { BitsByFour(x); BitsOfPair(x / 4); } else { BitsOfPair(x); }
  }

  lemma BitsOfPair(x: nat)
    requires 0 < x < 4
    ensures Bits(x) == if x >= 2 then 2 else 1
  {
    assert Bits(1) == 1;
    assert x / 2 == if x >= 2 then 1 else 0;
  }

  lemma BitsOfByte(x: nat)
    requires 0 < x < 0x100
    ensures 1 <= Bits(x) <= 8 && (Bits(x) == 8 <==> x >= 0x80)
  {
    if x >= 16 { BitsBySixteen(x); BitsOfNibble(x / 16); } else { BitsOfNibble(x); }
  }

  /** The length field is right, and the first byte then written is below 0x80. */
  lemma {:induction false} MpintBytes(x: nat)
    requires x > 0
    ensures MpintLen(x).0 == |ToUbin(x)| + MpintLen(x).1
    ensures |ToUbin(x)| > 0 && (ToUbin(x)[0] >= 0x80 <==> MpintLen(x).1 == 1)
  {
    if x < 0x100 {
      BitsOfByte(x);
      assert x / 0x100 == 0 && ToUbin(x) == [x];
    } else {
      BitsByByte(x);
      MpintBytes(x / 0x100);
      assert ToUbin(x)[0] == ToUbin(x / 0x100)[0];
    }
  }

  /** The bytes buf_putmpint writes behind the length. */
  function MpintBody(x: nat): seq<u8>
  {
    (if MpintLen(x).1 == 1 then [0] else []) + ToUbin(x)
  }

  /** They are a two's complement number as in section 5 of RFC 4251, never negative. */
  lemma MpintBodyOk(x: nat)
    ensures |MpintBody(x)| == MpintLen(x).0 && FromUbin(MpintBody(x)) == x
    ensures MpintBody(x) != [] ==> MpintBody(x)[0] < 0x80
  {
    FromTo(x);
    if x > 0 {
      MpintBytes(x);
      PaddedValue(1, ToUbin(x));
      assert Zeros(1) == [0];
      assert [] + ToUbin(x) == ToUbin(x);
    }
  }

  /** buf_putmpint */
  function PutMpint(x: nat): (s: seq<u8>)
    requires MpintLen(x).0 < 0x1_0000_0000
  {
    Uint32(MpintLen(x).0) + MpintBody(x)
  }

  /** buf_getmpint at the start of a buffer: the number and what is left, or a failure. */
  datatype Got = Got(x: nat, rest: seq<u8>) | Failed

  function GetMpint(b: seq<u8>): Got
  {
    if |b| < 4 then Failed
    else
      var len := FromUbin(b[..4]);
      if len == 0 then Got(0, b[4..])
      else if len > BUF_MAX_MPINT || |b| < 4 + len || b[4] >= 0x80 then Failed
      else Got(FromUbin(b[4..4 + len]), b[4 + len..])
  }

  /** A number that fits comes back, and nothing behind it is touched. */
  lemma MpintRoundTrip(x: nat, rest: seq<u8>)
    requires MpintLen(x).0 <= BUF_MAX_MPINT
    ensures GetMpint(PutMpint(x) + rest) == Got(x, rest)
  {
    MpintBodyOk(x);
    var b, body := PutMpint(x) + rest, MpintBody(x);
    assert b[..4] == Uint32(|body|);
    assert b[4..4 + |body|] == body && b[4 + |body|..] == rest;
    if body != [] { assert b[4] == body[0]; }
  }

  // ------------------------------------------------------------------ exchange hash

  /** The values both sides know at the end of a Diffie-Hellman exchange. */
  datatype Transcript = Transcript(vc: seq<u8>, vs: seq<u8>, ic: seq<u8>, ir: seq<u8>, hostkey: seq<u8>, e: nat,
                                   f: nat, k: nat)

  function Fields(t: Transcript): seq<seq<u8>>
  {
    [t.vc, t.vs, t.ic, t.ir, t.hostkey, MpintBody(t.e), MpintBody(t.f), MpintBody(t.k)]
  }

  predicate Short(ss: seq<seq<u8>>)
  {
    forall i :: 0 <= i < |ss| ==> |ss[i]| < 0x1_0000_0000
  }

  /** Strings one after another. */
  function Strings(ss: seq<seq<u8>>): seq<u8>
    requires Short(ss)
  {
    if ss == [] then [] else Strings(ss[..|ss| - 1]) + PutString(ss[|ss| - 1])
  }

  /** The input of the exchange hash in section 8 of RFC 4253. */
  function HashInput(t: Transcript): seq<u8>
    requires Short(Fields(t))
  {
    Strings(Fields(t))
  }

  /** Written out: V_C, V_S, I_C, I_S and K_S as strings, then e, f and K as integers. */
  lemma HashInputRfc(t: Transcript)
    requires Short(Fields(t)) && MpintLen(t.e).0 < 0x1_0000_0000 && MpintLen(t.f).0 < 0x1_0000_0000
    requires MpintLen(t.k).0 < 0x1_0000_0000
    ensures |t.vc| < 0x1_0000_0000 && |t.vs| < 0x1_0000_0000 && |t.ic| < 0x1_0000_0000 && |t.ir| < 0x1_0000_0000
    ensures |t.hostkey| < 0x1_0000_0000
    ensures HashInput(t) == PutString(t.vc) + PutString(t.vs) + PutString(t.ic) + PutString(t.ir) + PutString(t.hostkey)
                            + PutMpint(t.e) + PutMpint(t.f) + PutMpint(t.k)
  {
    FieldsShort(t);
    var five, a, b, c := [t.vc, t.vs, t.ic, t.ir, t.hostkey], MpintBody(t.e), MpintBody(t.f), MpintBody(t.k);
    FiveStrings(t.vc, t.vs, t.ic, t.ir, t.hostkey);
    MpintString(t.e);
    MpintString(t.f);
    MpintString(t.k);
    ThreeMore(five, a, b, c);
    assert Fields(t) == five + [a] + [b] + [c];
  }

  lemma MpintString(x: nat)
    requires MpintLen(x).0 < 0x1_0000_0000
    ensures |MpintBody(x)| < 0x1_0000_0000 && PutMpint(x) == PutString(MpintBody(x))
  {
    MpintBodyOk(x);
  }

  lemma ThreeMore(ss: seq<seq<u8>>, a: seq<u8>, b: seq<u8>, c: seq<u8>)
    requires Short(ss) && |a| < 0x1_0000_0000 && |b| < 0x1_0000_0000 && |c| < 0x1_0000_0000
    ensures Short(ss + [a] + [b] + [c])
    ensures Strings(ss + [a] + [b] + [c]) == Strings(ss) + PutString(a) + PutString(b) + PutString(c)
  {
    StringsSnoc(ss, a);
    StringsSnoc(ss + [a], b);
    StringsSnoc(ss + [a] + [b], c);
  }

  lemma StringsSnoc(ss: seq<seq<u8>>, s: seq<u8>)
    requires Short(ss) && |s| < 0x1_0000_0000
    ensures Short(ss + [s]) && Strings(ss + [s]) == Strings(ss) + PutString(s)
  {
    assert (ss + [s])[..|ss|] == ss;
  }

  lemma FiveStrings(a: seq<u8>, b: seq<u8>, c: seq<u8>, d: seq<u8>, e: seq<u8>)
    requires |a| < 0x1_0000_0000 && |b| < 0x1_0000_0000 && |c| < 0x1_0000_0000 && |d| < 0x1_0000_0000
    requires |e| < 0x1_0000_0000
    ensures Short([a, b, c, d, e])
    ensures Strings([a, b, c, d, e]) == PutString(a) + PutString(b) + PutString(c) + PutString(d) + PutString(e)
  {
    StringsSnoc([], a);
    assert [] + [a] == [a] && [] + PutString(a) == PutString(a);
    StringsSnoc([a], b);
    assert [a] + [b] == [a, b];
    ThreeMore([a, b], c, d, e);
    assert [a, b] + [c] + [d] + [e] == [a, b, c, d, e];
  }

  /** What one side holds: its own and the peer's version, KEXINIT and public value. */
  datatype View = View(client: bool, localIdent: seq<u8>, remoteIdent: seq<u8>, transkexinit: seq<u8>, payload: seq<u8>,
                       hostkey: seq<u8>, pubUs: nat, pubThem: nat)

  /** The transcript that a side sees when it computes the secret k. */
  function Seen(v: View, k: nat): Transcript
  {
    if v.client then
      Transcript(v.localIdent, v.remoteIdent, v.transkexinit, v.payload, v.hostkey, v.pubUs, v.pubThem, k)
    else Transcript(v.remoteIdent, v.localIdent, v.payload, v.transkexinit, v.hostkey, v.pubThem, v.pubUs, k)
  }

  class HashBuf {
    var data: seq<u8>
    ghost var strings: seq<seq<u8>>

    ghost predicate Valid()
      reads this
    {
      Short(strings) && data == Strings(strings)
    }

    constructor ()
      ensures Valid() && strings == []
    {
      data, strings := [], [];
    }

    method BufPutString(s: seq<u8>)
      requires Valid() && |s| < 0x1_0000_0000
      modifies this
      ensures Valid() && strings == old(strings) + [s]
    {
      data := data + PutString(s);
      strings := strings + [s];
      assert strings[..|strings| - 1] == old(strings);
    }

    method BufPutMpint(x: nat)
      requires Valid() && MpintLen(x).0 < 0x1_0000_0000
      modifies this
      ensures Valid() && strings == old(strings) + [MpintBody(x)]
    {
      MpintBodyOk(x);
      data := data + PutMpint(x);
      strings := strings + [MpintBody(x)];
      assert strings[..|strings| - 1] == old(strings);
    }
  }

  /** The part of kexhashbuf that recv_msg_kexinit fills. */
  method StartHash(v: View, ghost k: nat) returns (buf: HashBuf)
    requires Short(Fields(Seen(v, k)))
    ensures fresh(buf) && buf.Valid() && buf.strings == Fields(Seen(v, k))[..4]
  {
    buf := new HashBuf();
    assert Fields(Seen(v, k))[..4] == [Seen(v, k).vc, Seen(v, k).vs, Seen(v, k).ic, Seen(v, k).ir];
    FieldsShort(Seen(v, k));
    if v.client {
      buf.BufPutString(v.localIdent);
      buf.BufPutString(v.remoteIdent);
      buf.BufPutString(v.transkexinit);
      buf.BufPutString(v.payload);
    } else {
      buf.BufPutString(v.remoteIdent);
      buf.BufPutString(v.localIdent);
      buf.BufPutString(v.payload);
      buf.BufPutString(v.transkexinit);
    }
  }

  lemma FieldsShort(t: Transcript)
    requires Short(Fields(t))
    ensures |t.vc| < 0x1_0000_0000 && |t.vs| < 0x1_0000_0000 && |t.ic| < 0x1_0000_0000 && |t.ir| < 0x1_0000_0000
    ensures |t.hostkey| < 0x1_0000_0000 && MpintLen(t.e).0 < 0x1_0000_0000 && MpintLen(t.f).0 < 0x1_0000_0000
    ensures MpintLen(t.k).0 < 0x1_0000_0000
  {
    var ss := Fields(t);
    assert |ss[0]| < 0x1_0000_0000 && |ss[1]| < 0x1_0000_0000 && |ss[2]| < 0x1_0000_0000 && |ss[3]| < 0x1_0000_0000;
    assert |ss[4]| < 0x1_0000_0000 && |ss[5]| < 0x1_0000_0000 && |ss[6]| < 0x1_0000_0000 && |ss[7]| < 0x1_0000_0000;
    MpintBodyOk(t.e);
    MpintBodyOk(t.f);
    MpintBodyOk(t.k);
  }

  /** The rest, from kexdh_comb_key: the buffer is then the hash input both sides agree on. */
  method FinishHash(v: View, buf: HashBuf, k: nat)
    requires Short(Fields(Seen(v, k))) && buf.Valid() && buf.strings == Fields(Seen(v, k))[..4]
    modifies buf
    ensures buf.data == HashInput(Seen(v, k))
  {
    FieldsShort(Seen(v, k));
    var e, f := if v.client then v.pubUs else v.pubThem, if v.client then v.pubThem else v.pubUs;
    buf.BufPutString(v.hostkey);
    buf.BufPutMpint(e);
    buf.BufPutMpint(f);
    buf.BufPutMpint(k);
    assert buf.strings == Fields(Seen(v, k));
  }

  /** A string at the end can be told from what precedes it, given how many strings there are. */
  lemma {:induction false} StringsFront(ss: seq<seq<u8>>, rest: seq<u8>, tt: seq<seq<u8>>, rest': seq<u8>)
    requires Short(ss) && Short(tt) && |ss| == |tt| && Strings(ss) + rest == Strings(tt) + rest'
    ensures ss == tt && rest == rest'
    decreases |ss|
  {
    if ss == [] {
      assert Strings(ss) + rest == rest && Strings(tt) + rest' == rest';
    } else {
      var n := |ss| - 1;
      var a, b := ss[n], tt[n];
      Regroup(Strings(ss[..n]), PutString(a), rest);
      Regroup(Strings(tt[..n]), PutString(b), rest');
      StringsFront(ss[..n], PutString(a) + rest, tt[..n], PutString(b) + rest');
      StringPrefix(a, rest, b, rest');
      assert ss == ss[..n] + [a] && tt == tt[..n] + [b];
    }
  }

  /** A string in front can be told from what follows. */
  lemma StringPrefix(a: seq<u8>, x: seq<u8>, b: seq<u8>, y: seq<u8>)
    requires |a| < 0x1_0000_0000 && |b| < 0x1_0000_0000 && PutString(a) + x == PutString(b) + y
    ensures a == b && x == y
  {
    var s, t := PutString(a) + x, PutString(b) + y;
    assert s[..4] == Uint32(|a|) && t[..4] == Uint32(|b|);
    assert s[4..] == a + x && t[4..] == b + y;
    assert a == (a + x)[..|a|] && b == (b + y)[..|b|];
    assert x == (a + x)[|a|..] && y == (b + y)[|b|..];
  }

  /** Different transcripts are never hashed alike. */
  lemma HashInputInjective(t: Transcript, u: Transcript)
    requires Short(Fields(t)) && Short(Fields(u)) && HashInput(t) == HashInput(u)
    ensures t == u
  {
    StringsFront(Fields(t), [], Fields(u), []);
    var ss, tt := Fields(t), Fields(u);
    assert ss[0] == tt[0] && ss[1] == tt[1] && ss[2] == tt[2] && ss[3] == tt[3] && ss[4] == tt[4];
    assert ss[5] == tt[5] && ss[6] == tt[6] && ss[7] == tt[7];
    MpintBodyOk(t.e);
    MpintBodyOk(t.f);
    MpintBodyOk(t.k);
    MpintBodyOk(u.e);
    MpintBodyOk(u.f);
    MpintBodyOk(u.k);
  }

  // ------------------------------------------------------------------ shared secret

  /** What kexdh_comb_key accepts of the peer. */
  predicate InRange(pub: nat, p: nat)
  {
    2 <= pub <= p - 2
  }

  method CombKey(priv: nat, pubThem: nat, p: nat) returns (k: Option<nat>)
    requires p > 2
    ensures k == if InRange(pubThem, p) then Some(Pow(pubThem, priv) % p) else None
  {
    if pubThem >= p - 1 || pubThem <= 1 { return None; }
    k := Some(Pow(pubThem, priv) % p);
  }

  /** The public value of a private exponent below the order is never refused: in a group modulo
      p = 2q + 1 whose generator has the odd prime order q, no such power is 0, 1 or -1. */
  lemma PublicInRange(p: int, q: int, g: nat, x: nat)
    requires p == 2 * q + 1 && Prime(q) && q > 2 && Pow(g, q) % p == 1 && g % p != 1 && 0 < x < q
    ensures InRange(Pow(g, x) % p, p)
  {
    var v := Pow(g, x);
    PrimeOrder(p, q, g, x);
    PowMul(g, x, q);
    PowerOfOne(p, g, q, x);
    assert q * x == x * q;
    assert Pow(v, q) % p == 1;
    assert q % 2 == 1 by { assert !Divides(2, q); }
    NotZero(v, q, p);
    NotMinusOne(v, q, p);
  }

  lemma NotZero(v: int, q: nat, p: int)
    requires p > 1 && q > 0 && Pow(v, q) % p == 1
    ensures v % p != 0
  {
    ModSmall(0, p);
    if v % p == 0 { ModMul(v, 0, Pow(v, q - 1), Pow(v, q - 1), p); }
  }

  lemma NotMinusOne(v: int, q: nat, p: int)
    requires p > 2 && q % 2 == 1 && Pow(v, q) % p == 1
    ensures v % p != p - 1
  {
    ModIntro(p - 1, -1, 1, p);
    ModSmall(p - 1, p);
    OddPower(q);
    if v % p == p - 1 { ModPow(v, -1, q, p); }
  }

  lemma {:induction false} OddPower(q: nat)
    requires q % 2 == 1
    ensures Pow(-1, q) == -1
  {
    if q > 1 {
      OddPower(q - 2);
      assert Pow(-1, q) == -1 * (-1 * Pow(-1, q - 2));
    }
  }

  /** Why the range is checked: a value outside it confines the secret to 0, 1 and -1 whatever the
      exponent, and one inside it never gives such a secret. */
  lemma RangeUnconfined(p: int, q: int, pub: nat, x: nat)
    requires p == 2 * q + 1 && Prime(p) && Prime(q) && q > 2 && pub < p && 0 < x < q
    ensures InRange(pub, p) <==> InRange(Pow(pub, x) % p, p)
  {
    if InRange(pub, p) { InsideStays(p, q, pub, x); } else { OutsideConfined(p, pub, x); }
  }

  lemma OutsideConfined(p: int, pub: nat, x: nat)
    requires p > 2 && pub < p && !InRange(pub, p) && x > 0
    ensures !InRange(Pow(pub, x) % p, p)
  {
    ModSmall(1, p);
    ModSmall(0, p);
    if pub == 1 {
      PowOfOne(x);
    } else if pub == p - 1 {
      ModIntro(p - 1, -1, 1, p);
      ModPow(p - 1, -1, x, p);
      SignPower(x);
    }
  }

  lemma {:induction false} SignPower(x: nat)
    ensures Pow(-1, x) == 1 || Pow(-1, x) == -1
  {
    if x > 0 { SignPower(x - 1); }
  }

  lemma InsideStays(p: int, q: int, pub: nat, x: nat)
    requires p == 2 * q + 1 && Prime(p) && Prime(q) && q > 2 && InRange(pub, p) && 0 < x < q
    ensures InRange(Pow(pub, x) % p, p)
  {
    var s, w := pub * pub, Pow(pub, x);
    SquareOrder(p, q, pub, s);
    PrimeOrder(p, q, s, x);
    PowProduct(pub, pub, x);
    assert (w * w) % p != 1;
    SquareOfSign(w, p);
    NonzeroPower(p, pub, x);
  }

  lemma SquareOfSign(w: int, p: int)
    requires p > 2 && (w * w) % p != 1
    ensures w % p != 1 && w % p != p - 1
  {
    ModSmall(1, p);
    ModSmall(p - 1, p);
    ModIntro(p - 1, -1, 1, p);
    if w % p == 1 { ModMul(w, 1, w, 1, p); }
    if w % p == p - 1 { ModMul(w, -1, w, -1, p); }
  }

  lemma {:induction false} NonzeroPower(p: int, v: int, x: nat)
    requires Prime(p) && !Divides(p, v)
    ensures Pow(v, x) % p != 0
  {
    if x == 0 {
      ModSmall(1, p);
    } else {
      NonzeroPower(p, v, x - 1);
      NotDivisible(p, v, Pow(v, x - 1));
    }
  }

  lemma SquareOrder(p: int, q: int, pub: nat, s: nat)
    requires p == 2 * q + 1 && Prime(p) && q > 0 && InRange(pub, p) && s == pub * pub
    ensures Pow(s, q) % p == 1 && s % p != 1 && !Divides(p, pub)
  {
    ModSmall(pub, p);
    Fermat(p, pub);
    PowMul(pub, 2, q);
    Squared(pub);
    SquareNotOne(p, pub);
  }

  lemma Squared(v: int)
    ensures Pow(v, 2) == v * v
  {
    assert Pow(v, 1) == v * Pow(v, 0);
  }

  lemma SquareNotOne(p: int, v: nat)
    requires Prime(p) && InRange(v, p)
    ensures (v * v) % p != 1
  {
    ModSmall(v - 1, p);
    ModSmall(v + 1, p);
    NotDivisible(p, v - 1, v + 1);
    assert (v - 1) * (v + 1) == v * v - 1;
    MinusOne(v * v, p);
  }

  lemma MinusOne(s: int, p: int)
    requires p > 1 && (s - 1) % p != 0
    ensures s % p != 1
  {
    ModSmall(1, p);
    ModSmall(0, p);
    if s % p == 1 { ModSub(s, 1, 1, 1, p); }
  }

  /** Both sides get the same secret. */
  lemma SecretsMeet(g: nat, x: nat, y: nat, p: nat)
    requires p > 2 && g > 0
    ensures Pow(Pow(g, x) % p, y) % p == Pow(Pow(g, y) % p, x) % p == Pow(g, x * y) % p
  {
    ModMod(Pow(g, x), p);
    ModMod(Pow(g, y), p);
    ModPow(Pow(g, x) % p, Pow(g, x), y, p);
    ModPow(Pow(g, y) % p, Pow(g, y), x, p);
    PowMul(g, x, y);
    PowMul(g, y, x);
    assert x * y == y * x;
  }

  // ------------------------------------------------------------------ keys

  type Hash = seq<u8> -> seq<u8>

  predicate Sized(hash: Hash, size: nat, b: seq<u8>)
  {
    |hash(b)| == size
  }

  ghost predicate HashOk(hash: Hash, size: nat)
  {
    size > 0 && forall b :: Sized(hash, size, b)
  }

  /** Section 7.2 of RFC 4253: K1 || K2 || ..., where each further block hashes everything so far, cut
      to the length wanted. */
  ghost function Expand(hash: Hash, size: nat, pre: seq<u8>, blocks: seq<u8>, len: nat): (r: seq<u8>)
    requires HashOk(hash, size)
    ensures |r| == len
    decreases if len > |blocks| then len - |blocks| else 0
  {
    if |blocks| >= len then blocks[..len]
    else
      assert Sized(hash, size, pre + blocks);
      Expand(hash, size, pre, blocks + hash(pre + blocks), len)
  }

  ghost function KeyFor(hash: Hash, size: nat, pre: seq<u8>, letter: u8, sessionId: seq<u8>, len: nat): (r: seq<u8>)
    requires HashOk(hash, size)
    ensures |r| == len
  {
    Expand(hash, size, pre, hash(pre + [letter] + sessionId), len)
  }

  /** The first block is HASH(K || H || X || session_id) and each later one HASH(K || H || the key so
      far), as far as the length goes. */
  lemma KeyBlock(hash: Hash, size: nat, pre: seq<u8>, letter: u8, sessionId: seq<u8>, len: nat, n: nat)
    requires HashOk(hash, size) && n * size <= len
    ensures var key, w := KeyFor(hash, size, pre, letter, sessionId, len), Min(size, len - n * size);
      && |key| == len && |hash(if n == 0 then pre + [letter] + sessionId else pre + key[..n * size])| == size
      && key[n * size..n * size + w]
         == hash(if n == 0 then pre + [letter] + sessionId else pre + key[..n * size])[..w]
  {
    var first := hash(pre + [letter] + sessionId);
    assert Sized(hash, size, pre + [letter] + sessionId);
    ExpandStarts(hash, size, pre, first, len);
    if n == 0 {
      assert n * size == 0;
    } else {
      assert n * size >= size;
      ExpandBlock(hash, size, pre, first, len, 1, n);
    }
  }

  lemma {:induction false} ExpandStarts(hash: Hash, size: nat, pre: seq<u8>, blocks: seq<u8>, len: nat)
    requires HashOk(hash, size)
    ensures var w := Min(|blocks|, len); Expand(hash, size, pre, blocks, len)[..w] == blocks[..w]
    decreases if len > |blocks| then len - |blocks| else 0
  {
    if |blocks| < len {
      assert Sized(hash, size, pre + blocks);
      ExpandStarts(hash, size, pre, blocks + hash(pre + blocks), len);
      assert (blocks + hash(pre + blocks))[..|blocks|] == blocks;
    }
  }

  lemma {:induction false} ExpandBlock(hash: Hash, size: nat, pre: seq<u8>, blocks: seq<u8>, len: nat, m: nat, n: nat)
    requires HashOk(hash, size) && |blocks| == m * size && m <= n && n * size <= len
    ensures var key, w := Expand(hash, size, pre, blocks, len), Min(size, len - n * size);
      && |hash(pre + key[..n * size])| == size
      && key[n * size..n * size + w] == hash(pre + key[..n * size])[..w]
    decreases n - m
  {
    var key, more := Expand(hash, size, pre, blocks, len), hash(pre + blocks);
    ExpandStarts(hash, size, pre, blocks, len);
    assert Sized(hash, size, pre + blocks) && Sized(hash, size, pre + key[..n * size]);
    if m == n {
      assert key[..n * size] == blocks;
      if n * size < len {
        ExpandStarts(hash, size, pre, blocks + more, len);
        var w := Min(size, len - n * size);
        assert key[..n * size + w][n * size..] == (blocks + more)[..n * size + w][n * size..];
      }
    } else {
      assert (m + 1) * size == m * size + size;
      MulMonotone(m + 1, n, size);
      if m * size < len {
        ExpandBlock(hash, size, pre, blocks + more, len, m + 1, n);
      }
    }
  }

  /** hashkeys, for a buffer of any length. */
  method HashKeys(out: array<u8>, hash: Hash, size: nat, pre: seq<u8>, letter: u8, sessionId: seq<u8>)
    requires HashOk(hash, size)
    modifies out
    ensures out[..] == KeyFor(hash, size, pre, letter, sessionId, out.Length)
  {
    var tmpout := hash(pre + [letter] + sessionId);
    assert Sized(hash, size, pre + [letter] + sessionId);
    ghost var blocks := tmpout;
    CopyTo(out, 0, tmpout[..Min(size, out.Length)]);
    var offset := size;
    while offset < out.Length
      invariant |blocks| == offset && out[..Min(offset, out.Length)] == blocks[..Min(offset, out.Length)]
      invariant Expand(hash, size, pre, blocks, out.Length) == KeyFor(hash, size, pre, letter, sessionId, out.Length)
      decreases out.Length - offset
    {
      assert out[..offset] == blocks;
      tmpout := hash(pre + out[..offset]);
      assert Sized(hash, size, pre + blocks);
      var n := Min(out.Length - offset, size);
      CopyTo(out, offset, tmpout[..n]);
      assert out[..offset + n] == blocks + tmpout[..n] == (blocks + tmpout)[..offset + n];
      assert Expand(hash, size, pre, blocks, out.Length) == Expand(hash, size, pre, blocks + tmpout, out.Length);
      blocks, offset := blocks + tmpout, offset + size;
    }
    assert out[..out.Length] == out[..];
  }

  datatype Keys = Keys(iv: seq<u8>, key: seq<u8>, mackey: seq<u8>)

  /** The keys of the client-to-server or of the server-to-client direction. */
  ghost function DirectionKeys(hash: Hash, size: nat, pre: seq<u8>, sessionId: seq<u8>, c2s: bool, macsize: nat): Keys
    requires HashOk(hash, size)
  {
    Keys(KeyFor(hash, size, pre, if c2s then 65 else 66, sessionId, MAX_IV_LEN),
         KeyFor(hash, size, pre, if c2s then 67 else 68, sessionId, MAX_KEY_LEN),
         KeyFor(hash, size, pre, if c2s then 69 else 70, sessionId, macsize))
  }

  /** The letters of section 7.2: client to server A, C and E, server to client B, D and F. */
  lemma Letters(hash: Hash, size: nat, pre: seq<u8>, sessionId: seq<u8>, macsize: nat)
    requires HashOk(hash, size)
    ensures DirectionKeys(hash, size, pre, sessionId, true, macsize)
         == Keys(KeyFor(hash, size, pre, 'A' as int, sessionId, 20), KeyFor(hash, size, pre, 'C' as int, sessionId, 64),
                 KeyFor(hash, size, pre, 'E' as int, sessionId, macsize))
    ensures DirectionKeys(hash, size, pre, sessionId, false, macsize)
         == Keys(KeyFor(hash, size, pre, 'B' as int, sessionId, 20), KeyFor(hash, size, pre, 'D' as int, sessionId, 64),
                 KeyFor(hash, size, pre, 'F' as int, sessionId, macsize))
  {}

  method NewKey(hash: Hash, size: nat, pre: seq<u8>, letter: u8, sessionId: seq<u8>, len: nat) returns (key: seq<u8>)
    requires HashOk(hash, size)
    ensures key == KeyFor(hash, size, pre, letter, sessionId, len)
  {
    var out := new u8[len];
    HashKeys(out, hash, size, pre, letter, sessionId);
    key := out[..];
  }

  /** gen_new_keys */
  method GenNewKeys(client: bool, hash: Hash, size: nat, k: nat, h: seq<u8>, sessionId: seq<u8>, transMac: nat,
                    recvMac: nat)
    returns (trans: Keys, recv: Keys)
    requires HashOk(hash, size) && MpintLen(k).0 < 0x1_0000_0000
    ensures trans == DirectionKeys(hash, size, PutMpint(k) + h, sessionId, client, transMac)
    ensures recv == DirectionKeys(hash, size, PutMpint(k) + h, sessionId, !client, recvMac)
  {
    var pre := PutMpint(k) + h;
    var transLetter, recvLetter := if client then 69 else 70, if client then 70 else 69;
    var c2sIv := NewKey(hash, size, pre, 65, sessionId, MAX_IV_LEN);
    var s2cIv := NewKey(hash, size, pre, 66, sessionId, MAX_IV_LEN);
    var c2sKey := NewKey(hash, size, pre, 67, sessionId, MAX_KEY_LEN);
    var s2cKey := NewKey(hash, size, pre, 68, sessionId, MAX_KEY_LEN);
    var transMackey := NewKey(hash, size, pre, transLetter, sessionId, transMac);
    var recvMackey := NewKey(hash, size, pre, recvLetter, sessionId, recvMac);
    trans := Keys(if client then c2sIv else s2cIv, if client then c2sKey else s2cKey, transMackey);
    recv := Keys(if client then s2cIv else c2sIv, if client then s2cKey else c2sKey, recvMackey);
  }

  // ------------------------------------------------------------------ both sides

  /** A group modulo p with generator g, and a hash. */
  datatype Group = Group(p: nat, g: nat, hash: Hash, size: nat)

  ghost predicate GroupOk(grp: Group)
  {
    grp.p > 2 && grp.g > 0 && MpintLen(grp.p).0 < 0x1_0000_0000 && HashOk(grp.hash, grp.size)
  }

  /** What a side has at the end: the hashed bytes, their hash, the session identifier, the shared
      secret and the keys of the two directions. */
  datatype Secrets = Secrets(input: seq<u8>, h: seq<u8>, sessionId: seq<u8>, k: nat, trans: Keys, recv: Keys)

  ghost predicate Sent(v: View, p: nat)
  {
    && |v.localIdent| < 0x1_0000_0000 && |v.remoteIdent| < 0x1_0000_0000 && |v.transkexinit| < 0x1_0000_0000
    && |v.payload| < 0x1_0000_0000 && |v.hostkey| < 0x1_0000_0000 && v.pubUs < p
  }

  lemma MpintShort(x: nat, p: nat)
    requires x < p && MpintLen(p).0 < 0x1_0000_0000
    ensures |MpintBody(x)| == MpintLen(x).0 < 0x1_0000_0000
  {
    BitsMonotone(x, p);
    MpintBodyOk(x);
  }

  lemma SentShort(v: View, p: nat, k: nat)
    requires Sent(v, p) && v.pubThem < p && k < p && MpintLen(p).0 < 0x1_0000_0000
    ensures Short(Fields(Seen(v, k))) && MpintLen(k).0 < 0x1_0000_0000
  {
    MpintShort(v.pubUs, p);
    MpintShort(v.pubThem, p);
    MpintShort(k, p);
  }

  /** The secrets that belong to a transcript. */
  ghost function SecretsOf(t: Transcript, grp: Group, client: bool, first: Option<seq<u8>>, c2sMac: nat,
                           s2cMac: nat): Secrets
    requires HashOk(grp.hash, grp.size) && Short(Fields(t)) && MpintLen(t.k).0 < 0x1_0000_0000
  {
    var h := grp.hash(HashInput(t));
    var sessionId := if first.Some? then first.value else h;
    var c2s := DirectionKeys(grp.hash, grp.size, PutMpint(t.k) + h, sessionId, true, c2sMac);
    var s2c := DirectionKeys(grp.hash, grp.size, PutMpint(t.k) + h, sessionId, false, s2cMac);
    Secrets(HashInput(t), h, sessionId, t.k, if client then c2s else s2c, if client then s2c else c2s)
  }

  /** One side from recv_msg_kexinit to gen_new_keys: the peer's value is refused or the secrets are
      those of the transcript seen. */
  method RunSide(v: View, grp: Group, priv: nat, first: Option<seq<u8>>, c2sMac: nat, s2cMac: nat)
    returns (r: Option<Secrets>)
    requires GroupOk(grp) && Sent(v, grp.p)
    ensures r.None? <==> !InRange(v.pubThem, grp.p)
    ensures r.Some? ==>
      var k := Pow(v.pubThem, priv) % grp.p;
      && Short(Fields(Seen(v, k))) && MpintLen(k).0 < 0x1_0000_0000
      && r.value == SecretsOf(Seen(v, k), grp, v.client, first, c2sMac, s2cMac)
  {
    var key := CombKey(priv, v.pubThem, grp.p);
    if key.None? { return None; }
    var k := key.value;
    SentShort(v, grp.p, k);
    var buf := StartHash(v, k);
    FinishHash(v, buf, k);
    var h := grp.hash(buf.data);
    var sessionId := if first.Some? then first.value else h;
    var trans, recv := GenNewKeys(v.client, grp.hash, grp.size, k, h, sessionId,
                                  if v.client then c2sMac else s2cMac, if v.client then s2cMac else c2sMac);
    r := Some(Secrets(buf.data, h, sessionId, k, trans, recv));
  }

  /** What a client and a server end an exchange with: they have hashed the same transcript, and hold
      the same secret, the same session identifier and the same keys in opposite directions. */
  ghost predicate Meet(c: Secrets, s: Secrets, t: Transcript, grp: Group, first: Option<seq<u8>>)
  {
    && Short(Fields(t)) && c.input == s.input == HashInput(t) && c.h == s.h == grp.hash(c.input) && c.k == s.k == t.k
    && c.sessionId == s.sessionId == (if first.Some? then first.value else c.h)
    && c.trans == s.recv && c.recv == s.trans
  }

  /** Both sides of one exchange with private values x and y. Each goes on unless the other's public value
      is out of range. */
  method ExchangeKeys(vc: seq<u8>, vs: seq<u8>, ic: seq<u8>, ir: seq<u8>, hostkey: seq<u8>, grp: Group, x: nat, y: nat,
                      first: Option<seq<u8>>, c2sMac: nat, s2cMac: nat)
    returns (client: Option<Secrets>, server: Option<Secrets>)
    requires GroupOk(grp) && Short([vc, vs, ic, ir, hostkey])
    ensures client.Some? <==> InRange(Pow(grp.g, y) % grp.p, grp.p)
    ensures server.Some? <==> InRange(Pow(grp.g, x) % grp.p, grp.p)
    ensures client.Some? && server.Some? ==>
      var t := Transcript(vc, vs, ic, ir, hostkey, Pow(grp.g, x) % grp.p, Pow(grp.g, y) % grp.p,
                          Pow(grp.g, x * y) % grp.p);
      Meet(client.value, server.value, t, grp, first)
  {
    var e, f := Pow(grp.g, x) % grp.p, Pow(grp.g, y) % grp.p;
    var ss := [vc, vs, ic, ir, hostkey];
    assert |ss[0]| < 0x1_0000_0000 && |ss[1]| < 0x1_0000_0000 && |ss[2]| < 0x1_0000_0000 && |ss[3]| < 0x1_0000_0000
           && |ss[4]| < 0x1_0000_0000;
    var atClient, atServer := View(true, vc, vs, ic, ir, hostkey, e, f), View(false, vs, vc, ir, ic, hostkey, f, e);
    SecretsMeet(grp.g, x, y, grp.p);
    client := RunSide(atClient, grp, x, first, c2sMac, s2cMac);
    server := RunSide(atServer, grp, y, first, c2sMac, s2cMac);
  }

  // ------------------------------------------------------------------ the exchanges of a connection

  /** What changes from one exchange to the next. */
  datatype Round = Round(ic: seq<u8>, ir: seq<u8>, hostkey: seq<u8>, x: nat, y: nat, c2sMac: nat, s2cMac: nat)

  function RoundTranscript(vc: seq<u8>, vs: seq<u8>, grp: Group, r: Round): Transcript
    requires grp.p > 0
  {
    Transcript(vc, vs, r.ic, r.ir, r.hostkey, Pow(grp.g, r.x) % grp.p, Pow(grp.g, r.y) % grp.p,
               Pow(grp.g, r.x * r.y) % grp.p)
  }

  /** All key exchanges of a connection, until one side refuses the other's value. The session
      identifier of every exchange, on both sides, is the hash of the first. */
  method ExchangeAll(vc: seq<u8>, vs: seq<u8>, grp: Group, rounds: seq<Round>)
    returns (clients: seq<Secrets>, servers: seq<Secrets>)
    requires GroupOk(grp) && forall r :: r in rounds ==> Short([vc, vs, r.ic, r.ir, r.hostkey])
    ensures |clients| == |servers| <= |rounds|
    ensures |clients| < |rounds| ==> var t := RoundTranscript(vc, vs, grp, rounds[|clients|]);
      !InRange(t.e, grp.p) || !InRange(t.f, grp.p)
    ensures forall i :: 0 <= i < |clients| ==>
      Meet(clients[i], servers[i], RoundTranscript(vc, vs, grp, rounds[i]), grp, Some(clients[0].h))
  {
    clients, servers := [], [];
    var clientId, serverId: Option<seq<u8>> := None, None;
    for n := 0 to |rounds|
      invariant |clients| == |servers| == n && clientId == serverId
      invariant clientId == if n == 0 then None else Some(clients[0].h)
      invariant forall i :: 0 <= i < n ==>
        Meet(clients[i], servers[i], RoundTranscript(vc, vs, grp, rounds[i]), grp, Some(clients[0].h))
    {
      var r := rounds[n];
      var client, server := ExchangeKeys(vc, vs, r.ic, r.ir, r.hostkey, grp, r.x, r.y, clientId, r.c2sMac, r.s2cMac);
      if client.None? || server.None? { return; }
      clients, servers := clients + [client.value], servers + [server.value];
      if clientId.None? { clientId := Some(client.value.h); }
      if serverId.None? { serverId := Some(server.value.h); }
    }
  }
}
