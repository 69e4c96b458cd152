/** Big-endian byte encodings of non-negative integers and the modular inverse, as the
    callers of libtommath see them. */
module Bignum {
  import opened Arith
  import opened Common
  import opened Digits

  /** mp_from_ubin: most significant byte first. */
  function FromUbin(s: seq<u8>): nat
  {
    if |s| == 0 then 0 else FromUbin(s[..|s| - 1]) * 0x100 + s[|s| - 1]
  }

  /** mp_to_ubin: the shortest encoding; zero is the empty string. */
  function ToUbin(x: nat): seq<u8>
  {
    if x == 0 then [] else ToUbin(x / 0x100) + [x % 0x100]
  }

  lemma {:induction false} FromTo(x: nat)
    ensures FromUbin(ToUbin(x)) == x
  {
    if x > 0 {
      FromTo(x / 0x100);
      assert ToUbin(x)[..|ToUbin(x)| - 1] == ToUbin(x / 0x100);
    }
  }

  function Zeros(k: nat): (z: seq<u8>)
    ensures |z| == k && forall i :: 0 <= i < k ==> z[i] == 0
  {
    if k == 0 then [] else Zeros(k - 1) + [0]
  }

  lemma {:induction false} FromConcat(s: seq<u8>, t: seq<u8>)
    ensures FromUbin(s + t) == FromUbin(s) * Pow(0x100, |t|) + FromUbin(t)
  {
    if |t| == 0 {
      assert s + t == s;
    } else {
      var t' := t[..|t| - 1];
      FromConcat(s, t');
      assert (s + t)[..|s + t| - 1] == s + t';
      assert (FromUbin(s) * Pow(0x100, |t'|)) * 0x100 == FromUbin(s) * Pow(0x100, |t|);
    }
  }

  lemma {:induction false} FromZeros(k: nat)
    ensures FromUbin(Zeros(k)) == 0
  {
    if k > 0 { FromZeros(k - 1); assert Zeros(k)[..k - 1] == Zeros(k - 1); }
  }

  /** Leading zero bytes do not change the number. */
  lemma PaddedValue(k: nat, s: seq<u8>)
    ensures FromUbin(Zeros(k) + s) == FromUbin(s)
  {
    FromConcat(Zeros(k), s);
    FromZeros(k);
  }

  /** Byte strings of one length stand for different numbers. */
  lemma {:induction false} FromInjective(s: seq<u8>, t: seq<u8>)
    requires |s| == |t| && FromUbin(s) == FromUbin(t)
    ensures s == t
  {
    if s != [] {
      var n := |s| - 1;
      FromInjective(s[..n], t[..n]);
      assert s == s[..n] + [s[n]] && t == t[..n] + [t[n]];
    }
  }

  lemma {:induction false} FromBound(s: seq<u8>)
    ensures FromUbin(s) < Pow(0x100, |s|)
  {
    if |s| > 0 { FromBound(s[..|s| - 1]); }
  }

  lemma {:induction false} LeadingZero(s: seq<u8>)
    requires |s| > 0 && s[0] == 0
    ensures FromUbin(s) < Pow(0x100, |s| - 1)
  {
    if |s| > 1 { LeadingZero(s[..|s| - 1]); }
  }

  lemma {:induction false} ToBounds(x: nat)
    ensures x < Pow(0x100, |ToUbin(x)|)
    ensures x > 0 ==> |ToUbin(x)| > 0 && Pow(0x100, |ToUbin(x)| - 1) <= x
  {
    if x > 0 {
      ToBounds(x / 0x100);
      if x < 0x100 { assert x / 0x100 == 0; }
    }
  }

  /** Smaller numbers need no more bytes. */
  lemma {:induction false} SizeMonotone(x: nat, y: nat)
    requires x <= y
    ensures |ToUbin(x)| <= |ToUbin(y)|
  {
    if x > 0 { SizeMonotone(x / 0x100, y / 0x100); }
  }

  /** A number below 256^n needs at most n bytes. */
  lemma {:induction false} FitsBytes(x: nat, n: nat)
    requires x < Pow(0x100, n)
    ensures |ToUbin(x)| <= n
  {
    if x > 0 {
      assert n > 0;
      FitsBytes(x / 0x100, n - 1);
    }
  }

  /** A number left-padded with zeros to `size` bytes. */
  function Padded(x: nat, size: nat): (s: seq<u8>)
    requires |ToUbin(x)| <= size
    ensures |s| == size && FromUbin(s) == x
  {
    PaddedValue(size - |ToUbin(x)|, ToUbin(x));
    FromTo(x);
    Zeros(size - |ToUbin(x)|) + ToUbin(x)
  }

  /** buf_putint: four bytes, most significant first. */
  function Uint32(x: nat): (s: seq<u8>)
    requires x < 0x1_0000_0000
    ensures |s| == 4 && FromUbin(s) == x
  {
    SizeMonotone(x, 0xffff_ffff);
    assert |ToUbin(0xffff_ffff)| <= 4 by { ToBounds(0xffff_ffff); }
    Padded(x, 4)
  }

  predicate IsInverse(a: int, x: int, m: int)
    requires m > 0
  {
    0 <= x < m && (a * x) % m == 1 % m
  }

  /** mp_invmod: an inverse in range if there is one, an error otherwise. */
  method InvMod(a: int, m: int) returns (r: Option<int>)
    requires m > 0
    ensures r.Some? ==> IsInverse(a, r.value, m)
    ensures r.None? ==> forall x :: !IsInverse(a, x, m)
  {
    var x := 0;
    while x < m
      invariant 0 <= x <= m && forall y :: 0 <= y < x ==> !IsInverse(a, y, m)
    {
      if (a * x) % m == 1 % m { return Some(x); }
      x := x + 1;
    }
    r := None;
  }
}
