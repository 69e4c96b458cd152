/** The reader on arbitrary bytes: whatever the wire carries, each payload that it hands out came in a packet
    with a valid MAC or tag, under the keys in use and the packet's own sequence number. */
module Authenticity {
  import opened Common
  import opened Digits
  import opened Bignum
  import opened FrameSpec

  // ------------------------------------------------------------------ one packet

  /** What the bytes of a packet decrypt to, in one go, and the cipher state behind it. */
  function ClearOf(s: Suite, st: nat, seqno: nat, w: seq<u8>): (seq<u8>, nat)
    requires s.bs > 0 && |w| >= s.macsize + 4
  {
    var end := |w| - s.macsize;
    if s.Chained? then DecAll(s, st, w[..end])
    else (s.header((st, seqno), w[..4]) + s.body((st, seqno), w[4..end]), st + 1)
  }

  /** The last bytes are the MAC of the clear packet under its sequence number, or the tag of the others. */
  predicate Genuine(s: Suite, st: nat, seqno: nat, w: seq<u8>)
    requires s.bs > 0 && |w| >= s.macsize + 4
  {
    var end := |w| - s.macsize;
    w[end..] == if s.Chained? then s.mac(seqno, ClearOf(s, st, seqno, w).0) else s.tag((st, seqno), w[..end])
  }

  /** The fields of a clear packet of w bytes describe it and its payload. */
  predicate Describes(s: Suite, c: seq<u8>, w: nat, payload: seq<u8>)
  {
    && |c| + s.macsize == w <= RECV_MAX_PACKET_LEN && |c| > PACKET_PAYLOAD_OFF && FromUbin(c[..4]) == |c| - 4
    && 1 <= |payload| == |c| - PACKET_PAYLOAD_OFF - c[PACKET_PADDING_OFF]
    && payload == c[PACKET_PAYLOAD_OFF..PACKET_PAYLOAD_OFF + |payload|]
  }

  /** The bytes are a packet under the given cipher state and sequence number, and carry the payload. */
  predicate Carries(s: Suite, st: nat, seqno: nat, w: seq<u8>, payload: seq<u8>, st': nat)
  {
    && s.bs > 0 && |w| >= s.macsize + 4 && Genuine(s, st, seqno, w)
    && Describes(s, ClearOf(s, st, seqno, w).0, |w|, payload) && ClearOf(s, st, seqno, w).1 == st'
  }

  lemma {:induction false} DecAllLength(s: Suite, st: nat, x: seq<u8>)
    requires Suitable(s) && s.Chained? && |x| % s.bs == 0
    ensures |DecAll(s, st, x).0| == |x|
    decreases |x|
  {
    ModBelow(|x|, s.bs);
    if |x| >= s.bs {
      assert BlockOk(s, st, x[..s.bs]);
      DecAllLength(s, s.dec(st, x[..s.bs]).1, x[s.bs..]);
    }
  }

  /** The reader has read `seen` of a packet that began in cipher state st. */
  ghost predicate Midway(s: Suite, st: nat, seqno: nat, seen: seq<u8>, r: Reader)
    requires Suitable(s)
  {
    if |seen| < s.bs then r == Reader(st, seqno, seen, 0)
    else
      var (b, st1, n) := FirstBlock(s, Reader(st, seqno, seen[..s.bs], 0));
      && r == Reader(st1, seqno, b + seen[s.bs..], Lengths(s, n).1) && |b| == s.bs <= |seen| <= r.need
      && n < WORD && !BadLength(s, Lengths(s, n).0, r.need)
  }

  /** A packet of at least a block and a MAC has the length that its first block says, without wrap-around. */
  lemma NoWrap(s: Suite, n: nat)
    requires Suitable(s) && n < WORD && !BadLength(s, Lengths(s, n).0, Lengths(s, n).1)
    requires Lengths(s, n).1 >= s.bs + s.macsize
    ensures Lengths(s, n).1 == n + 4 + s.macsize && (if s.Aead? then n else n + 4) % s.bs == 0
  {}

  /** The first block that was decrypted ahead and the others are the packet decrypted in one go. */
  lemma ClearChained(s: Suite, st: nat, seqno: nat, w: seq<u8>, r: Reader)
    requires Suitable(s) && s.Chained? && Midway(s, st, seqno, w, r) && |w| == r.need >= s.bs + s.macsize
    ensures r.need >= 4 + s.macsize && r.buf[r.need - s.macsize..] == w[|w| - s.macsize..]
    ensures var (x, st') := DecAll(s, r.st, r.buf[s.bs..r.need - s.macsize]);
      ClearOf(s, st, seqno, w) == (r.buf[..s.bs] + x, st')
  {
    var end := |w| - s.macsize;
    var b := w[..s.bs];
    assert w[..end][..s.bs] == b && w[..end][s.bs..] == w[s.bs..end];
    assert r.buf[s.bs..end] == w[s.bs..end] && r.buf[end..] == w[end..];
    assert r.buf[..s.bs] == s.dec(st, b).0;
  }

  lemma ClearLength(s: Suite, st: nat, seqno: nat, w: seq<u8>, r: Reader)
    requires Suitable(s) && Midway(s, st, seqno, w, r) && |w| == r.need >= s.bs + s.macsize && r.need >= s.macsize + 4
    ensures var c := ClearOf(s, st, seqno, w).0; |c| == |w| - s.macsize >= 4 && FromUbin(c[..4]) == |c| - 4
  {
    var end := |w| - s.macsize;
    var first := Reader(st, seqno, w[..s.bs], 0);
    var (b, st1, n) := FirstBlock(s, first);
    NoWrap(s, n);
    if s.Chained? {
      DecAllLength(s, st, w[..end]);
      ClearChained(s, st, seqno, w, r);
      assert ClearOf(s, st, seqno, w).0[..4] == b[..4];
    } else {
      var x := (st, seqno);
      assert StreamOk(s, x, w[..4]) && StreamOk(s, x, w[4..end]);
      assert w[..s.bs][..4] == w[..4];
      assert ClearOf(s, st, seqno, w).0[..4] == s.header(x, w[..4]);
    }
  }

  /** Long enough to hold a block, the length field and the trailer. */
  predicate Fits(s: Suite, w: seq<u8>)
  {
    s.bs > 0 && |w| >= s.bs + s.macsize && |w| >= s.macsize + 4
  }

  lemma UnsealsGenuine(s: Suite, st: nat, seqno: nat, w: seq<u8>, r: Reader)
    requires Suitable(s) && Midway(s, st, seqno, w, r) && |w| == r.need && Fits(s, w)
    ensures |r.buf| == r.need
    ensures var (c, st') := ClearOf(s, st, seqno, w);
      Unseal(s, r) == (if Genuine(s, st, seqno, w) then Some(c) else None, st')
  {
    if s.Chained? {
      ClearChained(s, st, seqno, w, r);
    } else {
      assert r.buf == w by { assert w[..s.bs] + w[s.bs..] == w; }
    }
  }

  /** There is a padding length, and it leaves a payload of 1 to 32768 bytes and what compression may add. */
  predicate Sized(c: seq<u8>)
  {
    |c| > 4 && 1 <= |c| - 5 - c[4] <= 32768 + 21
  }

  /** What decrypt_packet makes of a packet that is unsealed. */
  lemma Finished(s: Suite, r: Reader, c: seq<u8>, st': nat, good: bool)
    requires s.bs > 0 && |r.buf| == r.need >= s.bs + s.macsize && r.need >= 4 + s.macsize
    requires Unseal(s, r) == (if good then Some(c) else None, st') && r.need <= RECV_MAX_PACKET_LEN
    requires |c| == r.need - s.macsize && FromUbin(c[..4]) == |c| - 4
    ensures var (r', o) := FinishPacket(s, r);
      && !o.More? && (o.Integrity? <==> !good) && (o.Payload? <==> good && Sized(c))
      && (o.Payload? ==> Describes(s, c, r.need, o.p) && r' == Reader(st', (r.seqno + 1) % WORD, [], 0))
  {}

  /** decrypt_packet on any bytes: the outcome is Integrity exactly when the trailer is wrong, a payload comes
      out exactly when the trailer and the size are right, and the packet then carries it. */
  lemma FinishGenuine(s: Suite, st: nat, seqno: nat, w: seq<u8>, r: Reader)
    requires Suitable(s) && Midway(s, st, seqno, w, r) && |w| == r.need >= s.bs
    ensures |r.buf| == r.need
    ensures var (r', o) := FinishPacket(s, r);
      && !o.More? && (o.Integrity? <==> Fits(s, w) && !Genuine(s, st, seqno, w))
      && (o.Payload? <==> Fits(s, w) && Genuine(s, st, seqno, w) && Sized(ClearOf(s, st, seqno, w).0))
      && (o.Payload? ==> Carries(s, st, seqno, w, o.p, r'.st) && r' == Reader(r'.st, (seqno + 1) % WORD, [], 0))
  {
    if Fits(s, w) {
      var (c, st') := ClearOf(s, st, seqno, w);
      ClearLength(s, st, seqno, w, r);
      UnsealsGenuine(s, st, seqno, w, r);
      Finished(s, r, c, st', Genuine(s, st, seqno, w));
    }
  }

  /** A read of any bytes. */
  lemma FeedAny(s: Suite, st: nat, seqno: nat, seen: seq<u8>, r: Reader, chunk: seq<u8>)
    requires Suitable(s) && Midway(s, st, seqno, seen, r) && |chunk| <= Want(s, r)
    ensures var (r', o) := Feed(s, r, chunk); var w := seen + chunk;
      && (o.More? ==> Midway(s, st, seqno, w, r'))
      && (o.Integrity? ==> |w| >= s.macsize + 4 && !Genuine(s, st, seqno, w))
      && (o.Payload? ==> Carries(s, st, seqno, w, o.p, r'.st) && r' == Reader(r'.st, (seqno + 1) % WORD, [], 0))
  {
    var w, r1 := seen + chunk, r.(buf := r.buf + chunk);
    if |seen| < s.bs {
      if |w| == s.bs { FirstComplete(s, st, seqno, w, r1); }
    } else {
      assert w[..s.bs] == seen[..s.bs] && w[s.bs..] == seen[s.bs..] + chunk;
      assert Midway(s, st, seqno, w, r1);
      if |w| == r1.need { FinishGenuine(s, st, seqno, w, r1); }
    }
  }

  lemma FourBytes(b: seq<u8>)
    requires |b| == 4
    ensures FromUbin(b) < WORD
  {
    var x, y, z := b[..3], b[..2], b[..1];
    assert x[..2] == y && y[..1] == z && z[..0] == [];
    assert FromUbin(z) == b[0] && FromUbin(y) == FromUbin(z) * 0x100 + b[1];
    assert FromUbin(x) == FromUbin(y) * 0x100 + b[2];
  }

  lemma FirstComplete(s: Suite, st: nat, seqno: nat, w: seq<u8>, r: Reader)
    requires Suitable(s) && |w| == s.bs && r == Reader(st, seqno, w, 0)
    ensures var (r1, o1) := OpenLength(s, r); var (r', o) := if o1.More? then Complete(s, r1) else (r1, o1);
      && (o.More? ==> Midway(s, st, seqno, w, r'))
      && (o.Integrity? ==> |w| >= s.macsize + 4 && !Genuine(s, st, seqno, w))
      && (o.Payload? ==> Carries(s, st, seqno, w, o.p, r'.st) && r' == Reader(r'.st, (seqno + 1) % WORD, [], 0))
  {
    assert w[..s.bs] == w && w[s.bs..] == [];
    if s.Chained? { assert BlockOk(s, st, w); } else { assert StreamOk(s, (st, seqno), w[..4]); }
    var (b, st1, n) := FirstBlock(s, r);
    assert n < WORD by { FourBytes(if s.Chained? then b[..4] else s.header((st, seqno), w[..4])); }
    var (r1, o1) := OpenLength(s, r);
    if o1.More? {
      assert b + [] == b;
      assert Midway(s, st, seqno, w, r1);
      if |r1.buf| == r1.need { FinishGenuine(s, st, seqno, w, r1); }
    }
  }

  /** The trailer of a complete packet in the reader, whose first block is decrypted already. */
  predicate TrailerOk(s: Suite, r: Reader)
    requires s.bs > 0 && |r.buf| == r.need && Fits(s, r.buf)
  {
    var end := r.need - s.macsize;
    if s.Chained? then s.mac(r.seqno, r.buf[..s.bs] + DecAll(s, r.st, r.buf[s.bs..end]).0) == r.buf[end..]
    else s.tag((r.st, r.seqno), r.buf[..end]) == r.buf[end..]
  }

  /** decrypt_packet in any state: it exits with an integrity error exactly when the trailer is wrong. */
  lemma FinishTrailer(s: Suite, r: Reader)
    requires s.bs > 0 && |r.buf| == r.need
    ensures var o := FinishPacket(s, r).1;
      && (o.Integrity? <==> Fits(s, r.buf) && !TrailerOk(s, r)) && (o.Payload? ==> Fits(s, r.buf) && TrailerOk(s, r))
  {}

  /** What encrypt_packet seals carries its payload: it decrypts in one go, and its trailer is right. */
  lemma SealedCarries(s: Suite, st: nat, seqno: nat, f: Frame)
    requires Suitable(s) && FrameOk(s, f)
    ensures var (w, st') := Seal(s, st, seqno, Clear(s, f)); Carries(s, st, seqno, w, f.payload, st')
  {
    var c := Clear(s, f);
    var w := Seal(s, st, seqno, c).0;
    Sealed(s, st, seqno, f);
    PadLenOk(s, |f.payload|);
    var end := |w| - s.macsize;
    if s.Chained? {
      DecEnc(s, st, c);
      assert w[..end] == EncAll(s, st, c).0 && w[end..] == s.mac(seqno, c);
    } else {
      var n := (st, seqno);
      var h, b := s.header(n, c[..4]), s.body(n, c[4..]);
      assert StreamOk(s, n, c[..4]) && StreamOk(s, n, c[4..]) && StreamOk(s, n, h + b);
      assert w[..end] == h + b && w[end..] == s.tag(n, h + b) && w[..4] == h && w[4..end] == b;
      assert c == c[..4] + c[4..];
    }
  }

  // ------------------------------------------------------------------ a stream

  /** The payloads handed out before anything goes wrong. */
  function Leading(outs: seq<Outcome>): seq<seq<u8>>
  {
    if outs == [] || !outs[0].Payload? then [] else [outs[0].p] + Leading(outs[1..])
  }

  lemma {:induction false} LeadingDelivered(ps: seq<seq<u8>>)
    ensures Leading(Delivered(ps)) == ps
  {
    if ps != [] {
      LeadingDelivered(ps[1..]);
      assert Delivered(ps)[1..] == Delivered(ps[1..]);
      assert ps == [ps[0]] + ps[1..];
    }
  }

  /** A packet off the wire: its bytes, and the cipher state before and behind it. */
  datatype Opened = Opened(w: seq<u8>, st: nat, st': nat)

  /** The packets carry these payloads, one after another, each under the keys then in use and its own sequence
      number. */
  predicate CarriesAll(x: Stream, ps: seq<seq<u8>>, os: seq<Opened>)
    decreases |ps|
  {
    if ps == [] then os == []
    else
      && os != [] && os[0].st == x.st && Carries(SuiteOf(x), x.st, x.seqno, os[0].w, ps[0], os[0].st')
      && CarriesAll(Behind(x, os[0].st', ps[0]), ps[1..], os[1..])
  }

  /** Their bytes, end to end. */
  function Bytes(os: seq<Opened>): seq<u8>
  {
    if os == [] then [] else os[0].w + Bytes(os[1..])
  }

  /** The bytes begin with packets that carry these payloads. */
  ghost predicate Wired(x: Stream, ps: seq<seq<u8>>, bytes: seq<u8>)
  {
    exists os :: CarriesAll(x, ps, os) && Bytes(os) <= bytes
  }

  lemma WiredNone(x: Stream, bytes: seq<u8>)
    ensures Wired(x, [], bytes)
  {
    assert CarriesAll(x, [], []) && Bytes([]) <= bytes;
  }

  lemma WiredCons(x: Stream, w: seq<u8>, p: seq<u8>, st': nat, ps: seq<seq<u8>>, rest: seq<u8>)
    requires Carries(SuiteOf(x), x.st, x.seqno, w, p, st') && Wired(Behind(x, st', p), ps, rest)
    ensures Wired(x, [p] + ps, w + rest)
  {
    var os :| CarriesAll(Behind(x, st', p), ps, os) && Bytes(os) <= rest;
    var all, ps' := [Opened(w, x.st, st')] + os, [p] + ps;
    assert all[1..] == os && ps'[1..] == ps;
    assert CarriesAll(x, ps', all);
    assert Bytes(all) == w + Bytes(os) <= w + rest;
  }

  /** A listener that has read `seen` of the packet at which the stream stands. */
  ghost predicate Within(l: Listener, x: Stream, seen: seq<u8>)
  {
    && Keyed(x.keys) && l.keys == x.keys && l.epoch == x.epoch
    && Midway(SuiteOf(x), x.st, x.seqno, seen, l.r)
  }

  lemma HearAny(l: Listener, x: Stream, seen: seq<u8>, chunk: seq<u8>)
    requires Within(l, x, seen) && |chunk| <= Want(Hearing(l), l.r)
    ensures var (l', o) := Hear(l, chunk);
      && (o.More? ==> Within(l', x, seen + chunk))
      && (o.Payload? ==>
            exists st': nat ::
              Carries(SuiteOf(x), x.st, x.seqno, seen + chunk, o.p, st') && l' == Begin(Behind(x, st', o.p)))
  {
    FeedAny(SuiteOf(x), x.st, x.seqno, seen, l.r, chunk);
    var (r, o) := Feed(SuiteOf(x), l.r, chunk);
    if o.Payload? { HeardNext(l, x, r.st, o.p); }
  }

  lemma {:induction false} HearsGenuine(l: Listener, x: Stream, seen: seq<u8>, chunks: seq<seq<u8>>)
    requires Within(l, x, seen) && Feeds(l, chunks)
    ensures Wired(x, Leading(Outcomes(l, chunks)), seen + Concat(chunks))
    decreases |chunks|
  {
    if Leading(Outcomes(l, chunks)) == [] { WiredNone(x, seen + Concat(chunks)); }
    if chunks != [] {
      var (l', o) := Hear(l, chunks[0]);
      var rest := chunks[1..];
      HearAny(l, x, seen, chunks[0]);
      Regroup(seen, chunks[0], Concat(rest));
      if o.More? {
        HearsGenuine(l', x, seen + chunks[0], rest);
        assert Outcomes(l, chunks) == [] + Outcomes(l', rest) == Outcomes(l', rest);
      } else if o.Payload? {
        var st': nat :|
          Carries(SuiteOf(x), x.st, x.seqno, seen + chunks[0], o.p, st') && l' == Begin(Behind(x, st', o.p));
        HearsGenuine(l', Behind(x, st', o.p), [], rest);
        assert [] + Concat(rest) == Concat(rest);
        WiredCons(x, seen + chunks[0], o.p, st', Leading(Outcomes(l', rest)), Concat(rest));
        assert ([o] + Outcomes(l', rest))[1..] == Outcomes(l', rest);
      }
    }
  }

  /** However bytes of any origin are cut into pieces, what comes out was authenticated. */
  lemma OnlyGenuine(x: Stream, chunks: seq<seq<u8>>)
    requires Keyed(x.keys) && Feeds(Begin(x), chunks)
    ensures Wired(x, Leading(Outcomes(Begin(x), chunks)), Concat(chunks))
  {
    HearsGenuine(Begin(x), x, [], chunks);
    assert [] + Concat(chunks) == Concat(chunks);
  }

  /** The key exchange whose keys are in use at the i-th payload: each NEWKEYS before it counts. */
  function EpochAt(e: nat, ps: seq<seq<u8>>, i: nat): nat
    requires i <= |ps|
  {
    if i == 0 then e else EpochAt(e, ps, i - 1) + if IsNewKeys(ps[i - 1]) then 1 else 0
  }

  lemma {:induction false} EpochNext(e: nat, ps: seq<seq<u8>>, i: nat)
    requires 0 < i <= |ps|
    ensures EpochAt(e, ps, i) == EpochAt(if IsNewKeys(ps[0]) then e + 1 else e, ps[1..], i - 1)
  {
    if i > 1 { EpochNext(e, ps, i - 1); }
  }

  lemma NextNumber(seqno: nat, i: nat)
    requires i > 0
    ensures ((seqno + 1) % WORD + (i - 1)) % WORD == (seqno + i) % WORD
  {}

  /** The cipher and MAC and the sequence number of the i-th packet. */
  ghost predicate At(x: Stream, ps: seq<seq<u8>>, i: nat, s: Suite, n: nat)
    requires i <= |ps|
  {
    n == (x.seqno + i) % WORD && s == x.keys(EpochAt(x.epoch, ps, i)).suite
  }

  lemma AtNext(x: Stream, st': nat, ps: seq<seq<u8>>, i: nat, s: Suite, n: nat)
    requires 0 < i <= |ps| && At(x, ps, i, s, n)
    ensures At(Behind(x, st', ps[0]), ps[1..], i - 1, s, n)
  {
    EpochNext(x.epoch, ps, i);
    NextNumber(x.seqno, i);
  }

  /** The i-th payload came in a packet under the sequence number i further and the keys of its key exchange. */
  lemma {:induction false} CarriedAt(x: Stream, ps: seq<seq<u8>>, os: seq<Opened>, i: nat, s: Suite, n: nat)
    requires CarriesAll(x, ps, os) && i < |ps| && x.seqno < WORD && At(x, ps, i, s, n)
    ensures i < |os| && Carries(s, os[i].st, n, os[i].w, ps[i], os[i].st')
    decreases i
  {
    if i > 0 {
      AtNext(x, os[0].st', ps, i, s, n);
      CarriedAt(Behind(x, os[0].st', ps[0]), ps[1..], os[1..], i - 1, s, n);
    }
  }
}
