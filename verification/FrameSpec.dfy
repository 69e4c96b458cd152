/** Binary packets (packet.c) over values: padding, sealing and opening with an abstract cipher
    and MAC or an AEAD cipher, and a reader that is fed the wire in arbitrary pieces. */
module FrameSpec {
  import opened Common
  import opened Digits
  import opened Bignum

  const MIN_PACKET_LEN: nat := 16
  const RECV_MAX_PACKET_LEN: nat := 35000
  const RECV_MAX_PAYLOAD_LEN: nat := 32768
  const ZLIB_COMPRESS_EXPANSION: nat := 21
  const PACKET_PADDING_OFF: nat := 4
  const PACKET_PAYLOAD_OFF: nat := 5
  const MAX_MAC_LEN: nat := 64
  const WORD: nat := 0x1_0000_0000

  type Nonce = (nat, nat)

  /** What the keys of one direction provide: a block cipher with chaining state and a MAC over the
      sequence number and the clear packet, or an AEAD cipher that treats the length apart. */
  datatype Suite =
    | Chained(bs: nat, macsize: nat, enc: (nat, seq<u8>) -> (seq<u8>, nat), dec: (nat, seq<u8>) -> (seq<u8>, nat),
              mac: (nat, seq<u8>) -> seq<u8>)
    | Aead(bs: nat, macsize: nat, header: (Nonce, seq<u8>) -> seq<u8>, body: (Nonce, seq<u8>) -> seq<u8>,
           tag: (Nonce, seq<u8>) -> seq<u8>)

  predicate BlockOk(s: Suite, st: nat, b: seq<u8>)
    requires s.Chained?
  {
    && |s.dec(st, b).0| == s.bs && |s.enc(st, b).0| == s.bs
    && (|b| == s.bs ==> s.dec(st, s.enc(st, b).0) == (b, s.enc(st, b).1))
  }

  predicate StreamOk(s: Suite, n: Nonce, b: seq<u8>)
    requires s.Aead?
  {
    && |s.header(n, b)| == |b| && s.header(n, s.header(n, b)) == b
    && |s.body(n, b)| == |b| && s.body(n, s.body(n, b)) == b && |s.tag(n, b)| == s.macsize
  }

  predicate MacOk(s: Suite, n: nat, b: seq<u8>)
    requires s.Chained?
  {
    |s.mac(n, b)| == s.macsize
  }

  ghost predicate Suitable(s: Suite)
  {
    && (s.bs == 8 || s.bs == 16) && s.macsize <= MAX_MAC_LEN
    && (s.Chained? ==> (forall st, b :: BlockOk(s, st, b)) && forall n, b :: MacOk(s, n, b))
    && (s.Aead? ==> forall n, b :: StreamOk(s, n, b))
  }

  // ------------------------------------------------------------------ padding

  /** The padding that encrypt_packet chooses for a payload of n bytes. */
  function PadLen(s: Suite, n: nat): nat
    requires s.bs > 0
  {
    var len := n + PACKET_PAYLOAD_OFF;
    var p := s.bs - (if s.Aead? then len - 4 else len) % s.bs;
    var p' := if p < 4 then p + s.bs else p;
    if len + p' < MIN_PACKET_LEN then p' + s.bs else p'
  }

  /** At least four bytes, to a whole number of blocks and the minimum size, and never more than
      encrypt_packet makes room for. */
  lemma PadLenOk(s: Suite, n: nat)
    requires s.bs == 8 || s.bs == 16
    ensures var p := PadLen(s, n);
      && 4 <= p <= MIN_PACKET_LEN + 3 && (n + p + if s.Aead? then 1 else 5) % s.bs == 0
      && n + 5 + p >= MIN_PACKET_LEN && n + p + (if s.Aead? then 1 else 5) >= s.bs
  {
    var l := n + if s.Aead? then 1 else 5;
    RoundUp(l, s.bs, 1, s.bs - l % s.bs);
    RoundUp(l, s.bs, 2, 2 * s.bs - l % s.bs);
    RoundUp(l, s.bs, 3, 3 * s.bs - l % s.bs);
  }

  lemma RoundUp(l: nat, m: nat, k: nat, p: nat)
    requires (m == 8 || m == 16) && p == k * m - l % m
    ensures (l + p) % m == 0 && (l + p > 0 ==> l + p >= m)
  {
    if m == 8 { } else { }
  }

  datatype Frame = Frame(payload: seq<u8>, padding: seq<u8>)

  predicate FrameOk(s: Suite, f: Frame)
    requires s.bs > 0
  {
    1 <= |f.payload| <= RECV_MAX_PAYLOAD_LEN && |f.padding| == PadLen(s, |f.payload|)
  }

  /** The clear packet: length, padding length, payload, padding. */
  function Clear(s: Suite, f: Frame): (c: seq<u8>)
    requires (s.bs == 8 || s.bs == 16) && FrameOk(s, f)
    ensures |c| == |f.payload| + |f.padding| + 5 && c[PACKET_PADDING_OFF] == |f.padding|
    ensures FromUbin(c[..4]) == |c| - 4 && c[PACKET_PAYLOAD_OFF..PACKET_PAYLOAD_OFF + |f.payload|] == f.payload
  {
    PadLenOk(s, |f.payload|);
    var head := Uint32(|f.payload| + |f.padding| + 1) + [|f.padding|];
    assert (head + f.payload + f.padding)[..4] == Uint32(|f.payload| + |f.padding| + 1);
    head + f.payload + f.padding
  }

  // ------------------------------------------------------------------ encryption

  function EncAll(s: Suite, st: nat, x: seq<u8>): (seq<u8>, nat)
    requires s.Chained? && s.bs > 0
    decreases |x|
  {
    if |x| < s.bs then ([], st)
    else
      var (c, st1) := s.enc(st, x[..s.bs]);
      var (cs, st2) := EncAll(s, st1, x[s.bs..]);
      (c + cs, st2)
  }

  function DecAll(s: Suite, st: nat, x: seq<u8>): (seq<u8>, nat)
    requires s.Chained? && s.bs > 0
    decreases |x|
  {
    if |x| < s.bs then ([], st)
    else
      var (c, st1) := s.dec(st, x[..s.bs]);
      var (cs, st2) := DecAll(s, st1, x[s.bs..]);
      (c + cs, st2)
  }

  lemma ModBelow(n: nat, m: nat)
    requires m == 8 || m == 16
    ensures n >= m ==> (n - m) % m == n % m
    ensures n % m == 0 && n < m ==> n == 0
  {
    if m == 8 { } else { }
  }

  lemma {:induction false} DecEnc(s: Suite, st: nat, x: seq<u8>)
    requires Suitable(s) && s.Chained? && |x| % s.bs == 0
    ensures |EncAll(s, st, x).0| == |x| && DecAll(s, st, EncAll(s, st, x).0) == (x, EncAll(s, st, x).1)
    decreases |x|
  {
    ModBelow(|x|, s.bs);
    if |x| >= s.bs {
      assert BlockOk(s, st, x[..s.bs]);
      var (c, st1) := s.enc(st, x[..s.bs]);
      DecEnc(s, st1, x[s.bs..]);
      var y := EncAll(s, st1, x[s.bs..]).0;
      assert (c + y)[..s.bs] == c && (c + y)[s.bs..] == y;
      assert x == x[..s.bs] + x[s.bs..];
    } else {
      assert x == [];
    }
  }

  /** The bytes of one packet and the cipher state behind it. */
  function Seal(s: Suite, st: nat, seqno: nat, clear: seq<u8>): (seq<u8>, nat)
    requires s.bs > 0 && |clear| >= 4
  {
    match s
    case Chained(_, _, _, _, mac) =>
      var (c, st') := EncAll(s, st, clear);
      (c + mac(seqno, clear), st')
    case Aead(_, _, header, body, tag) =>
      var c := header((st, seqno), clear[..4]) + body((st, seqno), clear[4..]);
      (c + tag((st, seqno), c), st + 1)
  }

  // ------------------------------------------------------------------ reading

  /** `buf` is what was read of the packet, its first block in clear once `need`, the length of the
      whole packet, is known. */
  datatype Reader = Reader(st: nat, seqno: nat, buf: seq<u8>, need: nat)

  datatype Outcome = More | Payload(p: seq<u8>) | BadSize | BadBuffer | Integrity

  /** How much the next read asks for. */
  function Want(s: Suite, r: Reader): int
  {
    (if r.need == 0 then s.bs else r.need) - |r.buf|
  }

  /** The first block as read_packet_init leaves it, the cipher state and the length field. */
  function FirstBlock(s: Suite, r: Reader): (seq<u8>, nat, nat)
    requires Suitable(s) && |r.buf| == s.bs
  {
    match s
    case Chained(_, _, _, dec, _) =>
      assert BlockOk(s, r.st, r.buf);
      var (b, st') := dec(r.st, r.buf);
      (b, st', FromUbin(b[..4]))
    case Aead(_, _, header, _, _) =>
      (r.buf, r.st, FromUbin(header((r.st, r.seqno), r.buf[..4])))
  }

  /** read_packet_init, with the wrap-around of its 32-bit lengths. */
  function OpenLength(s: Suite, r: Reader): (Reader, Outcome)
    requires Suitable(s) && |r.buf| == s.bs
  {
    var (b, st', n) := FirstBlock(s, r);
    var (plen, len) := Lengths(s, n);
    if BadLength(s, plen, len) then (r, BadSize)
    else if len < s.bs then (r, BadBuffer)
    else (Reader(st', r.seqno, b, len), More)
  }

  /** The length that has to be whole blocks and the length of the packet on the wire, in 32 bits. */
  function Lengths(s: Suite, n: nat): (nat, nat)
  {
    var plen := if s.Aead? then n else (n + 4) % WORD;
    (plen, (plen + s.macsize + if s.Aead? then 4 else 0) % WORD)
  }

  predicate BadLength(s: Suite, plen: nat, len: nat)
    requires s.bs > 0
  {
    len > RECV_MAX_PACKET_LEN || plen < s.bs || plen % s.bs != 0
  }

  /** read_packet_init refuses a length exactly when the packet would be longer than 35000 bytes, shorter than
      a block or no whole number of blocks. */
  lemma OpenLengthExact(s: Suite, r: Reader)
    requires Suitable(s) && |r.buf| == s.bs
    ensures var (_, _, n) := FirstBlock(s, r); var whole := if s.Aead? then n else n + 4;
      n < 0xffff_ff00 ==>
        (OpenLength(s, r).1.BadSize? <==> n + 4 + s.macsize > 35000 || whole < s.bs || whole % s.bs != 0)
  {}

  /** A packet that encrypt_packet builds passes the length checks. */
  lemma LengthsOk(s: Suite, f: Frame)
    requires Suitable(s) && FrameOk(s, f)
    ensures var n := |f.payload| + |f.padding| + 1;
      !BadLength(s, Lengths(s, n).0, Lengths(s, n).1) && Lengths(s, n).1 == n + 4 + s.macsize
  {
    PadLenOk(s, |f.payload|);
    LengthsShort(s, |f.payload| + |f.padding| + 1);
  }

  lemma LengthsShort(s: Suite, n: nat)
    requires n < RECV_MAX_PACKET_LEN && s.macsize <= MAX_MAC_LEN
    ensures Lengths(s, n) == (if s.Aead? then n else n + 4, n + 4 + s.macsize)
  {}

  /** The clear packet, or None when the MAC or tag is wrong; and the cipher state. */
  function Unseal(s: Suite, r: Reader): (Option<seq<u8>>, nat)
    requires s.bs > 0 && |r.buf| == r.need >= s.bs + s.macsize && r.need >= 4 + s.macsize
  {
    var end := r.need - s.macsize;
    match s
    case Chained(_, _, _, _, mac) =>
      var (x, st') := DecAll(s, r.st, r.buf[s.bs..end]);
      var clear := r.buf[..s.bs] + x;
      (if mac(r.seqno, clear) == r.buf[end..] then Some(clear) else None, st')
    case Aead(_, _, header, body, tag) =>
      var n := (r.st, r.seqno);
      (if tag(n, r.buf[..end]) == r.buf[end..] then Some(header(n, r.buf[..4]) + body(n, r.buf[4..end])) else None,
       r.st + 1)
  }

  /** decrypt_packet */
  function FinishPacket(s: Suite, r: Reader): (Reader, Outcome)
    requires s.bs > 0 && |r.buf| == r.need
  {
    if r.need < s.bs + s.macsize || r.need < 4 + s.macsize then (r, BadBuffer)
    else
      var (c, st') := Unseal(s, r);
      if c.None? then (r, Integrity)
      else if |c.value| <= PACKET_PADDING_OFF then (r, BadBuffer)
      else
        var len := r.need - c.value[PACKET_PADDING_OFF] - 4 - 1 - s.macsize;
        if len > RECV_MAX_PAYLOAD_LEN + ZLIB_COMPRESS_EXPANSION || len < 1 then (r, BadSize)
        else if PACKET_PAYLOAD_OFF + len > |c.value| then (r, BadBuffer)
        else (Reader(st', (r.seqno + 1) % WORD, [], 0), Payload(c.value[PACKET_PAYLOAD_OFF..PACKET_PAYLOAD_OFF + len]))
  }

  /** One read that returned `chunk`, and what follows when it completes a block or the packet. */
  function Feed(s: Suite, r: Reader, chunk: seq<u8>): (Reader, Outcome)
    requires Suitable(s) && |chunk| <= Want(s, r)
  {
    var r' := r.(buf := r.buf + chunk);
    if r'.need != 0 then Complete(s, r')
    else if |r'.buf| < s.bs then (r', More)
    else
      var (r'', o) := OpenLength(s, r');
      if o.More? then Complete(s, r'') else (r'', o)
  }

  function Complete(s: Suite, r: Reader): (Reader, Outcome)
    requires s.bs > 0
  {
    if |r.buf| == r.need then FinishPacket(s, r) else (r, More)
  }

  // ------------------------------------------------------------------ round trip

  /** What the reader holds after k bytes of a packet with the given clear form. */
  function ReaderAt(s: Suite, st: nat, seqno: nat, clear: seq<u8>, k: nat): Reader
    requires s.bs > 0 && |clear| >= s.bs && |clear| >= 4 && k <= |Seal(s, st, seqno, clear).0|
  {
    var w := Seal(s, st, seqno, clear).0;
    if k < s.bs then Reader(st, seqno, w[..k], 0)
    else if s.Aead? then Reader(st, seqno, w[..k], |w|)
    else Reader(s.enc(st, clear[..s.bs]).1, seqno, clear[..s.bs] + w[s.bs..k], |w|)
  }

  /** A frame that fits its suite, seen as bytes. */
  lemma Sealed(s: Suite, st: nat, seqno: nat, f: Frame)
    requires Suitable(s) && FrameOk(s, f)
    ensures var c := Clear(s, f); |c| >= s.bs && |Seal(s, st, seqno, c).0| == |c| + s.macsize <= RECV_MAX_PACKET_LEN
  {
    PadLenOk(s, |f.payload|);
    var c := Clear(s, f);
    if s.Chained? {
      DecEnc(s, st, c);
      assert MacOk(s, seqno, c);
    } else {
      var n := (st, seqno);
      var x := s.header(n, c[..4]) + s.body(n, c[4..]);
      assert StreamOk(s, n, c[..4]) && StreamOk(s, n, c[4..]) && StreamOk(s, n, x);
    }
  }

  /** The first block gives the length field. */
  lemma OpensFirst(s: Suite, st: nat, seqno: nat, f: Frame)
    requires Suitable(s) && FrameOk(s, f)
    ensures var c := Clear(s, f); var w := Seal(s, st, seqno, c).0;
      && |w| >= s.bs && |c| >= s.bs
      && FirstBlock(s, Reader(st, seqno, w[..s.bs], 0)) ==
         (ReaderAt(s, st, seqno, c, s.bs).buf, ReaderAt(s, st, seqno, c, s.bs).st, |c| - 4)
  {
    Sealed(s, st, seqno, f);
    PadLenOk(s, |f.payload|);
    var c := Clear(s, f);
    var w := Seal(s, st, seqno, c).0;
    if s.Chained? {
      assert BlockOk(s, st, c[..s.bs]);
      assert w[..s.bs] == s.enc(st, c[..s.bs]).0;
      assert c[..s.bs][..4] == c[..4];
      assert c[..s.bs] + w[s.bs..s.bs] == c[..s.bs];
    } else {
      var n := (st, seqno);
      assert StreamOk(s, n, c[..4]);
      assert w[..s.bs][..4] == s.header(n, c[..4]);
    }
  }

  /** Once the first block is complete the length is known. */
  lemma OpensLength(s: Suite, st: nat, seqno: nat, f: Frame)
    requires Suitable(s) && FrameOk(s, f)
    ensures var c := Clear(s, f); var w := Seal(s, st, seqno, c).0;
      && |w| >= s.bs && |c| >= s.bs
      && OpenLength(s, Reader(st, seqno, w[..s.bs], 0)) == (ReaderAt(s, st, seqno, c, s.bs), More)
  {
    Sealed(s, st, seqno, f);
    LengthsOk(s, f);
    OpensFirst(s, st, seqno, f);
  }

  /** The first block, the other blocks and the MAC of a sealed packet. */
  lemma SealedChained(s: Suite, st: nat, seqno: nat, c: seq<u8>, b0: seq<u8>, rest: seq<u8>)
    requires Suitable(s) && s.Chained? && |c| % s.bs == 0 && |c| >= s.bs
    requires b0 == s.enc(st, c[..s.bs]).0 && rest == EncAll(s, s.enc(st, c[..s.bs]).1, c[s.bs..]).0
    ensures |b0| == s.bs && |rest| == |c| - s.bs && |s.mac(seqno, c)| == s.macsize
    ensures Seal(s, st, seqno, c).0 == b0 + (rest + s.mac(seqno, c))
  {
    assert MacOk(s, seqno, c) && BlockOk(s, st, c[..s.bs]);
    ModBelow(|c|, s.bs);
    DecEnc(s, s.enc(st, c[..s.bs]).1, c[s.bs..]);
    assert EncAll(s, st, c).0 == b0 + rest;
    Regroup(b0, rest, s.mac(seqno, c));
  }

  /** The whole packet opens to its clear form. */
  lemma UnsealsChained(s: Suite, st: nat, seqno: nat, c: seq<u8>)
    requires Suitable(s) && s.Chained? && |c| % s.bs == 0 && |c| >= s.bs
    ensures var (w, st') := Seal(s, st, seqno, c);
      |w| == |c| + s.macsize && Unseal(s, ReaderAt(s, st, seqno, c, |w|)) == (Some(c), st')
  {
    var (b0, st1) := s.enc(st, c[..s.bs]);
    var w, rest, mac := Seal(s, st, seqno, c).0, EncAll(s, st1, c[s.bs..]).0, s.mac(seqno, c);
    SealedChained(s, st, seqno, c, b0, rest);
    ModBelow(|c|, s.bs);
    DecEnc(s, st1, c[s.bs..]);
    var r := ReaderAt(s, st, seqno, c, |w|);
    assert w[s.bs..|w|] == rest + mac;
    OpenedBlocks(r.buf, c[..s.bs], rest, mac);
    assert c[..s.bs] + c[s.bs..] == c;
  }

  lemma OpenedBlocks(buf: seq<u8>, first: seq<u8>, rest: seq<u8>, mac: seq<u8>)
    requires buf == first + (rest + mac)
    ensures buf[..|first|] == first && buf[|first|..|first| + |rest|] == rest && buf[|first| + |rest|..] == mac
  {}

  lemma UnsealsAead(s: Suite, st: nat, seqno: nat, c: seq<u8>)
    requires Suitable(s) && s.Aead? && |c| >= s.bs
    ensures var (w, st') := Seal(s, st, seqno, c);
      |w| == |c| + s.macsize && Unseal(s, ReaderAt(s, st, seqno, c, |w|)) == (Some(c), st')
  {
    var n, w := (st, seqno), Seal(s, st, seqno, c).0;
    var h, b := s.header(n, c[..4]), s.body(n, c[4..]);
    assert StreamOk(s, n, c[..4]) && StreamOk(s, n, c[4..]) && StreamOk(s, n, h + b);
    assert w[..|w|] == w && w[..|c|] == h + b && w[|c|..] == s.tag(n, h + b);
    assert w[..4] == h && w[4..|c|] == b;
    assert c == c[..4] + c[4..];
  }

  lemma Finishes(s: Suite, st: nat, seqno: nat, f: Frame)
    requires Suitable(s) && FrameOk(s, f)
    ensures var c := Clear(s, f); var (w, st') := Seal(s, st, seqno, c);
      && |c| >= s.bs && |ReaderAt(s, st, seqno, c, |w|).buf| == |w| >= s.bs
      && FinishPacket(s, ReaderAt(s, st, seqno, c, |w|)) == (Reader(st', (seqno + 1) % WORD, [], 0), Payload(f.payload))
  {
    Sealed(s, st, seqno, f);
    PadLenOk(s, |f.payload|);
    if s.Chained? { UnsealsChained(s, st, seqno, Clear(s, f)); } else { UnsealsAead(s, st, seqno, Clear(s, f)); }
  }

  /** More bytes of the same packet. */
  lemma ReaderGrows(s: Suite, st: nat, seqno: nat, c: seq<u8>, k: nat, chunk: seq<u8>)
    requires s.bs > 0 && |c| >= s.bs && |c| >= 4
    requires var w := Seal(s, st, seqno, c).0; k + |chunk| <= |w| && chunk == w[k..k + |chunk|]
    ensures var r, k' := ReaderAt(s, st, seqno, c, k), k + |chunk|;
      && |r.buf| == k && |ReaderAt(s, st, seqno, c, k').buf| == k'
      && r.(buf := r.buf + chunk) ==
         if k < s.bs <= k' then Reader(st, seqno, Seal(s, st, seqno, c).0[..k'], 0) else ReaderAt(s, st, seqno, c, k')
  {
    var w, k' := Seal(s, st, seqno, c).0, k + |chunk|;
    assert w[..k] + chunk == w[..k'];
    if k >= s.bs {
      assert w[s.bs..k] + chunk == w[s.bs..k'];
      assert c[..s.bs] + w[s.bs..k] + chunk == c[..s.bs] + (w[s.bs..k] + chunk);
    }
  }

  /** One more piece of a packet: the reader moves on, or hands out the payload at its end. */
  lemma FeedFrame(s: Suite, st: nat, seqno: nat, f: Frame, k: nat, chunk: seq<u8>)
    requires Suitable(s) && FrameOk(s, f) && |Clear(s, f)| >= s.bs
    requires var w := Seal(s, st, seqno, Clear(s, f)).0; k < |w| && k + |chunk| <= |w| && chunk == w[k..k + |chunk|]
    requires |chunk| <= Want(s, ReaderAt(s, st, seqno, Clear(s, f), k))
    ensures var c := Clear(s, f); var (w, st') := Seal(s, st, seqno, c);
      Feed(s, ReaderAt(s, st, seqno, c, k), chunk) ==
      if k + |chunk| < |w| then (ReaderAt(s, st, seqno, c, k + |chunk|), More)
      else (Reader(st', (seqno + 1) % WORD, [], 0), Payload(f.payload))
  {
    Finishes(s, st, seqno, f);
    OpensLength(s, st, seqno, f);
    ReaderGrows(s, st, seqno, Clear(s, f), k, chunk);
    FeedClear(s, st, seqno, Clear(s, f), k, chunk);
  }

  lemma FeedClear(s: Suite, st: nat, seqno: nat, c: seq<u8>, k: nat, chunk: seq<u8>)
    requires Suitable(s) && |c| >= s.bs
    requires var w := Seal(s, st, seqno, c).0;
      && s.bs <= |w| && k < |w| && k + |chunk| <= |w| && chunk == w[k..k + |chunk|]
      && OpenLength(s, Reader(st, seqno, w[..s.bs], 0)) == (ReaderAt(s, st, seqno, c, s.bs), More)
    requires |chunk| <= Want(s, ReaderAt(s, st, seqno, c, k))
    ensures var r, k' := ReaderAt(s, st, seqno, c, k), k + |chunk|;
      Feed(s, r, chunk) ==
      if k' < s.bs then (ReaderAt(s, st, seqno, c, k'), More) else Complete(s, ReaderAt(s, st, seqno, c, k'))
  {
    ReaderGrows(s, st, seqno, c, k, chunk);
  }

  // ------------------------------------------------------------------ streams of packets

  const SSH_MSG_NEWKEYS: u8 := 21

  /** What one key exchange gives to one direction: the cipher and MAC, and the cipher's first state. */
  datatype Key = Key(suite: Suite, st: nat)

  ghost predicate Keyed(keys: nat -> Key)
  {
    forall e :: Suitable(keys(e).suite)
  }

  predicate IsNewKeys(payload: seq<u8>)
  {
    payload != [] && payload[0] == SSH_MSG_NEWKEYS
  }

  /** Where a direction stands: the keys of each key exchange, which of them are in use, the cipher state
      and the sequence number. */
  datatype Stream = Stream(keys: nat -> Key, epoch: nat, st: nat, seqno: nat)

  function SuiteOf(x: Stream): Suite
  {
    x.keys(x.epoch).suite
  }

  /** switch_keys for one direction: the sequence number goes on. */
  function Switched(x: Stream): Stream
  {
    x.(epoch := x.epoch + 1, st := x.keys(x.epoch + 1).st)
  }

  /** The stream behind a packet. NEWKEYS is the last packet under its keys. */
  function Behind(x: Stream, st': nat, payload: seq<u8>): Stream
  {
    var x' := x.(st := st', seqno := (x.seqno + 1) % WORD);
    if IsNewKeys(payload) then Switched(x') else x'
  }

  /** The key exchange whose keys are in use behind some packets. */
  function EpochAfter(e: nat, fs: seq<Frame>): nat
  {
    if fs == [] then e
    else EpochAfter(e, fs[..|fs| - 1]) + if IsNewKeys(fs[|fs| - 1].payload) then 1 else 0
  }

  /** The packets fit the keys that they are sent under. */
  ghost predicate FramesOk(keys: nat -> Key, e: nat, fs: seq<Frame>)
    requires Keyed(keys)
    decreases |fs|
  {
    fs == [] ||
    (FrameOk(keys(e).suite, fs[0]) && FramesOk(keys, if IsNewKeys(fs[0].payload) then e + 1 else e, fs[1..]))
  }

  ghost predicate StreamOf(x: Stream, fs: seq<Frame>)
  {
    Keyed(x.keys) && FramesOk(x.keys, x.epoch, fs)
  }

  /** The bytes of the next packet and the stream behind it. */
  ghost function SealNext(x: Stream, f: Frame): (seq<u8>, Stream)
    requires Keyed(x.keys) && FrameOk(SuiteOf(x), f)
  {
    var (w, st') := Seal(SuiteOf(x), x.st, x.seqno, Clear(SuiteOf(x), f));
    (w, Behind(x, st', f.payload))
  }

  /** The bytes of a sequence of packets. */
  ghost function Wire(x: Stream, fs: seq<Frame>): seq<u8>
    requires StreamOf(x, fs)
    decreases |fs|
  {
    if fs == [] then []
    else
      var (w, x') := SealNext(x, fs[0]);
      w + Wire(x', fs[1..])
  }

  function Payloads(fs: seq<Frame>): seq<seq<u8>>
  {
    if fs == [] then [] else [fs[0].payload] + Payloads(fs[1..])
  }

  function Concat(chunks: seq<seq<u8>>): seq<u8>
  {
    if chunks == [] then [] else chunks[0] + Concat(chunks[1..])
  }

  /** The side that reads: the keys of each key exchange, which are in use, and the reader. */
  datatype Listener = Listener(keys: nat -> Key, epoch: nat, r: Reader)

  function Hearing(l: Listener): Suite
  {
    l.keys(l.epoch).suite
  }

  /** recv_msg_newkeys, when the packet that the reader handed out is NEWKEYS. */
  function Heard(l: Listener, r: Reader, o: Outcome): Listener
  {
    if o.Payload? && IsNewKeys(o.p) then Listener(l.keys, l.epoch + 1, r.(st := l.keys(l.epoch + 1).st))
    else l.(r := r)
  }

  function Hear(l: Listener, chunk: seq<u8>): (Listener, Outcome)
    requires Suitable(Hearing(l)) && |chunk| <= Want(Hearing(l), l.r)
  {
    var (r, o) := Feed(Hearing(l), l.r, chunk);
    (Heard(l, r, o), o)
  }

  /** The listener before the first packet of a stream. */
  function Begin(x: Stream): Listener
  {
    Listener(x.keys, x.epoch, Reader(x.st, x.seqno, [], 0))
  }

  /** The reads return these pieces, each no more than was asked for, and no error occurs. */
  ghost predicate Feeds(l: Listener, chunks: seq<seq<u8>>)
    requires Keyed(l.keys)
    decreases |chunks|
  {
    chunks == [] || (|chunks[0]| <= Want(Hearing(l), l.r) && Feeds(Hear(l, chunks[0]).0, chunks[1..]))
  }

  /** The outcomes of feeding the pieces one after another that are not More. */
  ghost function Outcomes(l: Listener, chunks: seq<seq<u8>>): seq<Outcome>
    requires Keyed(l.keys) && Feeds(l, chunks)
    decreases |chunks|
  {
    if chunks == [] then []
    else
      var (l', o) := Hear(l, chunks[0]);
      (if o.More? then [] else [o]) + Outcomes(l', chunks[1..])
  }

  function Delivered(ps: seq<seq<u8>>): seq<Outcome>
  {
    if ps == [] then [] else [Payload(ps[0])] + Delivered(ps[1..])
  }

  /** The listener is k bytes into the first of the packets that remain. */
  ghost predicate Into(l: Listener, x: Stream, fs: seq<Frame>, k: nat)
    requires StreamOf(x, fs)
  {
    && l.keys == x.keys && l.epoch == x.epoch
    && if fs == [] then k == 0 && l == Begin(x)
       else
         var s := SuiteOf(x);
         var c := Clear(s, fs[0]);
         |c| >= s.bs && k < |Seal(s, x.st, x.seqno, c).0| && l.r == ReaderAt(s, x.st, x.seqno, c, k)
  }

  lemma IntoStart(x: Stream, fs: seq<Frame>)
    requires StreamOf(x, fs)
    ensures Into(Begin(x), x, fs, 0)
  {
    if fs != [] {
      Sealed(SuiteOf(x), x.st, x.seqno, fs[0]);
      assert SealNext(x, fs[0]).0[..0] == [];
    }
  }

  lemma PrefixSplit(a: seq<u8>, b: seq<u8>, w: seq<u8>, k: nat)
    requires k <= |w| && a + b <= w[k..]
    ensures k + |a| <= |w| && a == w[k..k + |a|] && b <= w[k + |a|..] && (a + b == w[k..] <==> b == w[k + |a|..])
  {
    var t := w[k..];
    assert a == (a + b)[..|a|] == t[..|a|] && b == (a + b)[|a|..];
    assert t[|a|..] == w[k + |a|..] && t == t[..|a|] + t[|a|..];
  }

  /** The wire behind position k of the first packet. */
  lemma WireAt(x: Stream, fs: seq<Frame>, k: nat, n: nat)
    requires fs != [] && StreamOf(x, fs) && k + n <= |SealNext(x, fs[0]).0|
    ensures var (w, x') := SealNext(x, fs[0]);
      && |w| <= |Wire(x, fs)| && Wire(x, fs)[k..k + n] == w[k..k + n]
      && StreamOf(x', fs[1..]) && Wire(x, fs)[|w|..] == Wire(x', fs[1..])
  {
    var (w, x') := SealNext(x, fs[0]);
    TwoParts(Wire(x, fs), w, Wire(x', fs[1..]), k, n);
  }

  lemma TwoParts(all: seq<u8>, w: seq<u8>, rest: seq<u8>, k: nat, n: nat)
    requires all == w + rest && k + n <= |w|
    ensures all[k..k + n] == w[k..k + n] && all[|w|..] == rest
  {}

  /** The listener is k bytes into the first packet and `bytes` come next; all that is left, or not. */
  ghost predicate Synced(l: Listener, x: Stream, fs: seq<Frame>, k: nat, bytes: seq<u8>, whole: bool)
    requires StreamOf(x, fs)
  {
    && Into(l, x, fs, k) && k <= |Wire(x, fs)|
    && bytes <= Wire(x, fs)[k..] && whole == (bytes == Wire(x, fs)[k..])
  }

  /** The listener behind a packet is at the start of what follows, under the keys that follow. */
  lemma HeardNext(l: Listener, x: Stream, st': nat, payload: seq<u8>)
    requires l.keys == x.keys && l.epoch == x.epoch
    ensures Heard(l, Reader(st', (x.seqno + 1) % WORD, [], 0), Payload(payload)) == Begin(Behind(x, st', payload))
  {}

  lemma HearFeed(l: Listener, s: Suite, chunk: seq<u8>, r: Reader, o: Outcome)
    requires s == Hearing(l) && Suitable(s) && |chunk| <= Want(s, l.r) && Feed(s, l.r, chunk) == (r, o)
    ensures Hear(l, chunk) == (Heard(l, r, o), o)
  {}

  /** One more piece of the first packet. */
  lemma HearFrame(l: Listener, x: Stream, fs: seq<Frame>, k: nat, chunk: seq<u8>)
    requires fs != [] && StreamOf(x, fs) && Into(l, x, fs, k) && |chunk| <= Want(Hearing(l), l.r)
    requires k + |chunk| <= |SealNext(x, fs[0]).0| ==> chunk == SealNext(x, fs[0]).0[k..k + |chunk|]
    ensures var (w, x') := SealNext(x, fs[0]); var (l', o) := Hear(l, chunk);
      && k + |chunk| <= |w|
      && if k + |chunk| < |w| then o.More? && Into(l', x, fs, k + |chunk|)
         else o == Payload(fs[0].payload) && l' == Begin(x')
  {
    HearSealed(l, x, SuiteOf(x), fs[0], k, chunk);
  }

  lemma HearSealed(l: Listener, x: Stream, s: Suite, f: Frame, k: nat, chunk: seq<u8>)
    requires Suitable(s) && FrameOk(s, f) && |Clear(s, f)| >= s.bs && k < |Seal(s, x.st, x.seqno, Clear(s, f)).0|
    requires l.keys == x.keys && l.epoch == x.epoch && s == SuiteOf(x)
    requires l.r == ReaderAt(s, x.st, x.seqno, Clear(s, f), k) && |chunk| <= Want(s, l.r)
    requires var w := Seal(s, x.st, x.seqno, Clear(s, f)).0; k + |chunk| <= |w| ==> chunk == w[k..k + |chunk|]
    ensures var c, k' := Clear(s, f), k + |chunk|; var (w, st') := Seal(s, x.st, x.seqno, c);
      && k' <= |w|
      && Hear(l, chunk) ==
         if k' < |w| then (l.(r := ReaderAt(s, x.st, x.seqno, c, k')), More)
         else (Begin(Behind(x, st', f.payload)), Payload(f.payload))
  {
    var c, k' := Clear(s, f), k + |chunk|;
    var (w, st') := Seal(s, x.st, x.seqno, c);
    WantWithin(s, x.st, x.seqno, f, k);
    FeedFrame(s, x.st, x.seqno, f, k, chunk);
    if k' < |w| {
      HearFeed(l, s, chunk, ReaderAt(s, x.st, x.seqno, c, k'), More);
    } else {
      HearFeed(l, s, chunk, Reader(st', (x.seqno + 1) % WORD, [], 0), Payload(f.payload));
      HeardNext(l, x, st', f.payload);
    }
  }

  /** The first piece keeps the listener in step with the wire. */
  lemma FeedWire(l: Listener, x: Stream, fs: seq<Frame>, k: nat, chunk: seq<u8>, rest: seq<u8>, whole: bool)
    requires fs != [] && StreamOf(x, fs) && Synced(l, x, fs, k, chunk + rest, whole)
    requires |chunk| <= Want(Hearing(l), l.r)
    ensures var (w, x') := SealNext(x, fs[0]); var (l', o) := Hear(l, chunk);
      if k + |chunk| < |w| then o.More? && Synced(l', x, fs, k + |chunk|, rest, whole)
      else o == Payload(fs[0].payload) && StreamOf(x', fs[1..]) && Synced(l', x', fs[1..], 0, rest, whole)
  {
    var (w, x') := SealNext(x, fs[0]);
    PrefixSplit(chunk, rest, Wire(x, fs), k);
    if k + |chunk| <= |w| { WireAt(x, fs, k, |chunk|); }
    HearFrame(l, x, fs, k, chunk);
    if k + |chunk| == |w| {
      IntoStart(x', fs[1..]);
      assert Wire(x', fs[1..])[0..] == Wire(x', fs[1..]);
    }
  }

  /** A read never asks for bytes of the next packet. */
  lemma WantWithin(s: Suite, st: nat, seqno: nat, f: Frame, k: nat)
    requires Suitable(s) && FrameOk(s, f) && |Clear(s, f)| >= s.bs && k <= |Seal(s, st, seqno, Clear(s, f)).0|
    ensures k + Want(s, ReaderAt(s, st, seqno, Clear(s, f), k)) <= |Seal(s, st, seqno, Clear(s, f)).0|
  {
    ReaderGrows(s, st, seqno, Clear(s, f), k, []);
    Sealed(s, st, seqno, f);
  }

  lemma DeliveredNext(fs: seq<Frame>, outs: seq<Outcome>)
    requires fs != [] && outs <= Delivered(Payloads(fs[1..]))
    ensures [Payload(fs[0].payload)] + outs <= Delivered(Payloads(fs))
    ensures outs == Delivered(Payloads(fs[1..])) ==> [Payload(fs[0].payload)] + outs == Delivered(Payloads(fs))
  {
    assert Payloads(fs)[1..] == Payloads(fs[1..]);
  }

  /** Reading the pieces hands out the payloads in order, all of them if the pieces are all that is left. */
  ghost predicate Reads(l: Listener, chunks: seq<seq<u8>>, fs: seq<Frame>, whole: bool)
    requires Keyed(l.keys) && Feeds(l, chunks)
  {
    Outcomes(l, chunks) <= Delivered(Payloads(fs)) && (whole ==> Outcomes(l, chunks) == Delivered(Payloads(fs)))
  }

  lemma ReadsMore(l: Listener, chunks: seq<seq<u8>>, l': Listener, fs: seq<Frame>, whole: bool)
    requires Keyed(l.keys) && Feeds(l, chunks) && chunks != [] && Hear(l, chunks[0]) == (l', More)
    requires Reads(l', chunks[1..], fs, whole)
    ensures Reads(l, chunks, fs, whole)
  {
    assert [] + Outcomes(l', chunks[1..]) == Outcomes(l', chunks[1..]);
  }

  lemma ReadsPayload(l: Listener, chunks: seq<seq<u8>>, l': Listener, fs: seq<Frame>, whole: bool)
    requires Keyed(l.keys) && Feeds(l, chunks) && chunks != [] && fs != []
    requires Hear(l, chunks[0]) == (l', Payload(fs[0].payload)) && Reads(l', chunks[1..], fs[1..], whole)
    ensures Reads(l, chunks, fs, whole)
  {
    DeliveredNext(fs, Outcomes(l', chunks[1..]));
  }

  lemma NoneLeft(l: Listener, x: Stream, fs: seq<Frame>, k: nat, whole: bool)
    requires StreamOf(x, fs) && Synced(l, x, fs, k, [], whole)
    ensures whole ==> fs == []
  {
    if fs != [] { WireAt(x, fs, 0, 0); }
  }

  lemma HearNothing(l: Listener, x: Stream, fs: seq<Frame>, k: nat, chunk: seq<u8>, rest: seq<u8>, whole: bool)
    requires fs == [] && StreamOf(x, fs) && Synced(l, x, fs, k, chunk + rest, whole)
    ensures chunk == [] && chunk + rest == rest && k == 0 && Want(Hearing(l), l.r) >= 0 && Hear(l, chunk) == (l, More)
  {
    assert |chunk + rest| == 0;
    assert l.r.buf + [] == l.r.buf;
  }

  /** One piece leaves the listener in step with the wire: inside a packet, or behind the one it hands out. */
  lemma HearWire(l: Listener, x: Stream, fs: seq<Frame>, k: nat, chunk: seq<u8>, rest: seq<u8>, whole: bool)
    returns (l': Listener, o: Outcome, x': Stream, fs': seq<Frame>, k': nat)
    requires StreamOf(x, fs) && Synced(l, x, fs, k, chunk + rest, whole) && |chunk| <= Want(Hearing(l), l.r)
    ensures Hear(l, chunk) == (l', o) && StreamOf(x', fs') && Synced(l', x', fs', k', rest, whole)
    ensures if o.More? then fs' == fs else fs != [] && o == Payload(fs[0].payload) && fs' == fs[1..]
  {
    l', o := Hear(l, chunk).0, Hear(l, chunk).1;
    x', fs', k' := x, fs, k + |chunk|;
    if fs == [] {
      HearNothing(l, x, fs, k, chunk, rest, whole);
    } else {
      FeedWire(l, x, fs, k, chunk, rest, whole);
      if k' >= |SealNext(x, fs[0]).0| { x', fs', k' := SealNext(x, fs[0]).1, fs[1..], 0; }
    }
  }

  lemma {:induction false} ReadsOn(l: Listener, x: Stream, fs: seq<Frame>, k: nat, chunks: seq<seq<u8>>, whole: bool)
    requires StreamOf(x, fs) && Keyed(l.keys) && Feeds(l, chunks) && Synced(l, x, fs, k, Concat(chunks), whole)
    ensures Reads(l, chunks, fs, whole)
    decreases |chunks|
  {
    if chunks == [] {
      NoneLeft(l, x, fs, k, whole);
    } else {
      var l', o, x', fs', k' := HearWire(l, x, fs, k, chunks[0], Concat(chunks[1..]), whole);
      ReadsOn(l', x', fs', k', chunks[1..], whole);
      if o.More? { ReadsMore(l, chunks, l', fs, whole); } else { ReadsPayload(l, chunks, l', fs, whole); }
    }
  }

  /** However the wire is cut into pieces, the payloads come out once each, in order, as soon as
      their last byte is in, and nothing else happens, across any number of changes of keys. */
  lemma ReadsBack(x: Stream, fs: seq<Frame>, chunks: seq<seq<u8>>)
    requires StreamOf(x, fs) && Feeds(Begin(x), chunks) && Concat(chunks) <= Wire(x, fs)
    ensures Outcomes(Begin(x), chunks) <= Delivered(Payloads(fs))
    ensures Concat(chunks) == Wire(x, fs) ==> Outcomes(Begin(x), chunks) == Delivered(Payloads(fs))
  {
    IntoStart(x, fs);
    assert Wire(x, fs)[0..] == Wire(x, fs);
    ReadsOn(Begin(x), x, fs, 0, chunks, Concat(chunks) == Wire(x, fs));
  }
}
