/** The code of packet.c and netio.c that builds, queues, writes, reads and opens packets. What
    has been written is always a prefix of FrameSpec's wire for the packets sent so far. */
module Framing {
  import opened Common
  import opened Digits
  import opened Bignum
  import opened FrameSpec
  import opened Authenticity

  const MAX_IOV: nat := 50

  function Max(a: nat, b: nat): nat
  {
    if a < b then b else a
  }

  /** A queued packet and how much of it was written. */
  datatype Buf = Buf(data: seq<u8>, pos: nat)

  ghost predicate QueueOk(q: seq<Buf>)
  {
    forall b :: b in q ==> b.pos < |b.data|
  }

  /** The bytes still to be written. */
  function Pending(q: seq<Buf>): seq<u8>
    requires forall b :: b in q ==> b.pos < |b.data|
  {
    if q == [] then [] else q[0].data[q[0].pos..] + Pending(q[1..])
  }

  lemma {:induction false} PendingSnoc(q: seq<Buf>, b: Buf)
    requires QueueOk(q) && b.pos < |b.data|
    ensures Pending(q + [b]) == Pending(q) + b.data[b.pos..]
  {
    if q == [] {
      assert q + [b] == [b] && Pending([b]) == b.data[b.pos..] + [];
    } else {
      PendingSnoc(q[1..], b);
      assert (q + [b])[1..] == q[1..] + [b];
      assert q[0].data[q[0].pos..] + (Pending(q[1..]) + b.data[b.pos..]) == Pending(q) + b.data[b.pos..];
    }
  }

  /** A packet joins the end of what is left to write. */
  lemma Enqueued(sent: seq<u8>, q: seq<Buf>, packet: seq<u8>, wire: seq<u8>)
    requires QueueOk(q) && |packet| > 0 && sent + Pending(q) == wire
    ensures QueueOk(q + [Buf(packet, 0)]) && sent + Pending(q + [Buf(packet, 0)]) == wire + packet
  {
    PendingSnoc(q, Buf(packet, 0));
    Regroup(sent, Pending(q), packet);
    assert packet[0..] == packet;
  }

  method CopyTwo(a: array<u8>, s: seq<u8>, t: seq<u8>)
    requires |s| + |t| <= a.Length
    modifies a
    ensures a[..|s| + |t|] == s + t
  {
    CopyTo(a, 0, s);
    CopyTo(a, |s|, t);
  }

  // ------------------------------------------------------------------ sending

  /** Where a stream stands behind some packets. */
  ghost function WireEnd(x: Stream, fs: seq<Frame>): (end: Stream)
    requires StreamOf(x, fs)
    ensures end.keys == x.keys
    decreases |fs|
  {
    if fs == [] then x else WireEnd(SealNext(x, fs[0]).1, fs[1..])
  }

  lemma {:induction false} StreamSnoc(x: Stream, fs: seq<Frame>, f: Frame)
    requires StreamOf(x, fs) && FrameOk(SuiteOf(WireEnd(x, fs)), f)
    ensures StreamOf(x, fs + [f]) && WireEnd(x, fs + [f]) == SealNext(WireEnd(x, fs), f).1
    decreases |fs|
  {
    var gs := fs + [f];
    if fs == [] {
      assert gs == [f] && [f][1..] == [];
      assert WireEnd(x, [f]) == WireEnd(SealNext(x, f).1, []);
    } else {
      var x' := SealNext(x, fs[0]).1;
      assert gs[0] == fs[0] && gs[1..] == fs[1..] + [f];
      StreamSnoc(x', fs[1..], f);
    }
  }

  /** The sequence number n packets on. */
  function Onward(seqno: nat, n: nat): nat
    decreases n
  {
    if n == 0 then seqno else Onward((seqno + 1) % WORD, n - 1)
  }

  lemma {:induction false} OnwardIs(seqno: nat, n: nat)
    requires seqno < WORD
    ensures Onward(seqno, n) == (seqno + n) % WORD
    decreases n
  {
    if n > 0 {
      OnwardIs((seqno + 1) % WORD, n - 1);
      NextNumber(seqno, n);
    }
  }

  lemma {:induction false} WireEndOnward(x: Stream, fs: seq<Frame>)
    requires StreamOf(x, fs)
    ensures WireEnd(x, fs).seqno == Onward(x.seqno, |fs|)
    decreases |fs|
  {
    if fs != [] { WireEndOnward(SealNext(x, fs[0]).1, fs[1..]); }
  }

  /** Each packet takes one sequence number. */
  lemma WireEndNumber(x: Stream, fs: seq<Frame>)
    requires StreamOf(x, fs) && x.seqno < WORD
    ensures WireEnd(x, fs).seqno == (x.seqno + |fs|) % WORD
  {
    WireEndOnward(x, fs);
    OnwardIs(x.seqno, |fs|);
  }

  /** And each NEWKEYS changes the keys. */
  lemma {:induction false} WireEndEpoch(x: Stream, fs: seq<Frame>)
    requires StreamOf(x, fs)
    ensures WireEnd(x, fs).epoch == EpochAfter(x.epoch, fs)
    decreases |fs|
  {
    if fs != [] {
      WireEndEpoch(SealNext(x, fs[0]).1, fs[1..]);
      EpochFirst(x.epoch, fs);
    }
  }

  lemma {:induction false} EpochFirst(e: nat, fs: seq<Frame>)
    requires fs != []
    ensures EpochAfter(e, fs) == EpochAfter(if IsNewKeys(fs[0].payload) then e + 1 else e, fs[1..])
  {
    if |fs| > 1 {
      EpochFirst(e, fs[..|fs| - 1]);
      assert fs[..|fs| - 1][1..] == fs[1..][..|fs| - 2];
    }
  }

  lemma {:induction false} WireSnoc(x: Stream, fs: seq<Frame>, f: Frame)
    requires StreamOf(x, fs) && StreamOf(x, fs + [f]) && FrameOk(SuiteOf(WireEnd(x, fs)), f)
    ensures Wire(x, fs + [f]) == Wire(x, fs) + SealNext(WireEnd(x, fs), f).0
    decreases |fs|
  {
    var gs, w := fs + [f], SealNext(WireEnd(x, fs), f).0;
    if fs == [] {
      assert gs == [f] && [f][1..] == [];
      assert Wire(x, [f]) == w + [];
    } else {
      var (w0, x') := SealNext(x, fs[0]);
      assert gs[0] == fs[0] && gs[1..] == fs[1..] + [f];
      WireSnoc(x', fs[1..], f);
      Regroup(w0, Wire(x', fs[1..]), w);
    }
  }

  /** Where the stream stands, if what was sent and what is queued are the bytes of these packets. */
  ghost function Standing(x: Stream, fs: seq<Frame>, sent: seq<u8>, q: seq<Buf>): Option<Stream>
  {
    if StreamOf(x, fs) && QueueOk(q) && sent + Pending(q) == Wire(x, fs) then Some(WireEnd(x, fs)) else None
  }

  /** A packet is the next of a stream, which then stands there unless the packet is NEWKEYS. */
  ghost predicate Follows(end: Stream, s: Suite, f: Frame, packet: seq<u8>, next: Stream)
  {
    && Suitable(s) && s == end.keys(end.epoch).suite && FrameOk(s, f) && packet != []
    && (packet, next.st) == Seal(s, end.st, end.seqno, Clear(s, f))
    && next.keys == end.keys && next.epoch == end.epoch && next.seqno == (end.seqno + 1) % WORD
  }

  lemma FollowsSeal(end: Stream, s: Suite, f: Frame, packet: seq<u8>, next: Stream)
    requires Keyed(end.keys) && Follows(end, s, f, packet, next)
    ensures FrameOk(SuiteOf(end), f)
            && SealNext(end, f) == (packet, if IsNewKeys(f.payload) then Switched(next) else next)
  {}

  /** A packet that is sealed where the stream stands joins the queue. */
  lemma Appended(x: Stream, fs: seq<Frame>, f: Frame, sent: seq<u8>, q: seq<Buf>, end: Stream, s: Suite,
                 packet: seq<u8>, next: Stream)
    requires Standing(x, fs, sent, q) == Some(end) && Follows(end, s, f, packet, next)
    ensures Standing(x, fs + [f], sent, q + [Buf(packet, 0)]) ==
      Some(if IsNewKeys(f.payload) then Switched(next) else next)
  {
    FollowsSeal(end, s, f, packet, next);
    StreamSnoc(x, fs, f);
    WireSnoc(x, fs, f);
    Enqueued(sent, q, packet, Wire(x, fs));
  }

  lemma ClearAt(s: Suite, f: Frame, k: nat)
    requires (s.bs == 8 || s.bs == 16) && FrameOk(s, f) && k < |f.payload| + |f.padding| + 5
    ensures |f.padding| + |f.payload| + 1 < WORD && Clear(s, f)[k] == LaidOut(f.payload, f.padding, k)
  {
    PadLenOk(s, |f.payload|);
  }

  lemma StreamLengths(s: Suite, n: Nonce, clear: seq<u8>)
    requires Suitable(s) && s.Aead? && |clear| >= 4
    ensures var c := s.header(n, clear[..4]) + s.body(n, clear[4..]); |c| == |clear| && |s.tag(n, c)| == s.macsize
  {
    var h, b := s.header(n, clear[..4]), s.body(n, clear[4..]);
    assert StreamOk(s, n, clear[..4]) && StreamOk(s, n, clear[4..]) && StreamOk(s, n, h + b);
  }

  lemma ChainedLengths(s: Suite, st: nat, seqno: nat, clear: seq<u8>)
    requires Suitable(s) && s.Chained? && |clear| % s.bs == 0
    ensures |EncAll(s, st, clear).0| == |clear| && |s.mac(seqno, clear)| == s.macsize
  {
    assert MacOk(s, seqno, clear);
    DecEnc(s, st, clear);
  }

  /** Byte k of a clear packet. */
  function LaidOut(payload: seq<u8>, random: seq<u8>, k: nat): int
    requires |payload| + |random| + 1 < WORD && k < 5 + |payload| + |random|
  {
    if k < 4 then Uint32(|payload| + |random| + 1)[k]
    else if k == 4 then |random|
    else if k < 5 + |payload| then payload[k - 5]
    else random[k - 5 - |payload|]
  }

  /** The payload, then the length and the padding length in front of it, then the padding. */
  method LayOut(writebuf: array<u8>, payload: seq<u8>, random: seq<u8>)
    requires 5 + |payload| + |random| <= writebuf.Length && |payload| + |random| + 1 < WORD && |random| < 0x100
    modifies writebuf
    ensures forall k :: 0 <= k < 5 + |payload| + |random| ==> writebuf[k] == LaidOut(payload, random, k)
  {
    CopyTo(writebuf, PACKET_PAYLOAD_OFF, payload);
    CopyTo(writebuf, 0, Uint32(|payload| + |random| + 1));
    writebuf[PACKET_PADDING_OFF] := |random|;
    CopyTo(writebuf, PACKET_PAYLOAD_OFF + |payload|, random);
  }

  class Transmitter {
    const keys: nat -> Key
    var epoch: nat
    var suite: Suite
    var st: nat
    var transseq: nat
    var writequeue: seq<Buf>
    ghost const start: Stream
    ghost var frames: seq<Frame>
    ghost var sent: seq<u8>

    ghost function State(): Stream
      reads this
    {
      Stream(keys, epoch, st, transseq)
    }

    /** What was sent and what is queued are the packets so far, and lead to where the stream stands. */
    ghost predicate Valid()
      reads this
    {
      Keyed(keys) && suite == keys(epoch).suite && Standing(start, frames, sent, writequeue) == Some(State())
    }

    constructor (x: Stream)
      requires Keyed(x.keys)
      ensures Valid() && frames == [] && sent == [] && writequeue == [] && start == x
    {
      keys, epoch, suite, st, transseq, writequeue := x.keys, x.epoch, SuiteOf(x), x.st, x.seqno, [];
      start, frames, sent := x, [], [];
    }

    /** The clear packet in a buffer of the size that encrypt_packet allocates. */
    method BuildClear(payload: seq<u8>, random: seq<u8>) returns (writebuf: array<u8>, len: nat)
      requires Suitable(suite) && FrameOk(suite, Frame(payload, random))
      ensures fresh(writebuf) && len + suite.macsize <= writebuf.Length
              && writebuf[..len] == Clear(suite, Frame(payload, random))
    {
      var size := |payload| + 4 + 1 + Max(MIN_PACKET_LEN, suite.bs) + 3 + suite.macsize + 1;
      writebuf := new u8[size];
      var padlen := Padding(PACKET_PAYLOAD_OFF + |payload|);
      PadLenOk(suite, |payload|);
      LayOut(writebuf, payload, random);
      len := PACKET_PAYLOAD_OFF + |payload| + padlen;
      forall k | 0 <= k < len ensures writebuf[k] == Clear(suite, Frame(payload, random))[k] {
        ClearAt(suite, Frame(payload, random), k);
      }
    }

    /** The padding arithmetic of encrypt_packet. */
    method Padding(len: nat) returns (padlen: nat)
      requires (suite.bs == 8 || suite.bs == 16) && len > PACKET_PAYLOAD_OFF
      ensures padlen == PadLen(suite, len - PACKET_PAYLOAD_OFF)
    {
      var l := if suite.Aead? then len - 4 else len;
      padlen := suite.bs - l % suite.bs;
      if padlen < 4 { padlen := padlen + suite.bs; }
      if len + padlen < MIN_PACKET_LEN { padlen := padlen + suite.bs; }
    }

    /** In-place encryption with the MAC or tag behind. */
    method SealInPlace(writebuf: array<u8>, len: nat) returns (total: nat)
      requires Suitable(suite) && suite.bs <= len && len + suite.macsize <= writebuf.Length
      requires suite.Chained? ==> len % suite.bs == 0
      modifies writebuf, this`st
      ensures total == len + suite.macsize
      ensures (writebuf[..total], st) == Seal(suite, old(st), transseq, old(writebuf[..len]))
    {
      ghost var clear := writebuf[..len];
      if suite.Aead? {
        var n := (st, transseq);
        StreamLengths(suite, n, clear);
        assert writebuf[..4] == clear[..4] && writebuf[4..len] == clear[4..];
        var c := suite.header(n, writebuf[..4]) + suite.body(n, writebuf[4..len]);
        CopyTwo(writebuf, c, suite.tag(n, c));
        st := st + 1;
      } else {
        ChainedLengths(suite, st, transseq, clear);
        var macBytes := suite.mac(transseq, writebuf[..len]);
        var (c, st') := EncAll(suite, st, writebuf[..len]);
        CopyTwo(writebuf, c, macBytes);
        st := st';
      }
      total := len + suite.macsize;
    }

    method MakePacket(payload: seq<u8>, random: seq<u8>) returns (packet: seq<u8>)
      requires Suitable(suite) && FrameOk(suite, Frame(payload, random))
      modifies this`st
      ensures |packet| > 0 && (packet, st) == Seal(suite, old(st), transseq, Clear(suite, Frame(payload, random)))
    {
      PadLenOk(suite, |payload|);
      var writebuf, len := BuildClear(payload, random);
      var total := SealInPlace(writebuf, len);
      packet := writebuf[..total];
    }

    /** encrypt_packet, from the allocation of the buffer on; the padding bytes are random. */
    method EncryptPacket(payload: seq<u8>, random: seq<u8>)
      requires Valid() && FrameOk(suite, Frame(payload, random))
      modifies this`st, this`transseq, this`writequeue, this`frames
      ensures frames == old(frames) + [Frame(payload, random)]
      ensures Standing(start, frames, sent, writequeue) ==
        Some(if IsNewKeys(payload) then Switched(State()) else State())
    {
      ghost var f, x := Frame(payload, random), State();
      var packet := MakePacket(payload, random);
      transseq := (transseq + 1) % WORD;
      assert Follows(x, suite, f, packet, State());
      Append(packet, f, x);
    }

    /** The packet joins the queue. */
    method Append(packet: seq<u8>, ghost f: Frame, ghost x: Stream)
      requires Standing(start, frames, sent, writequeue) == Some(x) && Follows(x, suite, f, packet, State())
      modifies this`writequeue, this`frames
      ensures frames == old(frames) + [f]
      ensures Standing(start, frames, sent, writequeue) ==
        Some(if IsNewKeys(f.payload) then Switched(State()) else State())
    {
      Appended(start, frames, f, sent, writequeue, x, suite, packet, State());
      writequeue := writequeue + [Buf(packet, 0)];
      frames := frames + [f];
    }

    /** The sending half of switch_keys. */
    method SwitchKeys()
      modifies this`epoch, this`suite, this`st
      ensures State() == Switched(old(State())) && suite == keys(epoch).suite
    {
      epoch := epoch + 1;
      suite, st := keys(epoch).suite, keys(epoch).st;
    }

    /** Any message; send_msg_newkeys switches the keys once its packet is encrypted. */
    method Send(payload: seq<u8>, random: seq<u8>)
      requires Valid() && FrameOk(suite, Frame(payload, random))
      modifies this`epoch, this`suite, this`st, this`transseq, this`writequeue, this`frames
      ensures Valid() && frames == old(frames) + [Frame(payload, random)]
      ensures epoch == old(epoch) + if IsNewKeys(payload) then 1 else 0
    {
      EncryptPacket(payload, random);
      if IsNewKeys(payload) { SwitchKeys(); }
    }

    /** packet_queue_to_iovec: the unwritten parts of the first packets, none of them empty. */
    method ToIovec(limit: nat) returns (iov: seq<seq<u8>>)
      requires QueueOk(writequeue)
      ensures |iov| == (if |writequeue| < limit then |writequeue| else limit)
      ensures forall i :: 0 <= i < |iov| ==> |iov[i]| > 0 && iov[i] == writequeue[i].data[writequeue[i].pos..]
      ensures Concat(iov) == Pending(writequeue[..|iov|])
    {
      iov := [];
      var count := if |writequeue| < limit then |writequeue| else limit;
      while |iov| < count
        invariant |iov| <= count
        invariant forall i :: 0 <= i < |iov| ==> |iov[i]| > 0 && iov[i] == writequeue[i].data[writequeue[i].pos..]
      {
        var b := writequeue[|iov|];
        iov := iov + [b.data[b.pos..]];
      }
      ConcatUnwritten(iov, writequeue);
    }

    /** packet_queue_consume: drop what was written from the front of the queue. */
    method Consume(written: nat)
      requires QueueOk(writequeue) && written <= |Pending(writequeue)|
      modifies this`writequeue
      ensures QueueOk(writequeue) && Pending(writequeue) == old(Pending(writequeue))[written..]
    {
      var left := written;
      ghost var all := Pending(writequeue);
      while left > 0
        invariant 0 <= left <= written && QueueOk(writequeue)
        invariant left <= |Pending(writequeue)| && Pending(writequeue) == all[written - left..]
        decreases left
      {
        var head := writequeue[0];
        var len := |head.data| - head.pos;
        DropHead(writequeue, head, writequeue[1..], left);
        if len > left {
          writequeue := [head.(pos := head.pos + left)] + writequeue[1..];
          left := 0;
        } else {
          writequeue := writequeue[1..];
          left := left - len;
        }
      }
    }

    /** write_packet with writev: it takes any part of what it was offered. Nothing written means that
        the peer has closed the connection. */
    method WritePacket(written: nat) returns (closed: bool)
      requires Valid() && writequeue != [] && written <= |Offered(writequeue)|
      modifies this`writequeue, this`sent
      ensures Valid() && sent == old(sent) + old(Offered(writequeue))[..written] && closed == (written == 0)
    {
      ghost var q := writequeue;
      var iov := ToIovec(MAX_IOV);
      assert Concat(iov) == Offered(q) by { assert q[..|q|] == q; }
      OfferedPrefix(q);
      Consume(written);
      Moved(start, frames, sent, q, State(), writequeue, Concat(iov), written);
      sent := sent + Concat(iov)[..written];
      closed := written == 0;
    }

    /** write_packet without writev: it takes any part of the first packet. */
    method WriteFirst(written: nat) returns (closed: bool)
      requires Valid() && writequeue != [] && written <= |writequeue[0].data| - writequeue[0].pos
      modifies this`writequeue, this`sent
      ensures Valid() && closed == (written == 0)
      ensures sent == old(sent) + old(writequeue[0].data[writequeue[0].pos..])[..written]
    {
      var len := |writequeue[0].data| - writequeue[0].pos;
      assert len > 0;
      ghost var q := writequeue;
      var front := writequeue[0].data[writequeue[0].pos..];
      Advance(written, len);
      Moved(start, frames, sent, q, State(), writequeue, front, written);
      sent := sent + front[..written];
      closed := written == 0;
    }

    method Advance(written: nat, len: nat)
      requires QueueOk(writequeue) && writequeue != [] && written <= len == |writequeue[0].data| - writequeue[0].pos
      modifies this`writequeue
      ensures QueueOk(writequeue) && Pending(writequeue) == old(Pending(writequeue))[written..]
    {
      AdvanceFront(writequeue, written);
      var writebuf := writequeue[0];
      if written == len {
        writequeue := writequeue[1..];
      } else {
        writequeue := [writebuf.(pos := writebuf.pos + written)] + writequeue[1..];
      }
    }
  }

  lemma AdvanceFront(q: seq<Buf>, n: nat)
    requires QueueOk(q) && q != [] && n <= |q[0].data| - q[0].pos
    ensures var q' := if n == |q[0].data| - q[0].pos then q[1..] else [q[0].(pos := q[0].pos + n)] + q[1..];
      QueueOk(q') && Pending(q') == Pending(q)[n..]
  {
    DropHead(q, q[0], q[1..], n);
  }

  /** What was written moves from the queue to what was sent. */
  lemma Moved(x: Stream, fs: seq<Frame>, sent: seq<u8>, q: seq<Buf>, end: Stream, q': seq<Buf>, offered: seq<u8>,
              n: nat)
    requires Standing(x, fs, sent, q) == Some(end) && offered <= Pending(q) && n <= |offered|
    requires QueueOk(q') && Pending(q') == Pending(q)[n..]
    ensures Standing(x, fs, sent + offered[..n], q') == Some(end)
  {
    var pending := Pending(q);
    assert pending[..n] == offered[..n] && pending == pending[..n] + pending[n..];
    Regroup(sent, pending[..n], pending[n..]);
  }

  /** What one writev offers. */
  function Offered(q: seq<Buf>): seq<u8>
    requires forall b :: b in q ==> b.pos < |b.data|
  {
    Pending(if |q| < MAX_IOV then q else q[..MAX_IOV])
  }

  lemma {:induction false} PendingSplit(q: seq<Buf>, n: nat)
    requires QueueOk(q) && n <= |q|
    ensures Pending(q) == Pending(q[..n]) + Pending(q[n..])
    decreases n
  {
    if n == 0 {
      assert q[0..] == q;
    } else {
      PendingSplit(q[..n], n - 1);
      PendingSplit(q, n - 1);
      assert q[..n][..n - 1] == q[..n - 1] && q[..n][n - 1..] == [q[n - 1]];
      assert q[n - 1..][0] == q[n - 1] && q[n - 1..][1..] == q[n..];
      Regroup(Pending(q[..n - 1]), q[n - 1].data[q[n - 1].pos..], Pending(q[n..]));
    }
  }

  /** What an iovec of the unwritten parts holds, end to end. */
  lemma {:induction false} ConcatUnwritten(iov: seq<seq<u8>>, q: seq<Buf>)
    requires QueueOk(q) && |iov| <= |q|
    requires forall i :: 0 <= i < |iov| ==> iov[i] == q[i].data[q[i].pos..]
    ensures Concat(iov) == Pending(q[..|iov|])
  {
    if iov != [] {
      ConcatUnwritten(iov[1..], q[1..]);
      assert q[..|iov|][1..] == q[1..][..|iov| - 1];
    }
  }

  lemma OfferedPrefix(q: seq<Buf>)
    requires QueueOk(q)
    ensures Offered(q) <= Pending(q)
  {
    if |q| >= MAX_IOV { PendingSplit(q, MAX_IOV); }
  }

  /** Writing part of the first packet, or all of it, takes that much off the front. */
  lemma DropHead(q: seq<Buf>, head: Buf, rest: seq<Buf>, n: nat)
    requires QueueOk(rest) && head.pos < |head.data| && q == [head] + rest
    ensures QueueOk(q)
    ensures var len, all := |head.data| - head.pos, Pending(q);
      if len > n then n <= |all| && Pending([head.(pos := head.pos + n)] + rest) == all[n..]
      else len <= |all| && Pending(rest) == all[len..]
  {
    var h, t := head.data[head.pos..], Pending(rest);
    PendingCons(head, rest);
    if |h| > n {
      PendingCons(head.(pos := head.pos + n), rest);
      DropWithin(h, t, n);
      assert head.data[head.pos + n..] == h[n..];
    } else {
      DropWithin(h, t, |h|);
    }
  }

  lemma PendingCons(b: Buf, q: seq<Buf>)
    requires QueueOk(q) && b.pos < |b.data|
    ensures Pending([b] + q) == b.data[b.pos..] + Pending(q)
  {
    assert ([b] + q)[1..] == q;
  }

  lemma DropWithin(h: seq<u8>, t: seq<u8>, n: nat)
    requires n <= |h|
    ensures (h + t)[n..] == h[n..] + t
  {}

  // ------------------------------------------------------------------ receiving

  /** A read of at most `want` bytes from a socket that holds `sock`: any part of it, or nothing yet. */
  function Piece(sock: seq<u8>, want: nat, cap: Option<nat>): (p: Option<seq<u8>>)
    ensures p.Some? ==> p.value <= sock && |p.value| <= want && (want > 0 ==> |p.value| > 0)
  {
    if sock == [] || cap.None? || cap.value == 0 then None else Some(sock[..Min(want, Min(cap.value, |sock|))])
  }

  function Length(p: Option<seq<u8>>): nat
  {
    if p.None? then 0 else |p.value|
  }

  /** A packet is begun and not complete. */
  predicate Reading(s: Suite, r: Reader)
  {
    Want(s, r) > 0
  }

  /** One call of read_packet, with up to two reads: the state, the outcome and how much was read. */
  function ReadCall(s: Suite, r: Reader, sock: seq<u8>, a: Option<nat>, b: Option<nat>): (Reader, Outcome, nat)
    requires Suitable(s) && Reading(s, r)
  {
    if r.need != 0 then ReadRemainder(s, r, sock, b)
    else
      var p := Piece(sock, Want(s, r), a);
      if p.None? then (r, More, 0)
      else
        var (r', o) := Feed(s, r, p.value);
        ReadOn(s, r', o, sock, |p.value|, b)
  }

  /** The rest of the call once n bytes were read. */
  function ReadOn(s: Suite, r: Reader, o: Outcome, sock: seq<u8>, n: nat, b: Option<nat>): (Reader, Outcome, nat)
    requires Suitable(s) && n <= |sock|
  {
    if o.More? && r.need != 0 && Reading(s, r) then
      var (r', o', m) := ReadRemainder(s, r, sock[n..], b);
      (r', o', n + m)
    else (r, o, n)
  }

  function ReadRemainder(s: Suite, r: Reader, sock: seq<u8>, b: Option<nat>): (Reader, Outcome, nat)
    requires Suitable(s) && Reading(s, r)
  {
    var p := Piece(sock, Want(s, r), b);
    if p.None? then (r, More, 0)
    else
      var (r', o) := Feed(s, r, p.value);
      (r', o, |p.value|)
  }

  /** One call of read_packet and, when it hands out NEWKEYS, recv_msg_newkeys. */
  function HearCall(l: Listener, sock: seq<u8>, a: Option<nat>, b: Option<nat>): (Listener, Outcome, nat)
    requires Suitable(Hearing(l)) && Reading(Hearing(l), l.r)
  {
    var (r, o, n) := ReadCall(Hearing(l), l.r, sock, a, b);
    (Heard(l, r, o), o, n)
  }

  lemma CallHeard(l: Listener, s: Suite, sock: seq<u8>, a: Option<nat>, b: Option<nat>, r: Reader, o: Outcome, n: nat)
    requires s == Hearing(l) && Suitable(s) && Reading(s, l.r) && ReadCall(s, l.r, sock, a, b) == (r, o, n)
    ensures HearCall(l, sock, a, b) == (Heard(l, r, o), o, n)
  {}

  class Receiver {
    const keys: nat -> Key
    var epoch: nat
    var suite: Suite
    var st: nat
    var recvseq: nat
    var readbuf: seq<u8>
    var len: nat

    ghost function State(): Reader
      reads this
    {
      Reader(st, recvseq, readbuf, len)
    }

    ghost function Listening(): Listener
      reads this
    {
      Listener(keys, epoch, State())
    }

    constructor (x: Stream)
      ensures Listening() == Begin(x) && suite == keys(epoch).suite
    {
      keys, epoch, suite, st, recvseq, readbuf, len := x.keys, x.epoch, SuiteOf(x), x.st, x.seqno, [], 0;
    }

    /** decrypt_packet */
    method DecryptPacket() returns (o: Outcome)
      requires Suitable(suite) && |readbuf| == len
      modifies this`st, this`recvseq, this`readbuf, this`len
      ensures (State(), o) == FinishPacket(suite, old(State()))
      ensures o.Integrity? <==> old(Fits(suite, readbuf) && !TrailerOk(suite, State()))
      ensures o.Payload? ==> old(Fits(suite, readbuf) && TrailerOk(suite, State()))
    {
      FinishTrailer(suite, State());
      if len < suite.bs + suite.macsize || len < 4 + suite.macsize { return BadBuffer; }
      var end := len - suite.macsize;
      var clear, st' := [], st;
      if suite.Aead? {
        var n := (st, recvseq);
        if suite.tag(n, readbuf[..end]) != readbuf[end..] { return Integrity; }
        clear := suite.header(n, readbuf[..4]) + suite.body(n, readbuf[4..end]);
        st' := st + 1;
      } else {
        var (x, next) := DecAll(suite, st, readbuf[suite.bs..end]);
        clear, st' := readbuf[..suite.bs] + x, next;
        if suite.mac(recvseq, clear) != readbuf[end..] { return Integrity; }
      }
      if |clear| <= PACKET_PADDING_OFF { return BadBuffer; }
      var padlen: int := clear[PACKET_PADDING_OFF];
      var n := len - padlen - 4 - 1 - suite.macsize;
      if n > RECV_MAX_PAYLOAD_LEN + ZLIB_COMPRESS_EXPANSION || n < 1 { return BadSize; }
      if PACKET_PAYLOAD_OFF + n > |clear| { return BadBuffer; }
      st, recvseq, readbuf, len := st', (recvseq + 1) % WORD, [], 0;
      o := Payload(clear[PACKET_PAYLOAD_OFF..PACKET_PAYLOAD_OFF + n]);
    }

    /** read_packet_init once the first block is in. */
    method ReadLength() returns (o: Outcome)
      requires Suitable(suite) && |readbuf| == suite.bs && len == 0
      modifies this`st, this`recvseq, this`readbuf, this`len
      ensures (State(), o) == OpenLength(suite, old(State()))
    {
      var block, st', plen := readbuf, st, 0;
      if suite.Aead? {
        plen := FromUbin(suite.header((st, recvseq), readbuf[..4]));
      } else {
        assert BlockOk(suite, st, readbuf);
        var (b, next) := suite.dec(st, readbuf);
        block, st', plen := b, next, (FromUbin(b[..4]) + 4) % WORD;
      }
      var n := (plen + suite.macsize + if suite.Aead? then 4 else 0) % WORD;
      if BadLength(suite, plen, n) { return BadSize; }
      if n < suite.bs { return BadBuffer; }
      readbuf, st, len := block, st', n;
      o := More;
    }

    /** The read in read_packet_init and what follows it; nothing is left to read of a packet that is
        one block long. */
    method ReadFirst(chunk: seq<u8>) returns (o: Outcome)
      requires Suitable(suite) && len == 0 && |chunk| <= Want(suite, State())
      modifies this`st, this`recvseq, this`readbuf, this`len
      ensures (State(), o) == Feed(suite, old(State()), chunk)
    {
      readbuf := readbuf + chunk;
      if |readbuf| < suite.bs { return More; }
      o := ReadLength();
      if o.More? && |readbuf| == len { o := DecryptPacket(); }
    }

    /** The read of the remainder. */
    method ReadRest(chunk: seq<u8>) returns (o: Outcome)
      requires Suitable(suite) && len != 0 && |chunk| <= Want(suite, State())
      modifies this`st, this`recvseq, this`readbuf, this`len
      ensures (State(), o) == Feed(suite, old(State()), chunk)
    {
      readbuf := readbuf + chunk;
      if |readbuf| == len { o := DecryptPacket(); } else { o := More; }
    }

    /** The second half of read_packet. */
    method ReadRemaining(sock: seq<u8>, b: Option<nat>) returns (o: Outcome, n: nat)
      requires Suitable(suite) && Reading(suite, State()) && len != 0
      modifies this`st, this`recvseq, this`readbuf, this`len
      ensures (State(), o, n) == ReadRemainder(suite, old(State()), sock, b)
    {
      var chunk := Piece(sock, len - |readbuf|, b);
      if chunk.None? { return More, 0; }
      o := ReadRest(chunk.value);
      n := |chunk.value|;
    }

    /** read_packet on a socket that holds `sock`. */
    method ReadPacket(sock: seq<u8>, a: Option<nat>, b: Option<nat>) returns (o: Outcome, n: nat)
      requires Suitable(suite) && Reading(suite, State())
      modifies this`st, this`recvseq, this`readbuf, this`len
      ensures (State(), o, n) == ReadCall(suite, old(State()), sock, a, b)
    {
      if len != 0 {
        o, n := ReadRemaining(sock, b);
        return;
      }
      var chunk := Piece(sock, suite.bs - |readbuf|, a);
      if chunk.None? { return More, 0; }
      o := ReadFirst(chunk.value);
      o, n := ReadFurther(o, sock, |chunk.value|, b);
    }

    method ReadFurther(first: Outcome, sock: seq<u8>, read: nat, b: Option<nat>) returns (o: Outcome, n: nat)
      requires Suitable(suite) && read <= |sock|
      modifies this`st, this`recvseq, this`readbuf, this`len
      ensures (State(), o, n) == ReadOn(suite, old(State()), first, sock, read, b)
    {
      o, n := first, read;
      if o.More? && len != 0 && |readbuf| < len {
        var m;
        o, m := ReadRemaining(sock[n..], b);
        n := n + m;
      }
    }

    /** The receiving half of switch_keys. */
    method SwitchKeys()
      modifies this`epoch, this`suite, this`st
      ensures epoch == old(epoch) + 1 && suite == keys(epoch).suite && st == keys(epoch).st
    {
      epoch := epoch + 1;
      suite, st := keys(epoch).suite, keys(epoch).st;
    }

    /** read_packet, and the processing of a packet as far as it concerns the keys. */
    method Receive(sock: seq<u8>, a: Option<nat>, b: Option<nat>) returns (o: Outcome, n: nat)
      requires suite == keys(epoch).suite && Suitable(suite) && Reading(suite, State())
      modifies this
      ensures suite == keys(epoch).suite && (Listening(), o, n) == HearCall(old(Listening()), sock, a, b)
    {
      ghost var l, s := Listening(), suite;
      o, n := ReadPacket(sock, a, b);
      CallHeard(l, s, sock, a, b, State(), o, n);
      if o.Payload? && IsNewKeys(o.p) { SwitchKeys(); }
    }
  }
}
