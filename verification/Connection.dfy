/** A sender and a receiver of packets joined by a socket: whatever part of the queue each write takes
    and however the reads cut what is in the socket, the payloads come out once each and in order. */
module Connection {
  import opened Common
  import opened Digits
  import opened FrameSpec
  import opened Framing
  import opened Authenticity

  // ------------------------------------------------------------------ calls and pieces

  ghost function Fed(l: Listener, chunks: seq<seq<u8>>): (l': Listener)
    requires Keyed(l.keys) && Feeds(l, chunks)
    ensures l'.keys == l.keys
    decreases |chunks|
  {
    if chunks == [] then l else Fed(Hear(l, chunks[0]).0, chunks[1..])
  }

  /** A listener that started as l0 and was fed the pieces is now l and has reported `outs`. */
  ghost predicate Trace(l0: Listener, chunks: seq<seq<u8>>, l: Listener, outs: seq<Outcome>)
  {
    Keyed(l0.keys) && Feeds(l0, chunks) && Fed(l0, chunks) == l && Outcomes(l0, chunks) == outs
  }

  function Reported(o: Outcome): seq<Outcome>
  {
    if o.More? then [] else [o]
  }

  lemma {:induction false} TraceSnoc(l0: Listener, chunks: seq<seq<u8>>, l: Listener, outs: seq<Outcome>, c: seq<u8>,
                                     l': Listener, o: Outcome)
    requires Trace(l0, chunks, l, outs) && |c| <= Want(Hearing(l), l.r) && Hear(l, c) == (l', o)
    ensures Trace(l0, chunks + [c], l', outs + Reported(o))
    decreases |chunks|
  {
    if chunks == [] {
      var all := chunks + [c];
      assert all == [c] && all[1..] == [];
      assert Outcomes(l, [c]) == Reported(o) + [];
    } else {
      var (l1, o1) := Hear(l0, chunks[0]);
      TraceSnoc(l1, chunks[1..], l, Outcomes(l1, chunks[1..]), c, l', o);
      TraceCons(l0, chunks, c, l1, o1, l', Outcomes(l1, chunks[1..]), o);
      assert outs == Reported(o1) + Outcomes(l1, chunks[1..]);
    }
  }

  lemma TraceCons(l0: Listener, chunks: seq<seq<u8>>, c: seq<u8>, l1: Listener, o1: Outcome, l': Listener,
                  outs1: seq<Outcome>, o: Outcome)
    requires Keyed(l0.keys) && chunks != [] && |chunks[0]| <= Want(Hearing(l0), l0.r) && Hear(l0, chunks[0]) == (l1, o1)
    requires Trace(l1, chunks[1..] + [c], l', outs1 + Reported(o))
    ensures Trace(l0, chunks + [c], l', Reported(o1) + outs1 + Reported(o))
  {
    var all := chunks + [c];
    assert all[0] == chunks[0] && all[1..] == chunks[1..] + [c];
    assert Reported(o1) + (outs1 + Reported(o)) == (Reported(o1) + outs1) + Reported(o);
  }

  lemma ConcatSnoc(chunks: seq<seq<u8>>, c: seq<u8>)
    ensures Concat(chunks + [c]) == Concat(chunks) + c
  {
    if chunks == [] {
      assert chunks + [c] == [c] && Concat([c]) == c + [];
    } else {
      assert (chunks + [c])[1..] == chunks[1..] + [c];
      ConcatSnoc(chunks[1..], c);
      Regroup(chunks[0], Concat(chunks[1..]), c);
    }
  }

  /** A packet is begun and not complete. */
  predicate Ready(l: Listener)
  {
    Reading(Hearing(l), l.r)
  }

  /** A read leaves a packet begun or reports something; a packet that is complete leaves nothing behind. */
  lemma FeedReading(s: Suite, r: Reader, c: seq<u8>)
    requires Suitable(s) && |c| <= Want(s, r)
    ensures var (r', o) := Feed(s, r, c); (o.More? ==> Reading(s, r')) && (o.Payload? ==> r'.buf == [] && r'.need == 0)
  {
    var r1 := r.(buf := r.buf + c);
    if r1.need != 0 {
      CompleteReading(s, r1);
    } else if |r1.buf| >= s.bs {
      OpenedReading(s, r1);
      var (r2, o) := OpenLength(s, r1);
      if o.More? { CompleteReading(s, r2); }
    }
  }

  lemma CompleteReading(s: Suite, r: Reader)
    requires s.bs > 0 && |r.buf| <= r.need
    ensures var (r', o) := Complete(s, r); (o.More? ==> Reading(s, r')) && (o.Payload? ==> r'.buf == [] && r'.need == 0)
  {
    if |r.buf| == r.need { assert !FinishPacket(s, r).1.More?; }
  }

  lemma OpenedReading(s: Suite, r: Reader)
    requires Suitable(s) && |r.buf| == s.bs
    ensures var (r', o) := OpenLength(s, r); o.More? ==> |r'.buf| == s.bs <= r'.need
  {
    if s.Chained? { assert BlockOk(s, r.st, r.buf); }
  }

  /** What one read does to a listener: it reports nothing and goes on with the packet, or it is ready for
      the next packet under whatever keys come next. */
  lemma HearReady(l: Listener, c: seq<u8>)
    requires Keyed(l.keys) && |c| <= Want(Hearing(l), l.r)
    ensures var (l', o) := Hear(l, c); o.More? || o.Payload? ==> Ready(l')
  {
    FeedReading(Hearing(l), l.r, c);
    assert Suitable(l.keys(l.epoch + 1).suite);
  }

  /** The pieces that a call of read_packet reads. */
  function RemainderPieces(s: Suite, r: Reader, sock: seq<u8>, b: Option<nat>): seq<seq<u8>>
    requires Reading(s, r)
  {
    var p := Piece(sock, Want(s, r), b);
    if p.None? then [] else [p.value]
  }

  function OnPieces(s: Suite, r: Reader, o: Outcome, sock: seq<u8>, n: nat, b: Option<nat>): seq<seq<u8>>
    requires n <= |sock|
  {
    if o.More? && r.need != 0 && Reading(s, r) then RemainderPieces(s, r, sock[n..], b) else []
  }

  function CallPieces(s: Suite, r: Reader, sock: seq<u8>, a: Option<nat>, b: Option<nat>): seq<seq<u8>>
    requires Suitable(s) && Reading(s, r)
  {
    if r.need != 0 then RemainderPieces(s, r, sock, b)
    else
      var p := Piece(sock, Want(s, r), a);
      if p.None? then []
      else
        var (r', o) := Feed(s, r, p.value);
        [p.value] + OnPieces(s, r', o, sock, |p.value|, b)
  }

  /** What a step of the listener does to a trace: the pieces are those, and they are the next bytes. */
  ghost predicate Extends(l0: Listener, chunks: seq<seq<u8>>, outs: seq<Outcome>, pieces: seq<seq<u8>>,
                          l: Listener, o: Outcome, read: seq<u8>)
  {
    && Trace(l0, chunks + pieces, l, outs + Reported(o)) && Concat(chunks + pieces) == Concat(chunks) + read
    && (o.More? || o.Payload? ==> Ready(l))
  }

  lemma NoPieces(l0: Listener, chunks: seq<seq<u8>>, l: Listener, outs: seq<Outcome>)
    requires Trace(l0, chunks, l, outs) && Ready(l)
    ensures Extends(l0, chunks, outs, [], l, More, [])
  {
    assert chunks + [] == chunks && outs + [] == outs && Concat(chunks) + [] == Concat(chunks);
  }

  lemma OnePiece(l0: Listener, chunks: seq<seq<u8>>, l: Listener, outs: seq<Outcome>, c: seq<u8>, r: Reader, o: Outcome)
    requires Trace(l0, chunks, l, outs) && |c| <= Want(Hearing(l), l.r) && Feed(Hearing(l), l.r, c) == (r, o)
    ensures Extends(l0, chunks, outs, [c], Heard(l, r, o), o, c)
  {
    HearFeed(l, Hearing(l), c, r, o);
    TraceSnoc(l0, chunks, l, outs, c, Heard(l, r, o), o);
    ConcatSnoc(chunks, c);
    HearReady(l, c);
  }

  lemma RemainderTrace(l0: Listener, chunks: seq<seq<u8>>, l: Listener, outs: seq<Outcome>, sock: seq<u8>,
                       b: Option<nat>)
    requires Trace(l0, chunks, l, outs) && Ready(l)
    ensures var s := Hearing(l); var (r', o, n) := ReadRemainder(s, l.r, sock, b);
      n <= |sock| && Extends(l0, chunks, outs, RemainderPieces(s, l.r, sock, b), Heard(l, r', o), o, sock[..n])
  {
    var s := Hearing(l);
    var p := Piece(sock, Want(s, l.r), b);
    if p.None? {
      NoPieces(l0, chunks, l, outs);
    } else {
      var (r', o) := Feed(s, l.r, p.value);
      OnePiece(l0, chunks, l, outs, p.value, r', o);
    }
  }

  lemma Joined(l0: Listener, chunks: seq<seq<u8>>, outs: seq<Outcome>, first: seq<seq<u8>>, more: seq<seq<u8>>,
               l: Listener, o: Outcome, read: seq<u8>, read': seq<u8>)
    requires Concat(chunks + first) == Concat(chunks) + read && Extends(l0, chunks + first, outs, more, l, o, read')
    ensures Extends(l0, chunks, outs, first + more, l, o, read + read')
  {
    var all := chunks + (first + more);
    assert (chunks + first) + more == all;
    assert Trace(l0, all, l, outs + Reported(o));
    Regroup(Concat(chunks), read, read');
  }

  /** The rest of a call: the first read left the packet begun, and there is a second, or there is none. */
  lemma OnTrace(l0: Listener, chunks: seq<seq<u8>>, l: Listener, outs: seq<Outcome>, r: Reader, o: Outcome,
                sock: seq<u8>, n: nat, b: Option<nat>, s: Suite)
    requires n <= |sock| && Extends(l0, chunks, outs, [sock[..n]], Heard(l, r, o), o, sock[..n])
    requires s == Hearing(l) && Suitable(s)
    ensures var (r', o', m) := ReadOn(s, r, o, sock, n, b);
      && m <= |sock|
      && Extends(l0, chunks, outs, [sock[..n]] + OnPieces(s, r, o, sock, n, b), Heard(l, r', o'), o', sock[..m])
  {
    if o.More? && r.need != 0 && Reading(s, r) {
      SecondRead(l0, chunks, l.(r := r), outs, sock, n, b);
      var (r', o', m) := ReadRemainder(s, r, sock[n..], b);
      assert Heard(l.(r := r), r', o') == Heard(l, r', o');
    } else {
      assert [sock[..n]] + [] == [sock[..n]];
    }
  }

  lemma SecondRead(l0: Listener, chunks: seq<seq<u8>>, l: Listener, outs: seq<Outcome>, sock: seq<u8>, n: nat,
                   b: Option<nat>)
    requires n <= |sock| && Extends(l0, chunks, outs, [sock[..n]], l, More, sock[..n]) && Ready(l)
    ensures var s := Hearing(l); Suitable(s) && var (r', o, m) := ReadRemainder(s, l.r, sock[n..], b);
      && n + m <= |sock|
      && Extends(l0, chunks, outs, [sock[..n]] + RemainderPieces(s, l.r, sock[n..], b), Heard(l, r', o), o,
                 sock[..n + m])
  {
    var s, first := Hearing(l), [sock[..n]];
    assert outs + [] == outs;
    RemainderTrace(l0, chunks + first, l, outs, sock[n..], b);
    var (r', o, m) := ReadRemainder(s, l.r, sock[n..], b);
    Joined(l0, chunks, outs, first, RemainderPieces(s, l.r, sock[n..], b), Heard(l, r', o), o, sock[..n],
           sock[n..][..m]);
    assert sock[..n] + sock[n..][..m] == sock[..n + m];
  }

  /** A call of read_packet is the pieces it reads, one after another, and reports what the last did. */
  lemma CallTrace(l0: Listener, chunks: seq<seq<u8>>, l: Listener, outs: seq<Outcome>,
                  sock: seq<u8>, a: Option<nat>, b: Option<nat>)
    requires Trace(l0, chunks, l, outs) && Ready(l)
    ensures var (l', o, n) := HearCall(l, sock, a, b);
      n <= |sock| && Extends(l0, chunks, outs, CallPieces(Hearing(l), l.r, sock, a, b), l', o, sock[..n])
  {
    var s := Hearing(l);
    if l.r.need != 0 {
      RemainderTrace(l0, chunks, l, outs, sock, b);
    } else {
      var p := Piece(sock, Want(s, l.r), a);
      if p.None? {
        NoPieces(l0, chunks, l, outs);
      } else {
        var (r', o) := Feed(s, l.r, p.value);
        OnePiece(l0, chunks, l, outs, p.value, r', o);
        assert sock[..|p.value|] == p.value;
        OnTrace(l0, chunks, l, outs, r', o, sock, |p.value|, b, s);
      }
    }
  }

  // ------------------------------------------------------------------ any bytes

  lemma TraceGenuine(x: Stream, chunks: seq<seq<u8>>, l: Listener, ps: seq<seq<u8>>)
    requires Trace(Begin(x), chunks, l, Delivered(ps))
    ensures Wired(x, ps, Concat(chunks))
  {
    OnlyGenuine(x, chunks);
    LeadingDelivered(ps);
  }

  /** What was read is what was written before; what was received is what the reads report. */
  ghost predicate Linked(l0: Listener, chunks: seq<seq<u8>>, l: Listener, received: seq<seq<u8>>, socket: seq<u8>,
                         sent: seq<u8>)
  {
    Trace(l0, chunks, l, Delivered(received)) && Ready(l) && Concat(chunks) + socket == sent
  }

  lemma CallLinked(l0: Listener, chunks: seq<seq<u8>>, l: Listener, received: seq<seq<u8>>, socket: seq<u8>,
                   sent: seq<u8>, a: Option<nat>, b: Option<nat>)
    requires Linked(l0, chunks, l, received, socket, sent)
    ensures Keyed(l.keys)
    ensures var (l', o, n) := HearCall(l, socket, a, b);
      && n <= |socket|
      && (o.More? || o.Payload? ==>
            Linked(l0, chunks + CallPieces(Hearing(l), l.r, socket, a, b), l',
                   received + if o.Payload? then [o.p] else [], socket[n..], sent))
  {
    CallTrace(l0, chunks, l, Delivered(received), socket, a, b);
    var (l', o, n) := HearCall(l, socket, a, b);
    if o.More? || o.Payload? { Collected(received, o); }
    assert Concat(chunks) + socket[..n] + socket[n..] == Concat(chunks) + socket;
  }

  /** Calls of read_packet on a socket whose bytes may come from anyone, until one fails: what they hand out are
      the payloads of packets with valid MACs, in the order and under the numbers and keys of the stream. */
  method ReadAnything(rx: Receiver, sock: seq<u8>, caps: seq<(Option<nat>, Option<nat>)>, ghost x: Stream)
    returns (payloads: seq<seq<u8>>, error: Option<Outcome>, ghost read: seq<u8>)
    requires Keyed(x.keys) && rx.Listening() == Begin(x) && rx.suite == rx.keys(rx.epoch).suite
    modifies rx
    ensures read <= sock && Wired(x, payloads, read)
    ensures error.Some? ==> !error.value.More? && !error.value.Payload?
  {
    payloads, error := [], None;
    var rest := sock;
    ghost var chunks, l := [], rx.Listening();
    for i := 0 to |caps|
      invariant Linked(Begin(x), chunks, l, payloads, rest, sock) && l == rx.Listening()
      invariant rx.suite == rx.keys(rx.epoch).suite
    {
      CallLinked(Begin(x), chunks, l, payloads, rest, sock, caps[i].0, caps[i].1);
      ghost var pieces := CallPieces(Hearing(l), l.r, rest, caps[i].0, caps[i].1);
      var o, n := rx.Receive(rest, caps[i].0, caps[i].1);
      if !o.More? && !o.Payload? {
        error := Some(o);
        break;
      }
      chunks, rest, l := chunks + pieces, rest[n..], rx.Listening();
      payloads := payloads + if o.Payload? then [o.p] else [];
    }
    read := Concat(chunks);
    TraceGenuine(x, chunks, l, payloads);
  }

  lemma Collected(payloads: seq<seq<u8>>, o: Outcome)
    requires o.More? || o.Payload?
    ensures Delivered(payloads + if o.Payload? then [o.p] else []) == Delivered(payloads) + Reported(o)
  {
    if o.Payload? {
      DeliveredSnoc(payloads, o.p);
    } else {
      assert payloads + [] == payloads && Delivered(payloads) + [] == Delivered(payloads);
    }
  }

  // ------------------------------------------------------------------ end to end

  /** Payloads come out in the order they were sent, all of them once everything was read. */
  lemma InOrder(x: Stream, fs: seq<Frame>, sent: seq<u8>, q: seq<Buf>, chunks: seq<seq<u8>>, l: Listener,
                outs: seq<Outcome>)
    requires Standing(x, fs, sent, q).Some? && Trace(Begin(x), chunks, l, outs) && Concat(chunks) <= sent
    ensures outs <= Delivered(Payloads(fs))
    ensures q == [] && Concat(chunks) == sent ==> outs == Delivered(Payloads(fs))
  {
    assert Concat(chunks) <= sent + Pending(q);
    if q == [] { assert sent + Pending(q) == sent; }
    ReadsBack(x, fs, chunks);
  }

  lemma {:induction false} DeliveredAt(ps: seq<seq<u8>>, outs: seq<Outcome>)
    requires outs <= Delivered(ps)
    ensures |outs| <= |ps| && outs == Delivered(ps[..|outs|])
    decreases |ps|
  {
    if ps == [] || outs == [] {
      assert ps[..0] == [];
    } else {
      assert outs[1..] <= Delivered(ps[1..]);
      DeliveredAt(ps[1..], outs[1..]);
      assert ps[1..][..|outs| - 1] == ps[..|outs|][1..];
      assert outs == [outs[0]] + outs[1..];
    }
  }

  lemma {:induction false} DeliveredInjective(ps: seq<seq<u8>>, qs: seq<seq<u8>>)
    requires Delivered(ps) == Delivered(qs)
    ensures ps == qs
    decreases |ps|
  {
    if ps != [] {
      assert Delivered(qs)[0] == Payload(ps[0]) && Delivered(qs)[1..] == Delivered(ps[1..]);
      DeliveredInjective(ps[1..], qs[1..]);
      assert ps == [ps[0]] + ps[1..] && qs == [qs[0]] + qs[1..];
    }
  }

  lemma {:induction false} DeliveredSnoc(ps: seq<seq<u8>>, p: seq<u8>)
    ensures Delivered(ps + [p]) == Delivered(ps) + [Payload(p)]
    decreases |ps|
  {
    if ps == [] {
      assert ps + [p] == [p] && [p][1..] == [];
    } else {
      assert (ps + [p])[1..] == ps[1..] + [p];
      DeliveredSnoc(ps[1..], p);
    }
  }

  /** What a call reports after `received` is nothing or the next payload. */
  lemma NextReport(received: seq<seq<u8>>, o: Outcome, ps: seq<seq<u8>>)
    requires Delivered(received) + Reported(o) <= Delivered(ps)
    ensures o.More? || o.Payload?
    ensures var received' := received + if o.Payload? then [o.p] else [];
      Delivered(received') == Delivered(received) + Reported(o)
  {
    if o.More? {
      assert received + [] == received && Delivered(received) + [] == Delivered(received);
    } else {
      var outs := Delivered(received) + [o];
      DeliveredAt(ps, outs);
      var qs := ps[..|outs|];
      DeliveredSnoc(qs[..|qs| - 1], qs[|qs| - 1]);
      assert qs == qs[..|qs| - 1] + [qs[|qs| - 1]];
      assert outs[|outs| - 1] == o;
      DeliveredSnoc(received, o.p);
    }
  }

  lemma ReceivedPrefix(received: seq<seq<u8>>, ps: seq<seq<u8>>)
    requires Delivered(received) <= Delivered(ps)
    ensures received <= ps
  {
    DeliveredAt(ps, Delivered(received));
    DeliveredInjective(received, ps[..|Delivered(received)|]);
  }

  /** A call of read_packet in a stream that is in order reports nothing or the next payload. */
  lemma CallInOrder(x: Stream, fs: seq<Frame>, sent: seq<u8>, q: seq<Buf>, chunks: seq<seq<u8>>,
                    received: seq<seq<u8>>, pieces: seq<seq<u8>>, l: Listener, o: Outcome, read: seq<u8>, rest: seq<u8>)
    requires Standing(x, fs, sent, q).Some? && Concat(chunks) + (read + rest) == sent
    requires Extends(Begin(x), chunks, Delivered(received), pieces, l, o, read)
    ensures o.More? || o.Payload?
    ensures Linked(Begin(x), chunks + pieces, l, received + if o.Payload? then [o.p] else [], rest, sent)
  {
    Regroup(Concat(chunks), read, rest);
    InOrder(x, fs, sent, q, chunks + pieces, l, Delivered(received) + Reported(o));
    NextReport(received, o, Payloads(fs));
  }

  /** A packet to send, a write of up to n bytes, or a call of read_packet. */
  datatype Step = Queue(f: Frame) | Write(n: nat) | Read(a: Option<nat>, b: Option<nat>)

  /** The packets that the steps send. */
  function Queued(steps: seq<Step>): seq<Frame>
  {
    if steps == [] then []
    else Queued(steps[..|steps| - 1]) + if steps[|steps| - 1].Queue? then [steps[|steps| - 1].f] else []
  }

  /** Each packet fits the keys in use when it is sent. */
  ghost predicate StepsOk(keys: nat -> Key, e: nat, steps: seq<Step>)
    requires Keyed(keys)
  {
    forall i :: 0 <= i < |steps| && steps[i].Queue? ==>
      FrameOk(keys(EpochAfter(e, Queued(steps[..i]))).suite, steps[i].f)
  }

  lemma QueuedNext(e: nat, fs: seq<Frame>, steps: seq<Step>, i: nat)
    requires i < |steps|
    ensures var before, after, step := Queued(steps[..i]), Queued(steps[..i + 1]), steps[i];
      && fs + after == fs + before + (if step.Queue? then [step.f] else [])
      && EpochAfter(e, after) == EpochAfter(e, before) + if step.Queue? && IsNewKeys(step.f.payload) then 1 else 0
  {
    assert steps[..i + 1][..i] == steps[..i];
    var before, step := Queued(steps[..i]), steps[i];
    if step.Queue? { assert (before + [step.f])[..|before|] == before; } else { assert before + [] == before; }
  }

  class Pipe {
    const tx: Transmitter
    const rx: Receiver
    var socket: seq<u8>
    var received: seq<seq<u8>>
    ghost var chunks: seq<seq<u8>>

    ghost predicate Valid()
      reads this, tx, rx
    {
      && tx.Valid() && rx.suite == rx.keys(rx.epoch).suite
      && Linked(Begin(tx.start), chunks, rx.Listening(), received, socket, tx.sent)
    }

    constructor (x: Stream)
      requires Keyed(x.keys)
      ensures Valid() && fresh(tx) && fresh(rx) && tx.start == x && tx.frames == [] && received == []
    {
      tx := new Transmitter(x);
      rx := new Receiver(x);
      socket, received, chunks := [], [], [];
    }

    method Enqueue(f: Frame)
      requires Valid() && FrameOk(tx.suite, f)
      modifies tx
      ensures Valid() && tx.frames == old(tx.frames) + [f]
      ensures tx.epoch == old(tx.epoch) + if IsNewKeys(f.payload) then 1 else 0
    {
      tx.Send(f.payload, f.padding);
    }

    method Flush(n: nat)
      requires Valid()
      modifies this`socket, tx
      ensures Valid() && tx.frames == old(tx.frames) && tx.epoch == old(tx.epoch)
    {
      if tx.writequeue == [] { return; }
      var offered := Offered(tx.writequeue);
      var written := Min(n, |offered|);
      Regroup(Concat(chunks), socket, offered[..written]);
      var closed := tx.WritePacket(written);
      socket := socket + offered[..written];
    }

    method ReadSome(a: Option<nat>, b: Option<nat>) returns (o: Outcome, n: nat, ghost pieces: seq<seq<u8>>)
      requires rx.suite == rx.keys(rx.epoch).suite && Ready(rx.Listening())
      requires Trace(Begin(tx.start), chunks, rx.Listening(), Delivered(received))
      modifies rx
      ensures n <= |socket| && rx.suite == rx.keys(rx.epoch).suite
      ensures Extends(Begin(tx.start), chunks, Delivered(received), pieces, rx.Listening(), o, socket[..n])
    {
      pieces := CallPieces(rx.suite, rx.State(), socket, a, b);
      CallTrace(Begin(tx.start), chunks, rx.Listening(), Delivered(received), socket, a, b);
      o, n := rx.Receive(socket, a, b);
    }

    method Fetch(a: Option<nat>, b: Option<nat>) returns (o: Outcome)
      requires Valid()
      modifies this, rx
      ensures Valid() && (o.More? || o.Payload?)
      ensures received == old(received) + if o.Payload? then [o.p] else []
    {
      var n;
      ghost var pieces;
      o, n, pieces := ReadSome(a, b);
      assert socket[..n] + socket[n..] == socket;
      CallInOrder(tx.start, tx.frames, tx.sent, tx.writequeue, chunks, received, pieces, rx.Listening(),
                  o, socket[..n], socket[n..]);
      chunks, socket := chunks + pieces, socket[n..];
      received := received + if o.Payload? then [o.p] else [];
    }

    /** What has come out so far, and that nothing is missing once queue and socket are empty. */
    lemma Arrived()
      requires Valid()
      ensures received <= Payloads(tx.frames)
      ensures tx.writequeue == [] && socket == [] ==> received == Payloads(tx.frames)
    {
      InOrder(tx.start, tx.frames, tx.sent, tx.writequeue, chunks, rx.Listening(), Delivered(received));
      ReceivedPrefix(received, Payloads(tx.frames));
      if tx.writequeue == [] && socket == [] {
        assert Concat(chunks) + [] == Concat(chunks);
        DeliveredInjective(received, Payloads(tx.frames));
      }
    }

    method Take(step: Step)
      requires Valid() && (step.Queue? ==> FrameOk(tx.suite, step.f))
      modifies this, tx, rx
      ensures Valid() && tx.frames == old(tx.frames) + if step.Queue? then [step.f] else []
      ensures tx.epoch == old(tx.epoch) + if step.Queue? && IsNewKeys(step.f.payload) then 1 else 0
    {
      match step
      case Queue(f) => Enqueue(f);
      case Write(n) => Flush(n);
      case Read(a, b) => var o := Fetch(a, b);
    }

    method TakeNext(steps: seq<Step>, i: nat, ghost e: nat, ghost fs: seq<Frame>)
      requires Valid() && StepsOk(tx.keys, e, steps) && i < |steps|
      requires tx.frames == fs + Queued(steps[..i]) && tx.epoch == EpochAfter(e, Queued(steps[..i]))
      modifies this, tx, rx
      ensures Valid()
      ensures tx.frames == fs + Queued(steps[..i + 1]) && tx.epoch == EpochAfter(e, Queued(steps[..i + 1]))
    {
      QueuedNext(e, fs, steps, i);
      Take(steps[i]);
    }

    /** Any schedule of sends, writes and reads, with any number of NEWKEYS among the packets: each side
        changes its keys at its own time. */
    method Run(steps: seq<Step>)
      requires Valid() && StepsOk(tx.keys, tx.epoch, steps)
      modifies this, tx, rx
      ensures Valid() && tx.frames == old(tx.frames) + Queued(steps)
      ensures tx.epoch == EpochAfter(old(tx.epoch), Queued(steps))
      ensures received <= Payloads(tx.frames)
      ensures tx.writequeue == [] && socket == [] ==> received == Payloads(tx.frames)
    {
      for i := 0 to |steps|
        invariant Valid() && tx.frames == old(tx.frames) + Queued(steps[..i])
        invariant tx.epoch == EpochAfter(old(tx.epoch), Queued(steps[..i]))
      {
        TakeNext(steps, i, old(tx.epoch), old(tx.frames));
      }
      assert steps[..|steps|] == steps;
      Arrived();
    }
  }
}
