/** Channel flow control as a state machine over values: what the receive side of
    common-channel.c does with its window and buffers, and what every step keeps. */
module FlowSpec {
  import opened Common
  import opened Digits

  /** The result of a write system call: bytes taken, EINTR/EAGAIN, or another error. */
  datatype Io = Wrote(n: nat) | Again | Error

  datatype Outcome = Delivered | Dropped | ExitAfterEof | ExitOversized | ExitWindowAssert

  const MAX_RECV_WINDOW: nat := 10 * 1024 * 1024

  /** A local descriptor (negative when closed) and the bytes buffered for it, with the bytes
      accepted from the wire and the bytes the descriptor has taken so far. */
  datatype Sink = Sink(fd: int, ring: seq<u8>, accepted: seq<u8>, written: seq<u8>, broken: bool)

  function Taken(io: Io): nat
  {
    if io.Wrote? then io.n else 0
  }

  /** One write to the descriptor of the ring followed by `more`, and how much of `more` it took. */
  function WriteSink(s: Sink, more: seq<u8>, io: Io): (Sink, nat)
    requires Taken(io) <= |s.ring| + |more|
  {
    match io
    case Error => (s.(fd := -1, broken := true), 0)
    case Again => (s, 0)
    case Wrote(n) =>
      var k := Min(|s.ring|, n);
      (s.(ring := s.ring[k..], written := s.written + (s.ring + more)[..n], accepted := s.accepted + more[..n - k]),
       n - k)
  }

  /** The receive side of a channel. `adjusts` are the window increments sent, `lost` counts the
      bytes discarded after a failed write. */
  datatype Receiver = Receiver(window: nat, recvwindow: int, recvdonelen: nat, out: Sink, err: Option<Sink>,
                               eof: bool, adjusts: seq<nat>, lost: nat)
  {
    /** The sink for normal or extended data. */
    function Select(ext: bool): Option<Sink>
    {
      if ext then err else Some(out)
    }

    function Put(ext: bool, s: Sink): Receiver
    {
      if ext then this.(err := Some(s)) else this.(out := s)
    }

    function Buffered(): nat
    {
      |out.ring| + if err.Some? then |err.value.ring| else 0
    }
  }

  /** Window adjust handling at the end of writechannel. */
  function Extend(r: Receiver): Receiver
  {
    if r.recvdonelen >= r.window / 3 then
      r.(adjusts := r.adjusts + [r.recvdonelen], recvwindow := r.recvwindow + r.recvdonelen, recvdonelen := 0)
    else r
  }

  /** writechannel: the new state and how much of `more` was consumed. */
  function WriteStep(r: Receiver, ext: bool, more: seq<u8>, io: Io): (Receiver, nat)
    requires r.Select(ext).Some? && Taken(io) <= |r.Select(ext).value.ring| + |more|
  {
    var (s, consumed) := WriteSink(r.Select(ext).value, more, io);
    (Extend(r.Put(ext, s).(recvdonelen := r.recvdonelen + Taken(io))), consumed)
  }

  /** Buffer what the descriptor did not take, or discard it when the write failed. */
  function Stash(r: Receiver, ext: bool, rest: seq<u8>): Receiver
    requires r.Select(ext).Some?
  {
    var s := r.Select(ext).value;
    if s.broken then r.(lost := r.lost + |rest|)
    else r.Put(ext, s.(ring := s.ring + rest, accepted := s.accepted + rest))
  }

  predicate Offered(r: Receiver, ext: bool, more: seq<u8>, io: Io)
  {
    r.Select(ext).Some? ==> Taken(io) <= |r.Select(ext).value.ring| + |more|
  }

  /** What common_recv_msg_channel_data does with a payload once the window is reduced. */
  function Accepted(r: Receiver, ext: bool, payload: seq<u8>, io: Io): Receiver
    requires r.Select(ext).Some? && Taken(io) <= |r.Select(ext).value.ring| + |payload|
  {
    var (r', consumed) := WriteStep(r, ext, payload, io);
    Stash(r', ext, payload[consumed..])
  }

  /** The exit or the silent drop that a payload meets before it is accepted. */
  function Refusal(r: Receiver, ext: bool, n: nat): Option<Outcome>
  {
    if r.eof then Some(ExitAfterEof)
    else if r.Select(ext).None? || r.Select(ext).value.fd < 0 then Some(Dropped)
    else if n > r.window - |r.Select(ext).value.ring| then Some(ExitOversized)
    else if r.recvwindow < n then Some(ExitWindowAssert)
    else None
  }

  /** common_recv_msg_channel_data */
  function RecvStep(r: Receiver, ext: bool, payload: seq<u8>, io: Io): (Receiver, Outcome)
    requires Offered(r, ext, payload, io)
  {
    var o := Refusal(r, ext, |payload|);
    if o.Some? then (r, o.value)
    else (Accepted(r.(recvwindow := r.recvwindow - |payload|), ext, payload, io), Delivered)
  }

  /** close_chan_fd from check_close: the descriptor goes, the buffer stays. */
  function Closed(r: Receiver, ext: bool): Receiver
    requires r.Select(ext).Some?
  {
    r.Put(ext, r.Select(ext).value.(fd := -1))
  }

  /** A channel that is already open gets a descriptor: when the command starts, the connection is made or
      the session is set up. The buffer for extended data comes with it. */
  function Attached(r: Receiver, ext: bool, fd: int): Receiver
  {
    if r.Select(ext).None? then r.Put(ext, Sink(fd, [], [], [], false))
    else r.Put(ext, r.Select(ext).value.(fd := fd))
  }

  // ------------------------------------------------------------------ invariant

  ghost predicate SinkOk(s: Sink)
  {
    && (!s.broken ==> s.accepted == s.written + s.ring)
    && (s.broken ==> s.fd < 0)
  }

  ghost predicate Unbroken(r: Receiver)
  {
    !r.out.broken && (r.err.Some? ==> !r.err.value.broken)
  }

  /** Every byte of the window is open, done, buffered, lost or in hand, and nothing is lost
      before a write fails. */
  ghost predicate Balanced(r: Receiver, inHand: nat)
  {
    && 0 < r.window <= MAX_RECV_WINDOW && r.recvwindow >= 0
    && SinkOk(r.out) && (r.err.Some? ==> SinkOk(r.err.value))
    && r.recvwindow + r.recvdonelen + r.Buffered() + r.lost + inHand == r.window
    && (Unbroken(r) ==> r.lost == 0)
  }

  function Sum(c: seq<nat>): nat
  {
    if |c| == 0 then 0 else c[0] + Sum(c[1..])
  }

  lemma {:induction false} SumAppend(c: seq<nat>, d: seq<nat>)
    ensures Sum(c + d) == Sum(c) + Sum(d)
  {
    if |c| > 0 {
      assert (c + d)[1..] == c[1..] + d;
      SumAppend(c[1..], d);
    } else {
      assert c + d == d;
    }
  }

  /** Everything that the descriptors took was handed back with a window adjust, or is less than a third of
      the window. */
  ghost predicate HandedBack(r: Receiver)
  {
    && Sum(r.adjusts) + r.recvdonelen == |r.out.written| + (if r.err.Some? then |r.err.value.written| else 0)
    && (r.recvdonelen == 0 || r.recvdonelen < r.window / 3)
  }

  ghost predicate Inv(r: Receiver)
  {
    Balanced(r, 0) && HandedBack(r)
  }

  function Opened(window: nat, writefd: int, errfd: Option<int>): Receiver
  {
    Receiver(window, window, 0, Sink(writefd, [], [], [], false),
             if errfd.Some? then Some(Sink(errfd.value, [], [], [], false)) else None, false, [], 0)
  }

  lemma OpenedInv(window: nat, writefd: int, errfd: Option<int>)
    requires 0 < window <= MAX_RECV_WINDOW
    ensures Inv(Opened(window, writefd, errfd))
  {}

  lemma WriteSinkOk(s: Sink, more: seq<u8>, io: Io)
    requires SinkOk(s) && Taken(io) <= |s.ring| + |more|
    ensures var (s', consumed) := WriteSink(s, more, io);
      && SinkOk(s') && consumed <= |more| && (s'.broken <==> s.broken || io.Error?)
      && |s'.ring| + Taken(io) == |s.ring| + consumed
      && s'.accepted == s.accepted + more[..consumed] && s.written <= s'.written
  {
    if io.Wrote? && !s.broken {
      var n, k := io.n, Min(|s.ring|, io.n);
      if n <= |s.ring| {
        assert (s.ring + more)[..n] == s.ring[..n];
        Regroup(s.written, s.ring[..n], s.ring[n..]);
        assert s.ring == s.ring[..n] + s.ring[n..];
      } else {
        assert (s.ring + more)[..n] == s.ring + more[..n - k];
        Regroup(s.written, s.ring, more[..n - k]);
      }
    }
  }

  /** A write keeps the balance, and the asserts that writechannel makes afterwards hold. */
  lemma WriteStepBalanced(r: Receiver, ext: bool, more: seq<u8>, io: Io)
    requires Balanced(r, |more|) && r.Select(ext).Some? && Taken(io) <= |r.Select(ext).value.ring| + |more|
    ensures var (r', consumed) := WriteStep(r, ext, more, io);
      && consumed <= |more| && r'.Select(ext).Some? && Balanced(r', |more| - consumed)
      && r'.recvwindow <= r'.window - |r'.out.ring|
      && (r'.err.Some? ==> r'.recvwindow <= r'.window - |r'.err.value.ring|)
  {
    var s := r.Select(ext).value;
    WriteSinkOk(s, more, io);
    var (s', consumed) := WriteSink(s, more, io);
    PutBalanced(r, ext, |more|, s', consumed, Taken(io));
    ExtendBalanced(r.Put(ext, s').(recvdonelen := r.recvdonelen + Taken(io)), |more| - consumed);
  }

  lemma PutBalanced(r: Receiver, ext: bool, more: nat, s: Sink, consumed: nat, taken: nat)
    requires Balanced(r, more) && r.Select(ext).Some? && SinkOk(s) && consumed <= more
    requires |s.ring| + taken == |r.Select(ext).value.ring| + consumed && (r.Select(ext).value.broken ==> s.broken)
    ensures Balanced(r.Put(ext, s).(recvdonelen := r.recvdonelen + taken), more - consumed)
  {}

  lemma ExtendBalanced(r: Receiver, inHand: nat)
    requires Balanced(r, inHand)
    ensures Balanced(Extend(r), inHand)
  {}

  /** A write counts what the descriptor took, and hands it back once it is a third of the window. */
  lemma WriteHandsBack(r: Receiver, ext: bool, more: seq<u8>, io: Io)
    requires HandedBack(r) && r.Select(ext).Some? && Taken(io) <= |r.Select(ext).value.ring| + |more|
    ensures HandedBack(WriteStep(r, ext, more, io).0)
  {
    var (s, _) := WriteSink(r.Select(ext).value, more, io);
    var r1 := r.Put(ext, s).(recvdonelen := r.recvdonelen + Taken(io));
    assert |s.written| == |r.Select(ext).value.written| + Taken(io);
    SumAppend(r1.adjusts, [r1.recvdonelen]);
    assert Sum([r1.recvdonelen]) == r1.recvdonelen + Sum([]);
  }

  lemma StashBalanced(r: Receiver, ext: bool, rest: seq<u8>)
    requires r.Select(ext).Some? && Balanced(r, |rest|) && HandedBack(r)
    ensures Inv(Stash(r, ext, rest))
  {
    var s := r.Select(ext).value;
    Regroup(s.written, s.ring, rest);
  }

  lemma AcceptedInv(r: Receiver, ext: bool, payload: seq<u8>, io: Io)
    requires Balanced(r, |payload|) && HandedBack(r)
    requires r.Select(ext).Some? && Taken(io) <= |r.Select(ext).value.ring| + |payload|
    ensures Inv(Accepted(r, ext, payload, io))
  {
    WriteStepBalanced(r, ext, payload, io);
    WriteHandsBack(r, ext, payload, io);
    var (r', consumed) := WriteStep(r, ext, payload, io);
    StashBalanced(r', ext, payload[consumed..]);
  }

  lemma ReducedInv(r: Receiver, ext: bool, payload: seq<u8>, io: Io, r': Receiver)
    requires Inv(r) && r.Select(ext).Some? && Taken(io) <= |r.Select(ext).value.ring| + |payload|
             && |payload| <= r.recvwindow
    requires r' == Accepted(r.(recvwindow := r.recvwindow - |payload|), ext, payload, io)
    ensures Inv(r')
  {
    var r0 := r.(recvwindow := r.recvwindow - |payload|);
    assert Balanced(r0, |payload|);
    AcceptedInv(r0, ext, payload, io);
  }

  lemma RecvStepInv(r: Receiver, ext: bool, payload: seq<u8>, io: Io)
    requires Inv(r) && Offered(r, ext, payload, io)
    ensures Inv(RecvStep(r, ext, payload, io).0)
  {
    var (r', o) := RecvStep(r, ext, payload, io);
    if o.Delivered? { ReducedInv(r, ext, payload, io, r'); } else { assert r' == r; }
  }

  lemma DrainInv(r: Receiver, ext: bool, io: Io)
    requires Inv(r) && r.Select(ext).Some? && Taken(io) <= |r.Select(ext).value.ring|
    ensures Inv(WriteStep(r, ext, [], io).0)
  {
    WriteStepBalanced(r, ext, [], io);
    WriteHandsBack(r, ext, [], io);
  }

  lemma ClosedInv(r: Receiver, ext: bool)
    requires Inv(r) && r.Select(ext).Some?
    ensures Inv(Closed(r, ext))
  {}

  lemma AttachedInv(r: Receiver, ext: bool, fd: int)
    requires Inv(r) && (r.Select(ext).Some? ==> !r.Select(ext).value.broken)
    ensures Inv(Attached(r, ext, fd))
  {}

  /** The peer stays inside its window if and only if it trips neither check; which one it trips
      otherwise depends on the room in the buffer, and the window assert comes first as long as
      there is some beyond the window. */
  lemma RefusedIffBeyondWindow(r: Receiver, ext: bool, payload: seq<u8>, io: Io)
    requires Inv(r) && Offered(r, ext, payload, io) && !r.eof
    requires r.Select(ext).Some? && r.Select(ext).value.fd >= 0
    ensures var o, room := RecvStep(r, ext, payload, io).1, r.window - |r.Select(ext).value.ring|;
      && (o.Delivered? <==> |payload| <= r.recvwindow)
      && (o.ExitWindowAssert? <==> r.recvwindow < |payload| <= room)
      && (o.ExitOversized? <==> room < |payload|)
  {}

  /** Nothing is taken after EOF, what has no descriptor is dropped, and neither changes anything. */
  lemma RefusedBefore(r: Receiver, ext: bool, payload: seq<u8>, io: Io)
    requires Offered(r, ext, payload, io)
    ensures var (r', o) := RecvStep(r, ext, payload, io);
      && (o.ExitAfterEof? <==> r.eof)
      && (o.Dropped? <==> !r.eof && (r.Select(ext).None? || r.Select(ext).value.fd < 0))
      && (!o.Delivered? ==> r' == r)
  {}

  /** A descriptor that takes everything leaves the buffer empty; until a third of the window was
      taken, a payload as long as the whole window fits the buffer and trips the assert. */
  lemma AssertReached(window: nat, fd: nat, first: seq<u8>, second: seq<u8>, io: Io)
    requires window <= MAX_RECV_WINDOW && 0 < |first| < window / 3 && window - |first| < |second| <= window
    requires Taken(io) <= |second|
    ensures var r := Opened(window, fd, None);
      && Offered(r, false, first, Wrote(|first|))
      && var (r', o) := RecvStep(r, false, first, Wrote(|first|));
         && o.Delivered? && Inv(r') && Offered(r', false, second, io)
         && RecvStep(r', false, second, io).1 == ExitWindowAssert
  {
    var r := Opened(window, fd, None);
    OpenedInv(window, fd, None);
    RecvStepInv(r, false, first, Wrote(|first|));
    assert first[|first|..] == [] && ([] + first)[..|first|] == first;
  }
}
