/** A sending and a receiving endpoint of one channel direction, joined by FIFO wires: data and
    end-of-file one way, window adjusts the other (section 5.2 of RFC 4254). */
module FlowProtocol {
  import opened Common
  import opened Digits
  import opened FlowSpec

  const TRANS_MAX_WINDOW: nat := 500000000
  const TRANS_MAX_WIN_INCR: nat := 500000000

  datatype Message = Data(ext: bool, payload: seq<u8>) | Eof

  /** The sending side: its window, the peer's packet limit, and all it has sent. */
  datatype Sender = Sender(transwindow: int, maxpacket: nat, eof: bool, sentOut: seq<u8>, sentErr: seq<u8>)
  {
    function Sent(ext: bool): seq<u8>
    {
      if ext then sentErr else sentOut
    }
  }

  /** A data message that was taken off the wire, and whether the receiver kept it. */
  datatype Seen = Seen(ext: bool, payload: seq<u8>, kept: bool)

  /** Both ends and the two wires. `short` is by how much the sender's window fell short of the receiver's when
      the channel was opened. */
  datatype Link = Link(sender: Sender, wire: seq<Message>, credits: seq<nat>, recv: Receiver, seen: seq<Seen>,
                       exit: Option<Outcome>, short: nat)

  /** What can happen next; the arguments are the environment's choices. */
  datatype Event =
    | Send(ext: bool, bytes: seq<u8>)
    | SendEof
    | Deliver(io: Io)
    | Drain(ext: bool, io: Io)
    | Attach(ext: bool, fd: int)
    | CloseFd(ext: bool)
    | Credit

  predicate Enabled(l: Link, e: Event)
  {
    l.exit.None? &&
    match e
    case Send(ext, bytes) =>
      !l.sender.eof && 0 < |bytes| <= l.sender.transwindow && |bytes| <= l.sender.maxpacket
    case SendEof => !l.sender.eof
    case Deliver(io) =>
      |l.wire| > 0 && (l.wire[0].Data? ==> Offered(l.recv, l.wire[0].ext, l.wire[0].payload, io))
    case Drain(ext, io) =>
      && l.recv.Select(ext).Some? && l.recv.Select(ext).value.fd >= 0
      && Taken(io) <= |l.recv.Select(ext).value.ring|
    case Attach(ext, fd) =>
      fd >= 0 && (l.recv.Select(ext).Some? ==> l.recv.Select(ext).value.fd < 0 && !l.recv.Select(ext).value.broken)
    case CloseFd(ext) => l.recv.Select(ext).Some?
    case Credit => |l.credits| > 0
  }

  /** The link once the receiver has taken a data message off the wire. */
  function Received(l: Link, r: Receiver, o: Outcome): Link
    requires |l.wire| > 0 && l.wire[0].Data? && |l.recv.adjusts| <= |r.adjusts|
  {
    Link(l.sender, l.wire[1..], l.credits + r.adjusts[|l.recv.adjusts|..], r,
         l.seen + [Seen(l.wire[0].ext, l.wire[0].payload, o.Delivered?)],
         if o.Delivered? || o.Dropped? then None else Some(o), l.short)
  }

  /** send_msg_channel_data, recv_msg_channel_data, channelio, the descriptors of a command or connection,
      check_close, recv_msg_channel_window_adjust. */
  function Apply(l: Link, e: Event): Link
    requires Enabled(l, e)
  {
    match e
    case Send(ext, bytes) =>
      var s := l.sender.(transwindow := l.sender.transwindow - |bytes|);
      l.(sender := if ext then s.(sentErr := s.sentErr + bytes) else s.(sentOut := s.sentOut + bytes),
         wire := l.wire + [Data(ext, bytes)])
    case SendEof => l.(sender := l.sender.(eof := true), wire := l.wire + [Eof])
    case Deliver(io) =>
      (match l.wire[0]
       case Eof => l.(wire := l.wire[1..], recv := l.recv.(eof := true))
       case Data(ext, payload) =>
         var (r, o) := RecvStep(l.recv, ext, payload, io);
         Received(l, r, o))
    case Drain(ext, io) =>
      var r := WriteStep(l.recv, ext, [], io).0;
      l.(recv := r, credits := l.credits + r.adjusts[|l.recv.adjusts|..])
    case Attach(ext, fd) => l.(recv := Attached(l.recv, ext, fd))
    case CloseFd(ext) => l.(recv := Closed(l.recv, ext))
    case Credit =>
      var incr := Min(l.credits[0], TRANS_MAX_WIN_INCR);
      var w := l.sender.transwindow + incr;
      l.(sender := l.sender.(transwindow := if w < TRANS_MAX_WINDOW then w else TRANS_MAX_WINDOW),
         credits := l.credits[1..])
  }

  // ------------------------------------------------------------------ invariant

  function Length(m: Message): nat
  {
    if m.Data? then |m.payload| else 0
  }

  function InFlight(w: seq<Message>): nat
  {
    if |w| == 0 then 0 else Length(w[0]) + InFlight(w[1..])
  }

  /** The payload bytes of one kind still on the wire, in order. */
  function OnWire(w: seq<Message>, ext: bool): seq<u8>
  {
    if |w| == 0 then []
    else (if w[0].Data? && w[0].ext == ext then w[0].payload else []) + OnWire(w[1..], ext)
  }

  lemma {:induction false} InFlightAppend(w: seq<Message>, m: Message)
    ensures InFlight(w + [m]) == InFlight(w) + Length(m)
  {
    if |w| > 0 {
      assert (w + [m])[1..] == w[1..] + [m];
      InFlightAppend(w[1..], m);
    } else {
      assert (w + [m])[1..] == [];
    }
  }

  lemma {:induction false} OnWireAppend(w: seq<Message>, m: Message, ext: bool)
    ensures OnWire(w + [m], ext) == OnWire(w, ext) + OnWire([m], ext)
  {
    if |w| > 0 {
      assert (w + [m])[1..] == w[1..] + [m];
      OnWireAppend(w[1..], m, ext);
    } else {
      assert w + [m] == [m];
    }
  }

  /** The payload bytes of one kind that were taken off the wire, and those of them that were kept. */
  function Arrived(h: seq<Seen>, ext: bool): seq<u8>
  {
    if h == [] then []
    else Arrived(h[..|h| - 1], ext) + if h[|h| - 1].ext == ext then h[|h| - 1].payload else []
  }

  function Kept(h: seq<Seen>, ext: bool): seq<u8>
  {
    if h == [] then []
    else Kept(h[..|h| - 1], ext) + if h[|h| - 1].ext == ext && h[|h| - 1].kept then h[|h| - 1].payload else []
  }

  /** How many bytes were dropped. */
  function Missing(h: seq<Seen>): nat
  {
    if h == [] then 0 else Missing(h[..|h| - 1]) + if h[|h| - 1].kept then 0 else |h[|h| - 1].payload|
  }

  lemma MissingSnoc(h: seq<Seen>, m: Seen)
    ensures Missing(h + [m]) == Missing(h) + if m.kept then 0 else |m.payload|
  {
    assert (h + [m])[..|h|] == h;
  }

  lemma SeenSnoc(h: seq<Seen>, m: Seen, ext: bool)
    ensures Arrived(h + [m], ext) == Arrived(h, ext) + (if m.ext == ext then m.payload else [])
    ensures Kept(h + [m], ext) == Kept(h, ext) + if m.ext == ext && m.kept then m.payload else []
  {
    assert (h + [m])[..|h|] == h;
  }

  /** What a descriptor has taken, broken or not, is the first part of what was kept; as long as it is not
      broken all that was kept is written or buffered. */
  ghost predicate Holds(s: Option<Sink>, kept: seq<u8>)
  {
    if s.None? then kept == [] else if s.value.broken then s.value.written <= kept else s.value.accepted == kept
  }

  /** Everything sent was taken off the wire or is on it. */
  ghost predicate InOrder(l: Link, ext: bool)
  {
    && l.sender.Sent(ext) == Arrived(l.seen, ext) + OnWire(l.wire, ext)
    && Holds(l.recv.Select(ext), Kept(l.seen, ext))
  }

  ghost predicate EofLast(l: Link)
  {
    && (l.recv.eof ==> l.sender.eof && l.wire == [])
    && (forall i :: 0 <= i < |l.wire| && l.wire[i].Eof? ==> i == |l.wire| - 1 && l.sender.eof)
    && (l.sender.eof && !l.recv.eof ==> |l.wire| > 0 && l.wire[|l.wire| - 1].Eof?)
  }

  /** Every byte of the receiver's window is one that the sender may send, is on one of the wires, or was lost to
      the sender because it was dropped or never offered. */
  ghost predicate Windows(l: Link)
  {
    && 0 <= l.sender.transwindow
    && l.sender.transwindow + InFlight(l.wire) + Sum(l.credits) + Missing(l.seen) + l.short == l.recv.recvwindow
  }

  ghost predicate LinkInv(l: Link)
  {
    Inv(l.recv) && l.exit.None? && EofLast(l) && Windows(l) && InOrder(l, false) && InOrder(l, true)
  }

  /** Both ends right after the open handshake: the sender's window is what the receiver offered,
      possibly capped. */
  ghost predicate Initial(l: Link)
  {
    && 0 < l.recv.window <= MAX_RECV_WINDOW
    && (exists fd, errfd :: l.recv == Opened(l.recv.window, fd, errfd))
    && l.wire == [] && l.credits == [] && l.seen == [] && l.exit.None?
    && 0 <= l.sender.transwindow == l.recv.window - l.short && !l.sender.eof
    && l.sender.sentOut == [] && l.sender.sentErr == []
  }

  lemma InitialInv(l: Link)
    requires Initial(l)
    ensures LinkInv(l)
  {}

  /** How a write moves the window: exactly by the adjusts it sends. */
  lemma WriteGrants(r: Receiver, ext: bool, more: seq<u8>, io: Io)
    requires r.Select(ext).Some? && Taken(io) <= |r.Select(ext).value.ring| + |more|
    ensures var r' := WriteStep(r, ext, more, io).0;
      && |r.adjusts| <= |r'.adjusts| && r'.adjusts == r.adjusts + r'.adjusts[|r.adjusts|..]
      && r'.recvwindow == r.recvwindow + Sum(r'.adjusts[|r.adjusts|..])
      && r'.eof == r.eof && r'.window == r.window && r'.Select(!ext) == r.Select(!ext)
  {
    var r' := WriteStep(r, ext, more, io).0;
    if r'.adjusts != r.adjusts {
      assert r'.adjusts[|r.adjusts|..] == [r'.adjusts[|r.adjusts|]];
      assert Sum([r'.adjusts[|r.adjusts|]]) == r'.adjusts[|r.adjusts|] + Sum([]);
    } else {
      assert r'.adjusts[|r.adjusts|..] == [];
    }
  }

  lemma SendKeeps(l: Link, ext: bool, bytes: seq<u8>)
    requires LinkInv(l) && Enabled(l, Send(ext, bytes))
    ensures LinkInv(Apply(l, Send(ext, bytes)))
  {
    var m := Data(ext, bytes);
    InFlightAppend(l.wire, m);
    OnWireAppend(l.wire, m, false);
    OnWireAppend(l.wire, m, true);
    assert OnWire([m], ext) == bytes + OnWire([], ext) && OnWire([m], !ext) == [] + OnWire([], !ext);
    Regroup(Arrived(l.seen, ext), OnWire(l.wire, ext), bytes);
  }

  lemma SendEofKeeps(l: Link)
    requires LinkInv(l) && Enabled(l, SendEof)
    ensures LinkInv(Apply(l, SendEof))
  {
    InFlightAppend(l.wire, Eof);
    EofOnWire(l.wire, false);
    EofOnWire(l.wire, true);
  }

  lemma EofOnWire(w: seq<Message>, ext: bool)
    ensures OnWire(w + [Eof], ext) == OnWire(w, ext)
  {
    OnWireAppend(w, Eof, ext);
    assert OnWire([Eof], ext) == [] + OnWire([], ext) && OnWire(w, ext) + [] == OnWire(w, ext);
  }

  lemma AttachKeeps(l: Link, ext: bool, fd: int)
    requires LinkInv(l) && Enabled(l, Attach(ext, fd))
    ensures LinkInv(Apply(l, Attach(ext, fd)))
  {
    AttachedInv(l.recv, ext, fd);
  }

  lemma CloseKeeps(l: Link, ext: bool)
    requires LinkInv(l) && Enabled(l, CloseFd(ext))
    ensures LinkInv(Apply(l, CloseFd(ext)))
  {
    ClosedInv(l.recv, ext);
  }

  lemma CreditKeeps(l: Link)
    requires LinkInv(l) && Enabled(l, Credit)
    ensures LinkInv(Apply(l, Credit))
  {}

  lemma DrainHolds(r: Receiver, ext: bool, io: Io, kept: seq<u8>)
    requires Inv(r) && r.Select(ext).Some? && !r.Select(ext).value.broken && Taken(io) <= |r.Select(ext).value.ring|
    requires Holds(r.Select(ext), kept)
    ensures Holds(WriteStep(r, ext, [], io).0.Select(ext), kept)
  {
    WriteSinkOk(r.Select(ext).value, [], io);
    WrittenKept(r.Select(ext).value, [], io);
  }

  lemma DrainKeeps(l: Link, ext: bool, io: Io)
    requires LinkInv(l) && Enabled(l, Drain(ext, io))
    ensures LinkInv(Apply(l, Drain(ext, io)))
  {
    DrainInv(l.recv, ext, io);
    WriteGrants(l.recv, ext, [], io);
    DrainHolds(l.recv, ext, io, Kept(l.seen, ext));
    SumAppend(l.credits, WriteStep(l.recv, ext, [], io).0.adjusts[|l.recv.adjusts|..]);
  }

  /** What accepting a payload does to the window and the other stream. */
  lemma AcceptGrants(r: Receiver, ext: bool, payload: seq<u8>, io: Io)
    requires r.Select(ext).Some? && Taken(io) <= |r.Select(ext).value.ring| + |payload|
    ensures var r' := Accepted(r, ext, payload, io);
      && |r.adjusts| <= |r'.adjusts| && r'.eof == r.eof && r'.Select(!ext) == r.Select(!ext)
      && r'.recvwindow == r.recvwindow + Sum(r'.adjusts[|r.adjusts|..])
  {
    WriteGrants(r, ext, payload, io);
  }

  /** A write that fails takes nothing. */
  lemma WrittenKept(s: Sink, more: seq<u8>, io: Io)
    requires SinkOk(s) && !s.broken && Taken(io) <= |s.ring| + |more|
    ensures var s' := WriteSink(s, more, io).0; s'.broken ==> s'.written == s.written <= s.accepted
  {}

  /** And to its own stream. */
  lemma AcceptStores(r: Receiver, ext: bool, payload: seq<u8>, io: Io)
    requires r.Select(ext).Some? && SinkOk(r.Select(ext).value) && Taken(io) <= |r.Select(ext).value.ring| + |payload|
    ensures var s' := Accepted(r, ext, payload, io).Select(ext);
      && s'.Some?
      && (!s'.value.broken ==> s'.value.accepted == r.Select(ext).value.accepted + payload)
      && (s'.value.broken && !r.Select(ext).value.broken ==> s'.value.written <= r.Select(ext).value.accepted)
  {
    var s := r.Select(ext).value;
    WriteSinkOk(s, payload, io);
    if !s.broken { WrittenKept(s, payload, io); }
    var (s', consumed) := WriteSink(s, payload, io);
    assert payload == payload[..consumed] + payload[consumed..];
    Regroup(s.accepted, payload[..consumed], payload[consumed..]);
  }

  /** What accepting a payload does, seen from the wires. */
  ghost predicate Stored(r: Receiver, ext: bool, payload: seq<u8>, r': Receiver)
  {
    && Inv(r') && |r.adjusts| <= |r'.adjusts| && r'.eof == r.eof && r'.Select(!ext) == r.Select(!ext)
    && r'.recvwindow == r.recvwindow - |payload| + Sum(r'.adjusts[|r.adjusts|..])
    && r.Select(ext).Some? && r.Select(ext).value.fd >= 0 && r'.Select(ext).Some?
    && (if r'.Select(ext).value.broken then r'.Select(ext).value.written <= r.Select(ext).value.accepted
        else r'.Select(ext).value.accepted == r.Select(ext).value.accepted + payload)
  }

  lemma RecvFacts(r: Receiver, ext: bool, payload: seq<u8>, io: Io, r': Receiver)
    requires Inv(r) && Offered(r, ext, payload, io) && RecvStep(r, ext, payload, io) == (r', Outcome.Delivered)
    ensures Stored(r, ext, payload, r')
  {
    var r0 := r.(recvwindow := r.recvwindow - |payload|);
    ReducedInv(r, ext, payload, io, r');
    AcceptGrants(r0, ext, payload, io);
    AcceptStores(r0, ext, payload, io);
  }

  lemma StoredWindows(l: Link, r: Receiver)
    requires Windows(l) && |l.wire| > 0 && l.wire[0].Data? && Stored(l.recv, l.wire[0].ext, l.wire[0].payload, r)
    ensures Windows(Received(l, r, Outcome.Delivered))
  {
    SumAppend(l.credits, r.adjusts[|l.recv.adjusts|..]);
    MissingSnoc(l.seen, Seen(l.wire[0].ext, l.wire[0].payload, true));
  }

  lemma StoredKeeps(l: Link, r: Receiver)
    requires LinkInv(l) && |l.wire| > 0 && l.wire[0].Data? && Stored(l.recv, l.wire[0].ext, l.wire[0].payload, r)
    ensures LinkInv(Received(l, r, Outcome.Delivered))
  {
    StoredWindows(l, r);
    SeenInOrder(l, r, Outcome.Delivered, l.wire[0].ext);
    SeenInOrder(l, r, Outcome.Delivered, !l.wire[0].ext);
  }

  /** A message moves from the wire to what was seen. */
  lemma SeenInOrder(l: Link, r: Receiver, o: Outcome, ext: bool)
    requires |l.wire| > 0 && l.wire[0].Data? && |l.recv.adjusts| <= |r.adjusts| && InOrder(l, ext)
    requires Holds(r.Select(ext),
                   Kept(l.seen, ext) + if l.wire[0].ext == ext && o.Delivered? then l.wire[0].payload else [])
    ensures InOrder(Received(l, r, o), ext)
  {
    SeenSnoc(l.seen, Seen(l.wire[0].ext, l.wire[0].payload, o.Delivered?), ext);
    var p := if l.wire[0].ext == ext then l.wire[0].payload else [];
    Regroup(Arrived(l.seen, ext), p, OnWire(l.wire[1..], ext));
  }

  lemma DeliveredKeeps(l: Link, io: Io)
    requires LinkInv(l) && Enabled(l, Deliver(io)) && l.wire[0].Data?
    requires RecvStep(l.recv, l.wire[0].ext, l.wire[0].payload, io).1.Delivered?
    ensures LinkInv(Apply(l, Deliver(io)))
  {
    var ext, payload := l.wire[0].ext, l.wire[0].payload;
    var (r, o) := RecvStep(l.recv, ext, payload, io);
    RecvFacts(l.recv, ext, payload, io, r);
    StoredKeeps(l, r);
  }

  lemma DroppedKeeps(l: Link, io: Io)
    requires LinkInv(l) && Enabled(l, Deliver(io)) && l.wire[0].Data?
    requires RecvStep(l.recv, l.wire[0].ext, l.wire[0].payload, io).1.Dropped?
    ensures LinkInv(Apply(l, Deliver(io)))
  {
    assert l.credits + l.recv.adjusts[|l.recv.adjusts|..] == l.credits;
    assert Kept(l.seen, false) + [] == Kept(l.seen, false) && Kept(l.seen, true) + [] == Kept(l.seen, true);
    MissingSnoc(l.seen, Seen(l.wire[0].ext, l.wire[0].payload, false));
    SeenInOrder(l, l.recv, Dropped, false);
    SeenInOrder(l, l.recv, Dropped, true);
  }

  lemma DeliverKeeps(l: Link, io: Io)
    requires LinkInv(l) && Enabled(l, Deliver(io))
    ensures LinkInv(Apply(l, Deliver(io)))
  {
    if l.wire[0].Data? {
      // inside its window a sender is never refused
      if RecvStep(l.recv, l.wire[0].ext, l.wire[0].payload, io).1.Dropped? {
        DroppedKeeps(l, io);
      } else {
        DeliveredKeeps(l, io);
      }
    } else {
      assert l.wire[1..] == [];
    }
  }

  /** Run events in order; one that is not enabled does not happen. */
  function Run(l: Link, events: seq<Event>): Link
  {
    if |events| == 0 then l
    else
      var before := Run(l, events[..|events| - 1]);
      var e := events[|events| - 1];
      if Enabled(before, e) then Apply(before, e) else before
  }

  lemma StepKeeps(l: Link, e: Event)
    requires LinkInv(l) && Enabled(l, e)
    ensures LinkInv(Apply(l, e))
  {
    match e
    case Send(ext, bytes) => SendKeeps(l, ext, bytes);
    case SendEof => SendEofKeeps(l);
    case Deliver(io) => DeliverKeeps(l, io);
    case Drain(ext, io) => DrainKeeps(l, ext, io);
    case Attach(ext, fd) => AttachKeeps(l, ext, fd);
    case CloseFd(ext) => CloseKeeps(l, ext);
    case Credit => CreditKeeps(l);
  }

  /** In every run from an open channel neither check nor assert of the receiver fires, the sender's
      window stays inside the receiver's, and the bytes of each kind stay in order. */
  lemma {:induction false} RunSafe(l: Link, events: seq<Event>)
    requires Initial(l)
    ensures LinkInv(Run(l, events))
  {
    if |events| == 0 {
      InitialInv(l);
    } else {
      var before, e := Run(l, events[..|events| - 1]), events[|events| - 1];
      RunSafe(l, events[..|events| - 1]);
      if Enabled(before, e) { StepKeeps(before, e); }
    }
  }

  // ------------------------------------------------------------------ what the descriptor gets

  predicate NoneDropped(h: seq<Seen>, ext: bool)
  {
    forall i :: 0 <= i < |h| && h[i].ext == ext ==> h[i].kept
  }

  /** Nothing was kept after something was dropped. */
  ghost predicate Tidy(h: seq<Seen>, ext: bool)
  {
    forall i, j :: 0 <= i < j < |h| && h[i].ext == h[j].ext == ext && h[j].kept ==> h[i].kept
  }

  lemma {:induction false} KeptAll(h: seq<Seen>, ext: bool)
    requires forall i :: 0 <= i < |h| ==> |h[i].payload| > 0
    ensures |Kept(h, ext)| <= |Arrived(h, ext)|
    ensures NoneDropped(h, ext) <==> Kept(h, ext) == Arrived(h, ext)
  {
    if h != [] {
      var init, last := h[..|h| - 1], h[|h| - 1];
      KeptAll(init, ext);
      assert NoneDropped(h, ext) <==> NoneDropped(init, ext) && (last.ext == ext ==> last.kept) by {
        assert h == init + [last];
      }
      if last.ext != ext {
        SameTail(Kept(init, ext), Arrived(init, ext), []);
      } else if last.kept {
        SameTail(Kept(init, ext), Arrived(init, ext), last.payload);
      } else {
        assert |Kept(h, ext)| == |Kept(init, ext)| < |Arrived(h, ext)|;
      }
    }
  }

  lemma SameTail(a: seq<u8>, b: seq<u8>, c: seq<u8>)
    ensures a + c == b + c <==> a == b
    ensures c == [] ==> a + c == a && b + c == b
  {
    if a + c == b + c { assert |a| == |b| && a == (a + c)[..|a|] && b == (b + c)[..|a|]; }
  }

  lemma {:induction false} TidyPrefix(h: seq<Seen>, ext: bool)
    requires Tidy(h, ext) && forall i :: 0 <= i < |h| ==> |h[i].payload| > 0
    ensures Kept(h, ext) <= Arrived(h, ext)
  {
    if h != [] {
      var init, last := h[..|h| - 1], h[|h| - 1];
      if last.ext == ext && last.kept {
        assert NoneDropped(init, ext);
        KeptAll(init, ext);
      } else {
        TidyPrefix(init, ext);
      }
    }
  }

  /** Every data message has bytes in it, and no more than the receiver's packet limit. */
  ghost predicate Nonempty(l: Link)
  {
    && (forall i :: 0 <= i < |l.wire| && l.wire[i].Data? ==> 0 < |l.wire[i].payload| <= l.sender.maxpacket)
    && (forall i :: 0 <= i < |l.seen| ==> 0 < |l.seen[i].payload| <= l.sender.maxpacket)
  }

  lemma StepNonempty(l: Link, e: Event)
    requires Nonempty(l) && Enabled(l, e)
    ensures Nonempty(Apply(l, e))
  {
    match e
    case Deliver(io) => if l.wire[0].Data? { assert |l.wire[0].payload| > 0; }
    case _ =>
  }

  lemma {:induction false} RunNonempty(l: Link, events: seq<Event>)
    requires Initial(l)
    ensures Nonempty(Run(l, events))
  {
    if |events| > 0 {
      var before, e := Run(l, events[..|events| - 1]), events[|events| - 1];
      RunNonempty(l, events[..|events| - 1]);
      if Enabled(before, e) { StepNonempty(before, e); }
    }
  }

  /** In every run, what the descriptor has taken is the first part of what was kept, and as long as no
      write fails nothing of what was sent is missing if and only if no message was dropped. */
  lemma DeliveredKept(l: Link, events: seq<Event>, ext: bool)
    requires Initial(l)
    ensures var l' := Run(l, events); var s := l'.recv.Select(ext);
      && l'.exit.None? && 0 <= l'.sender.transwindow <= l'.recv.recvwindow
      && (s.Some? ==> s.value.written <= Kept(l'.seen, ext))
      && (s.Some? && !s.value.broken ==>
            (l'.sender.Sent(ext) == s.value.written + s.value.ring + OnWire(l'.wire, ext)
             <==> NoneDropped(l'.seen, ext)))
  {
    var l' := Run(l, events);
    RunSafe(l, events);
    RunNonempty(l, events);
    KeptAll(l'.seen, ext);
    var s := l'.recv.Select(ext);
    if s.Some? && !s.value.broken { SameTail(s.value.accepted, Arrived(l'.seen, ext), OnWire(l'.wire, ext)); }
  }

  lemma {:induction false} MissingNone(h: seq<Seen>)
    requires NoneDropped(h, false) && NoneDropped(h, true)
    ensures Missing(h) == 0
  {
    if h != [] { MissingNone(h[..|h| - 1]); }
  }

  lemma RecvKeepsWindow(r: Receiver, ext: bool, payload: seq<u8>, io: Io)
    requires Offered(r, ext, payload, io)
    ensures RecvStep(r, ext, payload, io).0.window == r.window
  {}

  lemma StepConstant(l: Link, e: Event)
    requires Enabled(l, e)
    ensures Apply(l, e).short == l.short && Apply(l, e).recv.window == l.recv.window
  {
    if e.Deliver? && l.wire[0].Data? { RecvKeepsWindow(l.recv, l.wire[0].ext, l.wire[0].payload, e.io); }
  }

  lemma {:induction false} ShortConstant(l: Link, events: seq<Event>)
    ensures Run(l, events).short == l.short && Run(l, events).recv.window == l.recv.window
  {
    if |events| > 0 {
      var before, e := Run(l, events[..|events| - 1]), events[|events| - 1];
      ShortConstant(l, events[..|events| - 1]);
      if Enabled(before, e) { StepConstant(before, e); }
    }
  }

  /** Nothing is on a wire or in a buffer. */
  predicate Quiet(l: Link)
  {
    l.wire == [] && l.credits == [] && l.recv.Buffered() == 0
  }

  /** The channel does not stall: in every run in which no write fails and nothing is dropped, once everything
      has arrived and was taken, the sender may send more than two thirds of the window it was given. */
  lemma NoStall(l: Link, events: seq<Event>)
    requires Initial(l) && Quiet(Run(l, events)) && Unbroken(Run(l, events).recv)
    requires NoneDropped(Run(l, events).seen, false) && NoneDropped(Run(l, events).seen, true)
    ensures var l' := Run(l, events);
      && l'.sender.transwindow + l.short + l'.recv.recvdonelen == l.recv.window
      && 3 * (l'.sender.transwindow + l.short) >= 2 * l.recv.window
      && (l.short == 0 ==> l'.sender.transwindow > 0)
  {
    RunSafe(l, events);
    MissingNone(Run(l, events).seen);
    ShortConstant(l, events);
  }

  /** Every descriptor of the run is attached before a message for it is dropped. */
  predicate Prompt(l: Link, events: seq<Event>)
  {
    |events| == 0 ||
    (Prompt(l, events[..|events| - 1]) &&
     var before, e := Run(l, events[..|events| - 1]), events[|events| - 1];
     e.Attach? && Enabled(before, e) ==> NoneDropped(before.seen, e.ext))
  }

  /** Only a message without a descriptor is dropped. */
  ghost predicate Attentive(l: Link, ext: bool)
  {
    var s := l.recv.Select(ext);
    Tidy(l.seen, ext) && (s.Some? && s.value.fd >= 0 ==> NoneDropped(l.seen, ext))
  }

  /** Neither a write nor a payload opens a descriptor. */
  lemma WriteOpens(r: Receiver, ext: bool, more: seq<u8>, io: Io, e: bool)
    requires r.Select(ext).Some? && Taken(io) <= |r.Select(ext).value.ring| + |more|
    ensures var r' := WriteStep(r, ext, more, io).0;
      r'.Select(e).Some? && r'.Select(e).value.fd >= 0 ==> r.Select(e).Some? && r.Select(e).value.fd >= 0
  {}

  lemma RecvOpens(r: Receiver, ext: bool, payload: seq<u8>, io: Io, e: bool)
    requires Offered(r, ext, payload, io)
    ensures var r' := RecvStep(r, ext, payload, io).0;
      r'.Select(e).Some? && r'.Select(e).value.fd >= 0 ==> r.Select(e).Some? && r.Select(e).value.fd >= 0
  {
    if Refusal(r, ext, |payload|).None? { WriteOpens(r.(recvwindow := r.recvwindow - |payload|), ext, payload, io, e); }
  }

  lemma DeliverOpens(l: Link, io: Io, ext: bool)
    requires LinkInv(l) && Enabled(l, Deliver(io)) && l.wire[0].Data?
    ensures var l' := Apply(l, Deliver(io)); var s, s' := l.recv.Select(ext), l'.recv.Select(ext);
      && (s'.Some? && s'.value.fd >= 0 ==> s.Some? && s.value.fd >= 0)
      && |l'.seen| == |l.seen| + 1 && l.seen <= l'.seen
      && (l'.seen[|l.seen|].ext == ext ==> (l'.seen[|l.seen|].kept <==> s.Some? && s.value.fd >= 0))
  {
    DeliverKeeps(l, io);
    RecvOpens(l.recv, l.wire[0].ext, l.wire[0].payload, io, ext);
  }

  /** The descriptor of a stream is opened by Attach only. */
  lemma StepOpens(l: Link, ev: Event, ext: bool)
    requires LinkInv(l) && Enabled(l, ev)
    ensures var l' := Apply(l, ev); var s, s' := l.recv.Select(ext), l'.recv.Select(ext);
      && (s'.Some? && s'.value.fd >= 0 ==> ev == Attach(ext, s'.value.fd) || (s.Some? && s.value.fd >= 0))
      && l.seen <= l'.seen && |l'.seen| <= |l.seen| + 1
      && (|l.seen| < |l'.seen| && l'.seen[|l.seen|].ext == ext
          ==> (l'.seen[|l.seen|].kept <==> s.Some? && s.value.fd >= 0))
  {
    match ev
    case Deliver(io) => if l.wire[0].Data? { DeliverOpens(l, io, ext); }
    case Drain(e, io) => WriteOpens(l.recv, e, [], io, ext);
    case _ =>
  }

  lemma StepAttentive(l: Link, ev: Event, ext: bool)
    requires LinkInv(l) && Enabled(l, ev) && Attentive(l, ext)
    requires ev.Attach? && ev.ext == ext ==> NoneDropped(l.seen, ext)
    ensures Attentive(Apply(l, ev), ext)
  {
    StepOpens(l, ev, ext);
  }

  lemma {:induction false} RunAttentive(l: Link, events: seq<Event>, ext: bool)
    requires Initial(l) && Prompt(l, events)
    ensures Attentive(Run(l, events), ext)
  {
    if |events| > 0 {
      var before, e := Run(l, events[..|events| - 1]), events[|events| - 1];
      RunAttentive(l, events[..|events| - 1], ext);
      RunSafe(l, events[..|events| - 1]);
      if Enabled(before, e) { StepAttentive(before, e, ext); }
    }
  }

  /** When descriptors are attached in time, what they have taken is a prefix of what was sent. */
  lemma DeliveredPrefix(l: Link, events: seq<Event>, ext: bool)
    requires Initial(l) && Prompt(l, events)
    ensures var l' := Run(l, events);
      l'.recv.Select(ext).Some? ==> l'.recv.Select(ext).value.written <= l'.sender.Sent(ext)
  {
    DeliveredKept(l, events, ext);
    RunSafe(l, events);
    RunNonempty(l, events);
    RunAttentive(l, events, ext);
    TidyPrefix(Run(l, events).seen, ext);
  }

  lemma RunSnoc(l: Link, events: seq<Event>, e: Event)
    requires Enabled(Run(l, events), e)
    ensures Run(l, events + [e]) == Apply(Run(l, events), e)
  {
    assert (events + [e])[..|events|] == events;
  }

  /** The first payload that a descriptor takes whole. */
  lemma FirstTaken(r: Receiver, bytes: seq<u8>)
    requires r.out == Sink(r.out.fd, [], [], [], false) && r.out.fd >= 0 && !r.eof
    requires |bytes| <= r.recvwindow <= r.window && r.recvdonelen + |bytes| < r.window / 3
    ensures var (r', o) := RecvStep(r, false, bytes, Wrote(|bytes|));
      o.Delivered? && r'.adjusts == r.adjusts && r'.out.written == bytes && r'.recvwindow == r.recvwindow - |bytes|
  {
    assert ([] + bytes)[..|bytes|] == bytes && bytes[|bytes|..] == [] && [] + bytes == bytes;
  }

  /** The run of a session channel in which data comes before its command: it is dropped in silence, the
      window that it used does not come back, and what the command reads is no prefix of what was sent. */
  lemma LateAttach(l: Link, fd: nat, first: seq<u8>, second: seq<u8>) returns (events: seq<Event>)
    requires Initial(l) && l.recv == Opened(l.recv.window, -2, None)
    requires 0 < |first| <= l.sender.maxpacket && 0 < |second| <= l.sender.maxpacket && first[0] != second[0]
    requires |first| + |second| <= l.sender.transwindow && |second| < l.recv.window / 3
    ensures var l' := Run(l, events);
      && l'.sender.sentOut == first + second && l'.recv.out.written == second && l'.wire == [] && l'.credits == []
      && !(l'.recv.out.written <= l'.sender.sentOut)
      && l'.sender.transwindow + |first| <= l'.recv.recvwindow
  {
    var l1 := Arrival(l, [], first, Wrote(0), l.recv);
    events := [] + [Send(false, first)] + [Deliver(Wrote(0))];
    assert l1.recv == l.recv;
    RunSnoc(l, events, Attach(false, fd));
    events := events + [Attach(false, fd)];
    var r := Run(l, events).recv;
    FirstTaken(r, second);
    var l3 := Arrival(l, events, second, Wrote(|second|), RecvStep(r, false, second, Wrote(|second|)).0);
    events := events + [Send(false, second)] + [Deliver(Wrote(|second|))];
    assert [] + first == first && (first + second)[0] == first[0];
  }

  /** Data that is sent over an empty wire and arrives. */
  lemma Arrival(l: Link, events: seq<Event>, bytes: seq<u8>, io: Io, r: Receiver) returns (l': Link)
    requires var b := Run(l, events);
      && b.wire == [] && Enabled(b, Send(false, bytes)) && Offered(b.recv, false, bytes, io)
      && r == RecvStep(b.recv, false, bytes, io).0 && r.adjusts == b.recv.adjusts
    ensures l' == Run(l, events + [Send(false, bytes)] + [Deliver(io)])
    ensures var b := Run(l, events); var o := RecvStep(b.recv, false, bytes, io).1;
      && l'.sender.transwindow == b.sender.transwindow - |bytes| && l'.sender.sentOut == b.sender.sentOut + bytes
      && l'.sender.maxpacket == b.sender.maxpacket && l'.sender.eof == b.sender.eof
      && l'.wire == [] && l'.credits == b.credits && l'.recv == r
      && (o.Delivered? || o.Dropped? ==> l'.exit.None?)
  {
    var b := Run(l, events);
    RunSnoc(l, events, Send(false, bytes));
    var c := Run(l, events + [Send(false, bytes)]);
    assert c.wire == [] + [Data(false, bytes)] == [Data(false, bytes)];
    RunSnoc(l, events + [Send(false, bytes)], Deliver(io));
    l' := Run(l, events + [Send(false, bytes)] + [Deliver(io)]);
    assert r.adjusts[|b.recv.adjusts|..] == [] && b.credits + [] == b.credits;
  }
}
