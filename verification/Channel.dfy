/** The receive side of a channel (common-channel.c) over its circular buffers. Each method
    computes the step that FlowSpec gives for it; the results of write() and writev() are
    parameters. */
module ChannelData {
  import opened Common
  import opened Digits
  import opened CircularBuffer
  import opened FlowSpec

  const FD_CLOSED: int := -1

  function Bytes(more: Option<seq<u8>>): seq<u8>
  {
    if more.Some? then more.value else []
  }

  /** A local descriptor with the circular buffer in front of it: writefd with writebuf, or
      errfd with extrabuf. */
  class LocalFd {
    var fd: int
    const buf: CircBuffer
    ghost var accepted: seq<u8>
    ghost var written: seq<u8>
    ghost var broken: bool

    ghost function View(): Sink
      requires buf.Valid()
      reads this, buf, buf.data
    {
      Sink(fd, buf.contents, accepted, written, broken)
    }

    constructor (fd: int, size: nat)
      requires 0 < size <= MAX_RECV_WINDOW
      ensures buf.Valid() && buf.size == size && fresh(buf) && buf.data == null
      ensures View() == Sink(fd, [], [], [], false)
    {
      this.fd := fd;
      buf := new CircBuffer(size);
      accepted, written, broken := [], [], false;
    }

    /** writechannel_writev: offers the ring followed by `more`. Without `more` (None) and with an
        empty ring there is no system call and the result is that of one that took nothing. */
    method WriteV(more: Option<seq<u8>>, io: Io) returns (ok: bool, consumed: nat, taken: nat)
      requires buf.Valid() && !broken && Taken(io) <= |buf.contents| + |Bytes(more)|
      modifies this, buf`used, buf`readpos, buf`contents
      ensures buf.Valid() && ok == !broken
      ensures var io' := if more.None? && old(buf.used) == 0 then Again else io;
        (View(), consumed) == WriteSink(old(View()), Bytes(more), io') && taken == Taken(io')
    {
      var p1, p2 := buf.ReadPtrs();
      taken, consumed, ok := 0, 0, true;
      if |p1| == 0 && |p2| == 0 && more.None? {
        return;
      }
      match io
      case Error =>
        fd, broken, ok := -1, true, false;
      case Again =>
      case Wrote(n) =>
        var fromRing := Min(|p1| + |p2|, n);
        taken, consumed := n, n - fromRing;
        written := written + (buf.contents + Bytes(more))[..n];
        accepted := accepted + Bytes(more)[..consumed];
        buf.IncrRead(fromRing);
    }

    /** writechannel_fallback: offers the first linear portion of the ring only. */
    method WriteFallback(more: Option<seq<u8>>, io: Io) returns (ok: bool, consumed: nat, taken: nat)
      requires buf.Valid() && !broken && Taken(io) <= buf.used && Taken(io) <= buf.size - buf.readpos
      modifies this, buf`used, buf`readpos, buf`contents
      ensures buf.Valid() && ok == !broken
      ensures (View(), consumed) == WriteSink(old(View()), Bytes(more), io) && taken == Taken(io)
    {
      var p1, p2 := buf.ReadPtrs();
      taken, consumed, ok := 0, 0, true;
      match io
      case Error =>
        fd, broken, ok := -1, true, false;
      case Again =>
      case Wrote(n) =>
        taken := n;
        written := written + (buf.contents + Bytes(more))[..n];
        assert accepted + Bytes(more)[..0] == accepted;
        buf.IncrRead(n);
    }

    /** What the system call can report about the bytes it was offered. */
    ghost predicate Offers(more: Option<seq<u8>>, io: Io, writev: bool)
      requires buf.Valid()
      reads this, buf, buf.data
    {
      if writev then Taken(io) <= |buf.contents| + |Bytes(more)|
      else Taken(io) <= buf.used && Taken(io) <= buf.size - buf.readpos
    }

    /** The system call result that counts: none happens without `more` and with an empty ring. */
    ghost function Actual(more: Option<seq<u8>>, io: Io, writev: bool): Io
      reads buf
    {
      if writev && more.None? && buf.used == 0 then Again else io
    }

    /** The two builds of writechannel's inner call. */
    method Write(more: Option<seq<u8>>, io: Io, writev: bool) returns (ok: bool, consumed: nat, taken: nat)
      requires buf.Valid() && !broken && Offers(more, io, writev)
      modifies this, buf`used, buf`readpos, buf`contents
      ensures buf.Valid() && ok == !broken && taken == Taken(old(Actual(more, io, writev)))
      ensures (View(), consumed) == WriteSink(old(View()), Bytes(more), old(Actual(more, io, writev)))
    {
      if writev {
        ok, consumed, taken := WriteV(more, io);
      } else {
        ok, consumed, taken := WriteFallback(more, io);
      }
    }

    /** One round of the copy loop: as much as fits linearly; what is left then fits linearly. */
    method CopyChunk(rest: seq<u8>) returns (n: nat)
      requires buf.Valid() && 0 < |rest| <= buf.Avail()
      modifies buf, buf.data
      ensures buf.Valid() && (buf.data == old(buf.data) || fresh(buf.data))
      ensures 0 < n <= |rest| && buf.contents == old(buf.contents) + rest[..n]
      ensures old(|rest| <= buf.WriteLen()) ==> n == |rest|
      ensures |rest| - n <= buf.Avail() && (n < |rest| ==> buf.WriteLen() == buf.Avail())
    {
      n := Min(buf.WriteLen(), |rest|);
      var ok := buf.Write(rest[..n]);
    }

    /** The copy loop of common_recv_msg_channel_data: at most two linear copies. */
    method CopyIn(bytes: seq<u8>) returns (ghost rounds: nat)
      requires buf.Valid() && |bytes| <= buf.Avail()
      modifies buf, buf.data
      ensures buf.Valid() && (buf.data == old(buf.data) || fresh(buf.data))
      ensures buf.contents == old(buf.contents) + bytes && rounds <= 2
    {
      var done := 0;
      ghost var ring := buf.contents;
      rounds := 0;
      while done < |bytes|
        invariant done <= |bytes| && buf.Valid() && (buf.data == old(buf.data) || fresh(buf.data))
        invariant |bytes| - done <= buf.Avail() && buf.contents == ring + bytes[..done]
        invariant rounds == 0 || (rounds == 1 && |bytes| - done <= buf.WriteLen()) || (rounds == 2 && done == |bytes|)
      {
        var n := CopyChunk(bytes[done..]);
        Regroup(ring, bytes[..done], bytes[done..][..n]);
        assert bytes[..done] + bytes[done..][..n] == bytes[..done + n];
        done, rounds := done + n, rounds + 1;
      }
      assert bytes[..done] == bytes;
    }
  }

  class Channel {
    const window: nat
    var recvwindow: int
    var recvdonelen: nat
    const out: LocalFd
    const err: LocalFd
    const hasExtra: bool
    var recvEof: bool
    var adjusts: seq<nat>
    ghost var lost: nat

    /** The buffers are valid, of the size of the window, and separate. */
    ghost predicate Separate()
      reads this, out, out.buf, out.buf.data, err, err.buf, err.buf.data
    {
      && out.buf.Valid() && out.buf.size == window && err.buf.Valid() && err.buf.size == window
      && err != out && err.buf != out.buf && (err.buf.data == null || err.buf.data != out.buf.data)
    }

    ghost function View(): Receiver
      requires Separate()
      reads this, out, out.buf, out.buf.data, err, err.buf, err.buf.data
    {
      Receiver(window, recvwindow, recvdonelen, out.View(), if hasExtra then Some(err.View()) else None,
               recvEof, adjusts, lost)
    }

    /** newchannel followed by the descriptor set-up: errfd is a writer only with an extrabuf. */
    constructor (window: nat, writefd: int, errfd: Option<int>)
      requires 0 < window <= MAX_RECV_WINDOW
      ensures Separate() && View() == Opened(window, writefd, errfd)
    {
      this.window := window;
      recvwindow, recvdonelen, recvEof, adjusts, lost := window, 0, false, [], 0;
      out := new LocalFd(writefd, window);
      err := new LocalFd(if errfd.Some? then errfd.value else FD_CLOSED, window);
      hasExtra := errfd.Some?;
    }

    /** The tail of writechannel: hand the consumed bytes back to the sender's window. */
    method ExtendWindow()
      requires Separate()
      modifies this`recvwindow, this`recvdonelen, this`adjusts
      ensures Separate() && View() == Extend(old(View()))
      ensures (recvdonelen == 0 || recvdonelen < window / 3)
              && recvwindow + recvdonelen == old(recvwindow) + old(recvdonelen)
      ensures Sum(adjusts) + recvdonelen == old(Sum(adjusts)) + old(recvdonelen)
    {
      SumAppend(adjusts, [recvdonelen]);
      if recvdonelen >= window / 3 {
        adjusts := adjusts + [recvdonelen];
        recvwindow := recvwindow + recvdonelen;
        recvdonelen := 0;
      }
    }

    /** The descriptor for normal or extended data. */
    function Target(ext: bool): LocalFd
    {
      if ext then err else out
    }

    predicate Selects(ext: bool)
    {
      ext ==> hasExtra
    }

    method WriteErr(more: Option<seq<u8>>, io: Io, writev: bool) returns (ok: bool, consumed: nat)
      requires Separate() && hasExtra && !err.broken && err.Offers(more, io, writev)
      modifies this`recvdonelen, err, err.buf`used, err.buf`readpos, err.buf`contents
      ensures Separate() && ok == !err.broken && out.View() == old(out.View())
      ensures recvdonelen == old(recvdonelen) + Taken(old(err.Actual(more, io, writev)))
      ensures (err.View(), consumed) == WriteSink(old(err.View()), Bytes(more), old(err.Actual(more, io, writev)))
    {
      var taken;
      ok, consumed, taken := err.Write(more, io, writev);
      recvdonelen := recvdonelen + taken;
    }

    method WriteOut(more: Option<seq<u8>>, io: Io, writev: bool) returns (ok: bool, consumed: nat)
      requires Separate() && !out.broken && out.Offers(more, io, writev)
      modifies this`recvdonelen, out, out.buf`used, out.buf`readpos, out.buf`contents
      ensures Separate() && ok == !out.broken && err.View() == old(err.View())
      ensures recvdonelen == old(recvdonelen) + Taken(old(out.Actual(more, io, writev)))
      ensures (out.View(), consumed) == WriteSink(old(out.View()), Bytes(more), old(out.Actual(more, io, writev)))
    {
      var taken;
      ok, consumed, taken := out.Write(more, io, writev);
      recvdonelen := recvdonelen + taken;
    }

    /** writechannel on errfd and extrabuf, up to its asserts. */
    method WriteErrAndExtend(more: Option<seq<u8>>, io: Io, writev: bool) returns (ok: bool, consumed: nat)
      requires Separate() && hasExtra && !err.broken && err.Offers(more, io, writev)
      modifies this`recvwindow, this`recvdonelen, this`adjusts, err, err.buf`used, err.buf`readpos, err.buf`contents
      ensures Separate() && ok == !err.broken
      ensures (View(), consumed) == WriteStep(old(View()), true, Bytes(more), old(err.Actual(more, io, writev)))
    {
      ok, consumed := WriteErr(more, io, writev);
      ExtendWindow();
    }

    /** writechannel on writefd and writebuf, up to its asserts. */
    method WriteOutAndExtend(more: Option<seq<u8>>, io: Io, writev: bool) returns (ok: bool, consumed: nat)
      requires Separate() && !out.broken && out.Offers(more, io, writev)
      modifies this`recvwindow, this`recvdonelen, this`adjusts, out, out.buf`used, out.buf`readpos, out.buf`contents
      ensures Separate() && ok == !out.broken
      ensures (View(), consumed) == WriteStep(old(View()), false, Bytes(more), old(out.Actual(more, io, writev)))
    {
      ok, consumed := WriteOut(more, io, writev);
      ExtendWindow();
    }

    method WriteAndExtend(ext: bool, more: Option<seq<u8>>, io: Io, writev: bool) returns (ok: bool, consumed: nat)
      requires Separate() && Selects(ext) && !Target(ext).broken && Target(ext).Offers(more, io, writev)
      modifies this`recvwindow, this`recvdonelen, this`adjusts
      modifies Target(ext), Target(ext).buf`used, Target(ext).buf`readpos, Target(ext).buf`contents
      ensures Separate() && ok == !Target(ext).broken
      ensures (View(), consumed) == WriteStep(old(View()), ext, Bytes(more), old(Target(ext).Actual(more, io, writev)))
    {
      if ext {
        ok, consumed := WriteErrAndExtend(more, io, writev);
      } else {
        ok, consumed := WriteOutAndExtend(more, io, writev);
      }
    }

    /** writechannel, with or without writev. The asserts are those of the source. */
    method WriteAndCheck(ext: bool, more: Option<seq<u8>>, io: Io, writev: bool) returns (ok: bool, consumed: nat)
      requires Separate() && Selects(ext) && !Target(ext).broken && Target(ext).Offers(more, io, writev)
      requires Balanced(View(), |Bytes(more)|)
      modifies this`recvwindow, this`recvdonelen, this`adjusts
      modifies Target(ext), Target(ext).buf`used, Target(ext).buf`readpos, Target(ext).buf`contents
      ensures Separate() && ok == !Target(ext).broken
      ensures (View(), consumed) == WriteStep(old(View()), ext, Bytes(more), old(Target(ext).Actual(more, io, writev)))
    {
      ghost var v, io' := View(), Target(ext).Actual(more, io, writev);
      WriteStepBalanced(v, ext, Bytes(more), io');
      ok, consumed := WriteAndExtend(ext, more, io, writev);
      CheckWindow(|Bytes(more)| - consumed);
    }

    /** The same with what it means for the window. */
    method WriteChannel(ext: bool, more: Option<seq<u8>>, io: Io, writev: bool) returns (ok: bool, consumed: nat)
      requires Separate() && Selects(ext) && !Target(ext).broken && Target(ext).Offers(more, io, writev)
      requires Balanced(View(), |Bytes(more)|)
      modifies this`recvwindow, this`recvdonelen, this`adjusts
      modifies Target(ext), Target(ext).buf`used, Target(ext).buf`readpos, Target(ext).buf`contents
      ensures Separate() && ok == !Target(ext).broken
      ensures (View(), consumed) == WriteStep(old(View()), ext, Bytes(more), old(Target(ext).Actual(more, io, writev)))
      ensures old(HandedBack(View())) ==> HandedBack(View())
    {
      ghost var v, io' := View(), Target(ext).Actual(more, io, writev);
      if HandedBack(v) { WriteHandsBack(v, ext, Bytes(more), io'); }
      ok, consumed := WriteAndCheck(ext, more, io, writev);
    }

    /** The asserts at the end of writechannel. */
    method CheckWindow(ghost inHand: nat)
      requires Separate() && Balanced(View(), inHand)
      ensures recvwindow <= window && recvwindow <= out.buf.Avail() && (!hasExtra || recvwindow <= err.buf.Avail())
    {
      assert recvwindow <= window;
      assert recvwindow <= out.buf.Avail();
      assert !hasExtra || recvwindow <= err.buf.Avail();
    }

    /** channelio: the descriptor became writable. */
    method DrainBuffer(ext: bool, io: Io, writev: bool)
      requires Separate() && Inv(View()) && Selects(ext) && Target(ext).fd >= 0 && Target(ext).Offers(None, io, writev)
      modifies this`recvwindow, this`recvdonelen, this`adjusts
      modifies Target(ext), Target(ext).buf`used, Target(ext).buf`readpos, Target(ext).buf`contents
      ensures Separate() && View() == WriteStep(old(View()), ext, [], old(Target(ext).Actual(None, io, writev))).0
      ensures Inv(View())
    {
      DrainInv(View(), ext, Target(ext).Actual(None, io, writev));
      var ok, consumed := WriteChannel(ext, None, io, writev);
    }

    /** Buffer what the descriptor did not take, or discard it if the write failed. */
    method Keep(ext: bool, rest: seq<u8>, ok: bool)
      requires Separate() && Selects(ext) && ok == !Target(ext).broken && |rest| <= Target(ext).buf.Avail()
      modifies this`lost, Target(ext)`accepted, Target(ext).buf, Target(ext).buf.data
      ensures Separate() && View() == Stash(old(View()), ext, rest)
    {
      var sink := Target(ext);
      if ok {
        ghost var rounds := sink.CopyIn(rest);
        sink.accepted := sink.accepted + rest;
      } else {
        lost := lost + |rest|;
      }
    }

    /** The end of common_recv_msg_channel_data, after the window was reduced. */
    method Accept(ext: bool, payload: seq<u8>, io: Io, writev: bool)
      requires Separate() && Selects(ext) && !Target(ext).broken && Target(ext).Offers(Some(payload), io, writev)
      requires Balanced(View(), |payload|)
      modifies this`recvwindow, this`recvdonelen, this`adjusts, this`lost
      modifies Target(ext), Target(ext).buf, Target(ext).buf.data
      ensures Separate()
      ensures View() == Accepted(old(View()), ext, payload, io)
    {
      WriteStepBalanced(View(), ext, payload, io);
      var res, consumed := WriteChannel(ext, Some(payload), io, writev);
      Keep(ext, payload[consumed..], res);
    }

    /** The same with the window reduced first. */
    method Consume(ext: bool, payload: seq<u8>, io: Io, writev: bool)
      requires Separate() && Balanced(View(), 0) && Selects(ext) && Target(ext).fd >= 0
               && Target(ext).Offers(Some(payload), io, writev)
      requires |payload| <= recvwindow
      modifies this`recvwindow, this`recvdonelen, this`adjusts, this`lost
      modifies Target(ext), Target(ext).buf, Target(ext).buf.data
      ensures Separate()
      ensures View() == Accepted(old(View()).(recvwindow := old(recvwindow) - |payload|), ext, payload, io)
    {
      ghost var v := View();
      recvwindow := recvwindow - |payload|;
      assert recvwindow <= window;
      assert View() == v.(recvwindow := v.recvwindow - |payload|);
      Accept(ext, payload, io, writev);
    }

    /** The checks of common_recv_msg_channel_data. */
    method Refuse(ext: bool, n: nat) returns (o: Option<Outcome>)
      requires Separate()
      ensures o == Refusal(View(), ext, n)
    {
      if recvEof { return Some(ExitAfterEof); }
      if !Selects(ext) || Target(ext).fd < 0 { return Some(Dropped); }
      if n > Target(ext).buf.Avail() { return Some(ExitOversized); }
      if recvwindow < n { return Some(ExitWindowAssert); }
      o := None;
    }

    /** What is left of common_recv_msg_channel_data after its checks. */
    method Proceed(ext: bool, payload: seq<u8>, io: Io, writev: bool)
      requires Separate() && Balanced(View(), 0) && Refusal(View(), ext, |payload|).None? && Selects(ext)
      requires Target(ext).Offers(Some(payload), io, writev)
      modifies this`recvwindow, this`recvdonelen, this`adjusts, this`lost
      modifies Target(ext), Target(ext).buf, Target(ext).buf.data
      ensures Separate() && Offered(old(View()), ext, payload, io)
      ensures View() == RecvStep(old(View()), ext, payload, io).0
    {
      Consume(ext, payload, io, writev);
    }

    /** common_recv_msg_channel_data with its payload already read. */
    method RecvData(ext: bool, payload: seq<u8>, io: Io, writev: bool) returns (o: Outcome)
      requires Separate() && Inv(View())
      requires Selects(ext) ==> Target(ext).Offers(Some(payload), io, writev)
      modifies this`recvwindow, this`recvdonelen, this`adjusts, this`lost
      modifies Target(ext), Target(ext).buf, Target(ext).buf.data
      ensures Separate() && Offered(old(View()), ext, payload, io)
      ensures (View(), o) == RecvStep(old(View()), ext, payload, io)
      ensures Inv(View())
    {
      RecvStepInv(View(), ext, payload, io);
      var refused := Refuse(ext, |payload|);
      if refused.Some? { return refused.value; }
      Proceed(ext, payload, io, writev);
      o := Delivered;
    }

    /** check_close closes the descriptor; what is buffered for it stays. */
    method CloseDescriptor(ext: bool)
      requires Separate() && Selects(ext) && Inv(View())
      modifies Target(ext)`fd
      ensures Separate() && View() == Closed(old(View()), ext) && Inv(View())
    {
      ClosedInv(View(), ext);
      Target(ext).fd := FD_CLOSED;
    }
  }
}
