/** End-of-file and close of one channel (common-channel.c): which messages leave in which order,
    over every run of attachments, local reads and writes, incoming messages and close checks, and
    exactly when the assert of send_msg_channel_data can fail. */
module ChannelClose {
  const FD_UNINIT: int := -2
  const FD_CLOSED: int := -1

  /** The messages about the channel that this side sends. */
  datatype Msg = Data | ExtData | Adjust | Eof | Close

  /** How much of a descriptor to close: SHUT_RD, SHUT_WR or SHUT_RDWR. */
  datatype How = Rd | Wr | RdWr

  /** The result of reading a local descriptor: bytes, end of file or an error, or EINTR (or bytes that
      the read mangler swallowed). */
  datatype ReadResult = Bytes | Ended | Interrupted

  /** What a close check asks of the rest of the program: whether the channel type has a check of its
      own and what it says, flushing, descriptors with input left, and output left in the buffers. */
  datatype Env = Env(typed: bool, typeAllows: bool, flushing: bool, readPending: bool, errPending: bool,
                     writeUsed: bool, extraUsed: bool)

  /** The descriptors; `extra` is whether there is an extrabuf, which makes err one to write to. */
  datatype Fds = Fds(read: int, write: int, err: int, bidir: bool, extra: bool)

  /** `failed` is whether the assert of send_msg_channel_data has ended the program. */
  datatype Chan = Chan(fds: Fds, sentEof: bool, sentClose: bool, recvEof: bool, recvClose: bool, removed: bool,
                       failed: bool, log: seq<Msg>)

  // ------------------------------------------------------------------ the code, over values

  function Shut(on: bool, fd: int, x: int): int
  {
    if on && fd == x then FD_CLOSED else x
  }

  /** close_chan_fd */
  function CloseFd(f: Fds, fd: int, how: How): Fds
  {
    var closein, closeout := !f.bidir || !how.Rd?, !f.bidir || how.Rd?;
    Fds(Shut(closeout, fd, f.read), Shut(closein, fd, f.write), Shut(if f.extra then closein else closeout, fd, f.err),
        f.bidir, f.extra)
  }

  /** The descriptors after send_msg_channel_close. */
  function CloseAll(f: Fds): Fds
  {
    var f1 := CloseFd(f, f.read, Rd);
    var f2 := CloseFd(f1, f1.err, RdWr);
    CloseFd(f2, f2.write, Wr)
  }

  /** send_msg_channel_close */
  function SendClose(c: Chan): Chan
  {
    c.(log := c.log + [Close], sentEof := true, sentClose := true, fds := CloseAll(c.fds))
  }

  /** send_msg_channel_eof */
  function SendEof(c: Chan): Chan
  {
    c.(log := c.log + [Eof], sentEof := true)
  }

  predicate WritePending(f: Fds, env: Env)
  {
    (f.write >= 0 && env.writeUsed) || (f.err >= 0 && f.extra && env.extraUsed)
  }

  /** Nothing is left to read from. */
  predicate NoInput(f: Fds)
  {
    f.read == FD_CLOSED && (f.extra || f.err == FD_CLOSED)
  }

  predicate CloseAllowed(c: Chan, env: Env)
  {
    !env.typed || c.sentClose || env.typeAllows
  }

  /** The descriptors that check_close closes when the process has gone. */
  function FlushFds(f: Fds, env: Env): Fds
  {
    if !env.flushing then f
    else
      var f1 := if f.read >= 0 && !env.readPending then CloseFd(f, f.read, Rd) else f;
      if !f1.extra && f1.err >= 0 && !env.errPending then CloseFd(f1, f1.err, Rd) else f1
  }

  /** check_close */
  function CheckClose(c: Chan, env: Env): Chan
  {
    var c0, allowed := c.(fds := FlushFds(c.fds, env)), CloseAllowed(c, env);
    if c0.recvClose && !WritePending(c0.fds, env) && allowed then
      (if c0.sentClose then c0 else SendClose(c0)).(removed := true)
    else MaybeClose(MaybeEof(MaybeShut(c0, env, allowed)), env, allowed)
  }

  function MaybeShut(c: Chan, env: Env, allowed: bool): Chan
  {
    if (c.recvEof && !WritePending(c.fds, env)) || (env.typed && allowed) then
      c.(fds := CloseFd(c.fds, c.fds.write, Wr))
    else c
  }

  function MaybeEof(c: Chan): Chan
  {
    if !c.sentEof && NoInput(c.fds) then SendEof(c) else c
  }

  function MaybeClose(c: Chan, env: Env, allowed: bool): Chan
  {
    if NoInput(c.fds) && c.fds.write == FD_CLOSED && !c.sentClose && allowed && !WritePending(c.fds, env) then
      SendClose(c)
    else c
  }

  /** send_msg_channel_data on a descriptor that is open; it asserts that CLOSE was not sent. */
  function SendData(c: Chan, ext: bool, r: ReadResult): Chan
  {
    if c.sentClose then c.(failed := true) else ReadLocal(c, ext, r)
  }

  function ReadLocal(c: Chan, ext: bool, r: ReadResult): Chan
  {
    match r
    case Bytes => c.(log := c.log + [if ext then ExtData else Data])
    case Ended => c.(fds := CloseFd(c.fds, if ext then c.fds.err else c.fds.read, Rd))
    case Interrupted => c
  }

  /** writechannel on a descriptor that is open: it may fail, or free enough window to say so. */
  function WriteOut(c: Chan, ext: bool, failed: bool, adjust: bool): Chan
  {
    c.(fds := if failed then CloseFd(c.fds, if ext then c.fds.err else c.fds.write, Wr) else c.fds,
       log := if adjust then c.log + [Adjust] else c.log)
  }

  /** newchannel */
  function Opened(): Chan
  {
    Chan(Fds(FD_UNINIT, FD_UNINIT, FD_CLOSED, false, false), false, false, false, false, false, false, [])
  }

  // ------------------------------------------------------------------ runs

  /** Attach gives the channel its descriptors, whatever happened to it before: neither sessioncommand
      nor channel_connect_done nor cli_init_stdpipe_sess looks. Local and Drain are the reads and writes
      of channelio, and Drain is also what incoming channel data causes. */
  datatype Event =
    | Attach(fds: Fds)
    | Local(ext: bool, r: ReadResult)
    | Drain(ext: bool, failed: bool, adjust: bool)
    | Check(env: Env)
    | GotEof(env: Env)
    | GotClose(env: Env)

  /** Descriptors that some channel type attaches: a socket or terminal stands for reading and writing,
      and no channel type gives such a channel a separate descriptor to read errors from. */
  predicate Attachable(f: Fds)
  {
    f.read >= 0 && f.write >= 0 && f.err >= FD_CLOSED && (f.bidir ==> f.err == FD_CLOSED || f.extra)
  }

  /** When the code takes the step. */
  predicate Enabled(c: Chan, ev: Event)
  {
    && !c.removed && !c.failed
    && match ev
       case Attach(f) => Attachable(f)
       case Local(ext, _) => if ext then !c.fds.extra && c.fds.err >= 0 else c.fds.read >= 0
       case Drain(ext, _, _) => if ext then c.fds.extra && c.fds.err >= 0 else c.fds.write >= 0
       case _ => true
  }

  function Apply(c: Chan, ev: Event): Chan
  {
    match ev
    case Attach(fds) => c.(fds := fds)
    case Local(ext, r) => SendData(c, ext, r)
    case Drain(ext, failed, adjust) => WriteOut(c, ext, failed, adjust)
    case Check(env) => CheckClose(c, env)
    case GotEof(env) => CheckClose(c.(recvEof := true), env)
    case GotClose(env) => CheckClose(c.(recvEof := true, recvClose := true), env)
  }

  predicate Runs(c: Chan, evs: seq<Event>)
    decreases |evs|
  {
    evs == [] || (Enabled(c, evs[0]) && Runs(Apply(c, evs[0]), evs[1..]))
  }

  function After(c: Chan, evs: seq<Event>): Chan
    requires Runs(c, evs)
    decreases |evs|
  {
    if evs == [] then c else After(Apply(c, evs[0]), evs[1..])
  }

  // ------------------------------------------------------------------ invariant

  /** Until when descriptors are attached in a run. */
  datatype Discipline = AnyTime | BeforeClose | BeforeEof

  predicate Permits(d: Discipline, c: Chan)
  {
    (d.BeforeClose? ==> !c.sentClose) && (d.BeforeEof? ==> !c.sentEof)
  }

  /** Every attachment of the run happens in time. */
  predicate Timely(d: Discipline, c: Chan, evs: seq<Event>)
    requires Runs(c, evs)
    decreases |evs|
  {
    evs == [] || ((evs[0].Attach? ==> Permits(d, c)) && Timely(d, Apply(c, evs[0]), evs[1..]))
  }

  /** Where the messages sent so far leave the channel. */
  datatype Stage = Open | Finished | Closed | Wrong

  /** With attachments after EOF there may be data after EOF, and with attachments after CLOSE window
      adjustments after CLOSE. */
  function Next(d: Discipline, s: Stage, m: Msg): Stage
  {
    match s
    case Open => if m.Eof? then Finished else if m.Close? then Closed else Open
    case Finished =>
      if m.Adjust? then Finished else if m.Close? then Closed else if m.Eof? || d.BeforeEof? then Wrong else Finished
    case Closed => if m.Adjust? && d.AnyTime? then Closed else Wrong
    case Wrong => Wrong
  }

  function StageOf(d: Discipline, log: seq<Msg>): Stage
  {
    if log == [] then Open else Next(d, StageOf(d, log[..|log| - 1]), log[|log| - 1])
  }

  lemma StageSnoc(d: Discipline, log: seq<Msg>, m: Msg)
    ensures StageOf(d, log + [m]) == Next(d, StageOf(d, log), m)
  {
    assert (log + [m])[..|log|] == log;
  }

  predicate AllClosed(f: Fds)
  {
    f.read == f.write == f.err == FD_CLOSED
  }

  /** The flags tell the stage, and what may no longer be sent has no open descriptor behind it. */
  predicate Inv(d: Discipline, c: Chan)
  {
    && StageOf(d, c.log) == (if c.sentClose then Closed else if c.sentEof then Finished else Open)
    && (c.sentClose ==> c.sentEof)
    && (c.fds.bidir ==> c.fds.err == FD_CLOSED || c.fds.extra)
    && (c.removed ==> c.sentClose && c.recvClose)
    && (!d.AnyTime? ==> !c.failed && (c.sentClose ==> AllClosed(c.fds)))
    && (d.BeforeEof? && c.sentEof ==> NoInput(c.fds))
  }

  /** No descriptor was opened or exchanged for another. */
  predicate OnlyClosed(f: Fds, f': Fds)
  {
    && f'.bidir == f.bidir && f'.extra == f.extra && (f'.read == f.read || f'.read == FD_CLOSED)
    && (f'.write == f.write || f'.write == FD_CLOSED) && (f'.err == f.err || f'.err == FD_CLOSED)
  }

  lemma CloseFdCloses(f: Fds, fd: int, how: How)
    ensures OnlyClosed(f, CloseFd(f, fd, how))
  {}

  /** The slots that read from the descriptor, or write to it: a pipe closes both, shutting a socket for
      reading leaves the writing side, and shutting it for writing the reading side. */
  lemma CloseFdExact(f: Fds, fd: int, how: How)
    ensures var g, reading, writing := CloseFd(f, fd, how), !f.bidir || how == Rd, !f.bidir || how != Rd;
      && g.bidir == f.bidir && g.extra == f.extra
      && g.read == (if f.read == fd && reading then FD_CLOSED else f.read)
      && g.write == (if f.write == fd && writing then FD_CLOSED else f.write)
      && (f.extra ==> g.err == if f.err == fd && writing then FD_CLOSED else f.err)
      && (!f.extra ==> g.err == if f.err == fd && reading then FD_CLOSED else f.err)
  {}

  lemma FlushFdsCloses(f: Fds, env: Env)
    ensures OnlyClosed(f, FlushFds(f, env))
  {}

  lemma ClosingInv(d: Discipline, c: Chan, f: Fds)
    requires Inv(d, c) && OnlyClosed(c.fds, f)
    ensures Inv(d, c.(fds := f))
  {}

  /** send_msg_channel_close leaves no descriptor open, unless there is a socket and a separate
      descriptor to read errors from: closing that one as SHUT_RDWR does not count as closing its input. */
  lemma SendCloseClosesAll(f: Fds)
    ensures var f' := CloseAll(f);
      && OnlyClosed(f, f') && f'.read == f'.write == FD_CLOSED
      && (f'.err == FD_CLOSED <==> !(f.bidir && !f.extra && f.err != FD_CLOSED && f.err != f.read))
  {}

  lemma SendCloseInv(d: Discipline, c: Chan)
    requires Inv(d, c) && !c.sentClose
    ensures Inv(d, SendClose(c))
  {
    SendCloseClosesAll(c.fds);
    ClosedInv(d, c, CloseAll(c.fds));
  }

  lemma ClosedInv(d: Discipline, c: Chan, f: Fds)
    requires Inv(d, c) && !c.sentClose && OnlyClosed(c.fds, f) && AllClosed(f)
    ensures Inv(d, c.(log := c.log + [Close], sentEof := true, sentClose := true, fds := f))
  {
    StageSnoc(d, c.log, Close);
  }

  lemma SendEofInv(d: Discipline, c: Chan)
    requires Inv(d, c) && !c.sentEof && NoInput(c.fds)
    ensures Inv(d, SendEof(c))
  {
    StageSnoc(d, c.log, Eof);
  }

  lemma MaybeShutInv(d: Discipline, c: Chan, env: Env, allowed: bool)
    requires Inv(d, c)
    ensures Inv(d, MaybeShut(c, env, allowed))
  {
    var f := CloseFd(c.fds, c.fds.write, Wr);
    CloseFdCloses(c.fds, c.fds.write, Wr);
    ClosingInv(d, c, f);
  }

  lemma MaybeEofInv(d: Discipline, c: Chan)
    requires Inv(d, c)
    ensures Inv(d, MaybeEof(c))
  {
    if !c.sentEof && NoInput(c.fds) { SendEofInv(d, c); }
  }

  lemma MaybeCloseInv(d: Discipline, c: Chan, env: Env, allowed: bool)
    requires Inv(d, c)
    ensures Inv(d, MaybeClose(c, env, allowed))
  {
    if !c.sentClose { SendCloseInv(d, c); }
  }

  lemma CheckCloseInv(d: Discipline, c: Chan, env: Env)
    requires Inv(d, c) && !c.removed
    ensures Inv(d, CheckClose(c, env))
  {
    var c0, allowed := c.(fds := FlushFds(c.fds, env)), CloseAllowed(c, env);
    FlushFdsCloses(c.fds, env);
    ClosingInv(d, c, c0.fds);
    if c0.recvClose && !WritePending(c0.fds, env) && allowed {
      if !c0.sentClose { SendCloseInv(d, c0); }
    } else {
      MaybeShutInv(d, c0, env, allowed);
      MaybeEofInv(d, MaybeShut(c0, env, allowed));
      MaybeCloseInv(d, MaybeEof(MaybeShut(c0, env, allowed)), env, allowed);
    }
  }

  lemma BytesInv(d: Discipline, c: Chan, m: Msg)
    requires Inv(d, c) && !c.sentClose && (d.BeforeEof? ==> !c.sentEof) && (m == Data || m == ExtData)
    ensures Inv(d, c.(log := c.log + [m]))
  {
    StageSnoc(d, c.log, m);
  }

  lemma LocalInv(d: Discipline, c: Chan, ext: bool, r: ReadResult)
    requires Inv(d, c) && Enabled(c, Local(ext, r))
    ensures Permits(d, c) && Inv(d, SendData(c, ext, r))
  {
    if !c.sentClose {
      match r
      case Bytes => BytesInv(d, c, if ext then ExtData else Data);
      case Ended =>
        var fd := if ext then c.fds.err else c.fds.read;
        CloseFdCloses(c.fds, fd, Rd);
        ClosingInv(d, c, CloseFd(c.fds, fd, Rd));
      case Interrupted =>
    }
  }

  lemma DrainInv(d: Discipline, c: Chan, ext: bool, failed: bool, adjust: bool)
    requires Inv(d, c) && Enabled(c, Drain(ext, failed, adjust))
    ensures Inv(d, WriteOut(c, ext, failed, adjust))
  {
    var fd := if ext then c.fds.err else c.fds.write;
    StageSnoc(d, c.log, Adjust);
    CloseFdCloses(c.fds, fd, Wr);
    ClosingInv(d, c, CloseFd(c.fds, fd, Wr));
  }

  /** Every step keeps the invariant as long as descriptors are attached in time; data is then read
      only while what forbids it was not sent. */
  lemma StepInv(d: Discipline, c: Chan, ev: Event)
    requires Inv(d, c) && Enabled(c, ev) && (ev.Attach? ==> Permits(d, c))
    ensures Inv(d, Apply(c, ev)) && (ev.Local? ==> Permits(d, c))
  {
    match ev
    case Attach(_) =>
    case Local(ext, r) => LocalInv(d, c, ext, r);
    case Drain(ext, failed, adjust) => DrainInv(d, c, ext, failed, adjust);
    case Check(env) => CheckCloseInv(d, c, env);
    case GotEof(env) => CheckCloseInv(d, c.(recvEof := true), env);
    case GotClose(env) => CheckCloseInv(d, c.(recvEof := true, recvClose := true), env);
  }

  lemma {:induction false} RunInv(d: Discipline, c: Chan, evs: seq<Event>)
    requires Inv(d, c) && Runs(c, evs) && Timely(d, c, evs)
    ensures Inv(d, After(c, evs))
    decreases |evs|
  {
    if evs != [] {
      StepInv(d, c, evs[0]);
      RunInv(d, Apply(c, evs[0]), evs[1..]);
    }
  }

  // ------------------------------------------------------------------ order of messages

  /** EOF and CLOSE leave at most once, and neither EOF nor data follows CLOSE. */
  ghost predicate Closing(log: seq<Msg>)
  {
    forall i, j :: 0 <= i < j < |log| ==> (log[i] == Eof ==> log[j] != Eof) && (log[i] == Close ==> log[j] == Adjust)
  }

  /** Nothing follows CLOSE. */
  ghost predicate CloseLast(log: seq<Msg>)
  {
    forall i :: 0 <= i < |log| - 1 ==> log[i] != Close
  }

  /** Nothing follows CLOSE; only window adjustments and CLOSE follow EOF. */
  ghost predicate Orderly(log: seq<Msg>)
  {
    forall i, j :: 0 <= i < j < |log| ==> log[i] != Close && (log[i] == Eof ==> log[j] == Adjust || log[j] == Close)
  }

  lemma {:induction false} StageBefore(d: Discipline, log: seq<Msg>, i: nat)
    requires StageOf(d, log) != Wrong && i < |log|
    ensures log[i] == Close ==> StageOf(d, log) == Closed
    ensures log[i] == Eof ==> StageOf(d, log) == Finished || StageOf(d, log) == Closed
  {
    if i < |log| - 1 { StageBefore(d, log[..|log| - 1], i); }
  }

  lemma {:induction false} StageOrder(d: Discipline, log: seq<Msg>, i: nat, j: nat)
    requires StageOf(d, log) != Wrong && i < j < |log|
    ensures (log[i] == Eof ==> log[j] != Eof) && (log[i] == Close ==> log[j] == Adjust)
    ensures !d.AnyTime? ==> log[i] != Close
    ensures d.BeforeEof? ==> (log[i] == Eof ==> log[j] == Adjust || log[j] == Close)
  {
    var rest := log[..|log| - 1];
    if j == |log| - 1 {
      StageBefore(d, rest, i);
    } else {
      StageOrder(d, rest, i, j);
    }
  }

  lemma StageOrderly(d: Discipline, log: seq<Msg>)
    requires StageOf(d, log) != Wrong
    ensures Closing(log) && (!d.AnyTime? ==> CloseLast(log)) && (d.BeforeEof? ==> Orderly(log))
  {
    forall i, j | 0 <= i < j < |log|
      ensures (log[i] == Eof ==> log[j] != Eof) && (log[i] == Close ==> log[j] == Adjust)
      ensures !d.AnyTime? ==> log[i] != Close
      ensures d.BeforeEof? ==> (log[i] == Eof ==> log[j] == Adjust || log[j] == Close)
    {
      StageOrder(d, log, i, j);
    }
    if !d.AnyTime? {
      forall i | 0 <= i < |log| - 1 ensures log[i] != Close { StageOrder(d, log, i, i + 1); }
    }
  }

  /** In every run of a channel EOF and CLOSE leave at most once, neither EOF nor data follows CLOSE, and
      the channel is removed only when both sides have sent CLOSE. Unless descriptors were attached after
      CLOSE the assert never fails and nothing follows CLOSE, and unless they were attached after EOF the
      messages are in order. */
  lemma MessagesInOrder(evs: seq<Event>)
    requires Runs(Opened(), evs)
    ensures var c := After(Opened(), evs);
      && Closing(c.log) && (c.removed ==> c.sentClose && c.recvClose)
      && (Timely(BeforeClose, Opened(), evs) ==> !c.failed && CloseLast(c.log))
      && (Timely(BeforeEof, Opened(), evs) ==> !c.failed && Orderly(c.log))
  {
    AnyTimely(Opened(), evs);
    forall d | Timely(d, Opened(), evs) ensures Inv(d, After(Opened(), evs)) {
      RunInv(d, Opened(), evs);
    }
    var c := After(Opened(), evs);
    StageOrderly(AnyTime, c.log);
    if Timely(BeforeClose, Opened(), evs) { StageOrderly(BeforeClose, c.log); }
    if Timely(BeforeEof, Opened(), evs) { StageOrderly(BeforeEof, c.log); }
  }

  lemma {:induction false} AnyTimely(c: Chan, evs: seq<Event>)
    requires Runs(c, evs)
    ensures Timely(AnyTime, c, evs)
    decreases |evs|
  {
    if evs != [] { AnyTimely(Apply(c, evs[0]), evs[1..]); }
  }

  predicate AttachFree(evs: seq<Event>)
  {
    forall ev :: ev in evs ==> !ev.Attach?
  }

  lemma {:induction false} FreeTimely(d: Discipline, c: Chan, evs: seq<Event>)
    requires Runs(c, evs) && AttachFree(evs)
    ensures Timely(d, c, evs)
    decreases |evs|
  {
    if evs != [] {
      assert evs[0] in evs;
      FreeTimely(d, Apply(c, evs[0]), evs[1..]);
    }
  }

  lemma FreeRunInv(d: Discipline, c: Chan, evs: seq<Event>)
    requires Inv(d, c) && Runs(c, evs) && AttachFree(evs)
    ensures Inv(d, After(c, evs))
  {
    FreeTimely(d, c, evs);
    RunInv(d, c, evs);
  }

  /** No way to go on, short of attaching again, makes the assert fail. */
  ghost predicate NeverFails(c: Chan)
  {
    forall evs :: Runs(c, evs) && AttachFree(evs) ==> !After(c, evs).failed
  }

  /** Nor does one put the messages out of order. */
  ghost predicate StaysOrderly(c: Chan)
  {
    forall evs :: Runs(c, evs) && AttachFree(evs) ==> !After(c, evs).failed && Orderly(After(c, evs).log)
  }

  /** The run in which bytes are read from the descriptor next. */
  lemma OneRead(c: Chan)
    requires Enabled(c, Local(false, Bytes))
    ensures var evs := [Local(false, Bytes)];
      Runs(c, evs) && AttachFree(evs) && After(c, evs) == SendData(c, false, Bytes)
  {
    var ev := Local(false, Bytes);
    assert [ev][1..] == [];
    assert After(Apply(c, ev), []) == Apply(c, ev);
  }

  /** An EOF or CLOSE that was sent is in the log. */
  lemma {:induction false} EndedAt(d: Discipline, log: seq<Msg>) returns (i: nat)
    requires StageOf(d, log) == Finished
    ensures i < |log| && log[i] == Eof
  {
    if StageOf(d, log[..|log| - 1]) == Finished {
      i := EndedAt(d, log[..|log| - 1]);
    } else {
      i := |log| - 1;
    }
  }

  /** Whatever was attached before, attaching descriptors is safe exactly until CLOSE, and keeps the
      messages in order exactly until EOF. Nothing in the code tests for either. */
  lemma AttachSafe(c: Chan, f: Fds)
    requires Inv(AnyTime, c) && Enabled(c, Attach(f))
    ensures NeverFails(Apply(c, Attach(f))) <==> !c.sentClose
    ensures StaysOrderly(Apply(c, Attach(f))) <==> !c.sentEof
  {
    var c' := Apply(c, Attach(f));
    OneRead(c');
    if c.sentEof { LateRead(c'); } else { TimelyAttach(c, f); }
    if !c.sentClose { BeforeCloseAttach(c, f); }
  }

  lemma LateRead(c: Chan)
    requires StageOf(AnyTime, c.log) == (if c.sentClose then Closed else Finished)
    ensures var c' := SendData(c, false, Bytes); c'.failed || !Orderly(c'.log)
  {
    if !c.sentClose {
      var i := EndedAt(AnyTime, c.log);
      var log := SendData(c, false, Bytes).log;
      assert log[i] == Eof && log[|c.log|] == Data;
    }
  }

  lemma TimelyAttach(c: Chan, f: Fds)
    requires Inv(AnyTime, c) && Enabled(c, Attach(f)) && !c.sentEof
    ensures StaysOrderly(Apply(c, Attach(f)))
  {
    var c' := Apply(c, Attach(f));
    SameStage(BeforeEof, c.log);
    forall evs | Runs(c', evs) && AttachFree(evs) ensures !After(c', evs).failed && Orderly(After(c', evs).log) {
      FreeRunInv(BeforeEof, c', evs);
      StageOrderly(BeforeEof, After(c', evs).log);
    }
  }

  lemma BeforeCloseAttach(c: Chan, f: Fds)
    requires Inv(AnyTime, c) && Enabled(c, Attach(f)) && !c.sentClose
    ensures NeverFails(Apply(c, Attach(f)))
  {
    var c' := Apply(c, Attach(f));
    SameStage(BeforeClose, c.log);
    forall evs | Runs(c', evs) && AttachFree(evs) ensures !After(c', evs).failed {
      FreeRunInv(BeforeClose, c', evs);
    }
  }

  /** The disciplines differ only about what is sent once one of them has been broken. */
  lemma {:induction false} SameStage(d: Discipline, log: seq<Msg>)
    requires StageOf(AnyTime, log) == Open || (StageOf(AnyTime, log) == Finished && d == BeforeClose)
    ensures StageOf(d, log) == StageOf(AnyTime, log)
  {
    if log != [] { SameStage(d, log[..|log| - 1]); }
  }

  /** A run of the server in which the assert fails: the client ends its input before it asks for a
      command, so that EOF and CLOSE leave; the command is started all the same and prints. */
  lemma LateCommand(f: Fds, env: Env)
    requires Attachable(f) && env.typed && env.typeAllows && !env.flushing
    ensures var evs := [GotEof(env), Attach(f), Local(false, Bytes)];
      Runs(Opened(), evs) && After(Opened(), evs).failed && After(Opened(), evs).log == [Eof, Close]
  {
    var evs := [GotEof(env), Attach(f), Local(false, Bytes)];
    var c := Apply(Opened(), evs[0]);
    assert c.sentClose && !c.removed && !c.failed && c.log == [] + [Eof] + [Close] == [Eof, Close];
    assert evs[1..] == [Attach(f), Local(false, Bytes)] && evs[1..][1..] == [Local(false, Bytes)];
    OneRead(Apply(c, evs[1]));
  }

  /** What check_close leaves open for its two last tests. */
  function ShutFds(c: Chan, env: Env): Fds
  {
    MaybeShut(c.(fds := FlushFds(c.fds, env)), env, CloseAllowed(c, env)).fds
  }

  /** A close check removes the channel, sends EOF and sends CLOSE exactly when it may: EOF as soon as
      nothing is left to read from, CLOSE as soon as nothing is left to write to either or in answer to
      the peer's. */
  lemma CheckCloseActs(c: Chan, env: Env)
    requires Inv(AnyTime, c) && !c.removed
    ensures var c', f, g := CheckClose(c, env), FlushFds(c.fds, env), ShutFds(c, env);
      && (c'.removed <==> c.recvClose && !WritePending(f, env) && CloseAllowed(c, env))
      && (c'.sentEof <==> c.sentEof || c'.sentClose || NoInput(c'.fds))
      && (Inv(BeforeEof, c) ==> (c'.sentEof <==> c'.sentClose || NoInput(c'.fds)))
      && (c'.sentClose <==>
            || c.sentClose || c'.removed
            || (CloseAllowed(c, env) && NoInput(g) && g.write == FD_CLOSED && !WritePending(g, env)))
  {
    CheckCloseInv(AnyTime, c, env);
    if Inv(BeforeEof, c) { CheckCloseInv(BeforeEof, c, env); }
  }

  /** Nothing keeps a channel open: once no output is left and the channel type agrees, CLOSE of the peer
      removes the channel, and end of file on both sides sends our own CLOSE. When the process behind it
      has gone and left no input, or it never had any, EOF is sent. */
  lemma CloseProgress(c: Chan, env: Env)
    requires Inv(AnyTime, c) && !c.removed && CloseAllowed(c, env) && !env.writeUsed && !env.extraUsed
    ensures c.recvClose ==> CheckClose(c, env).removed && CheckClose(c, env).sentClose
    ensures c.recvEof && NoInput(FlushFds(c.fds, env)) ==> CheckClose(c, env).sentClose
    ensures env.flushing && !env.readPending && !env.errPending && c.fds.read >= FD_CLOSED && c.fds.err >= FD_CLOSED ==>
      CheckClose(c, env).sentEof
  {}

  /** So CLOSE of the peer removes the channel, EOF of the peer on a channel without input answers with
      CLOSE, and the end of the local input closes the descriptor it was read from and sends EOF. */
  lemma EventProgress(c: Chan, env: Env)
    requires Inv(AnyTime, c) && !c.removed && !c.failed && CloseAllowed(c, env) && !env.writeUsed && !env.extraUsed
    ensures Apply(c, GotClose(env)).removed && Apply(c, GotClose(env)).sentClose
    ensures NoInput(FlushFds(c.fds, env)) ==> Apply(c, GotEof(env)).sentClose
    ensures c.fds.read >= 0 && !c.sentClose && (c.fds.extra || c.fds.err == FD_CLOSED) && !env.flushing ==>
      var c' := Apply(c, Local(false, Ended)); c'.fds.read == FD_CLOSED && Apply(c', Check(env)).sentEof
  {
    CloseProgress(c.(recvEof := true, recvClose := true), env);
    CloseProgress(c.(recvEof := true), env);
  }

  // ------------------------------------------------------------------ the code, in place

  class ChannelFds {
    var readfd: int
    var writefd: int
    var errfd: int
    var bidirFd: bool
    var extrabuf: bool
    var sentEof: bool
    var sentClose: bool
    var recvEof: bool
    var recvClose: bool
    var removed: bool
    ghost var failed: bool
    ghost var log: seq<Msg>

    ghost function Descriptors(): Fds
      reads this
    {
      Fds(readfd, writefd, errfd, bidirFd, extrabuf)
    }

    ghost function State(): Chan
      reads this
    {
      Chan(Descriptors(), sentEof, sentClose, recvEof, recvClose, removed, failed, log)
    }

    constructor ()
      ensures State() == Opened()
    {
      readfd, writefd, errfd, bidirFd, extrabuf := FD_UNINIT, FD_UNINIT, FD_CLOSED, false, false;
      sentEof, sentClose, recvEof, recvClose, removed, failed, log := false, false, false, false, false, false, [];
    }

    method CloseChanFd(fd: int, how: How)
      modifies this`readfd, this`writefd, this`errfd
      ensures Descriptors() == CloseFd(old(Descriptors()), fd, how)
    {
      var closein, closeout := false, false;
      if bidirFd {
        if how.Rd? { closeout := true; } else { closein := true; }
      } else {
        closein, closeout := true, true;
      }
      if closeout && fd == readfd { readfd := FD_CLOSED; }
      if closeout && !extrabuf && fd == errfd { errfd := FD_CLOSED; }
      if closein && fd == writefd { writefd := FD_CLOSED; }
      if closein && extrabuf && fd == errfd { errfd := FD_CLOSED; }
    }

    method SendMsgChannelClose()
      modifies this`log, this`sentEof, this`sentClose, this`readfd, this`writefd, this`errfd
      ensures State() == SendClose(old(State()))
    {
      log := log + [Close];
      sentEof, sentClose := true, true;
      CloseChanFd(readfd, Rd);
      CloseChanFd(errfd, RdWr);
      CloseChanFd(writefd, Wr);
    }

    method SendMsgChannelEof()
      modifies this`log, this`sentEof
      ensures State() == SendEof(old(State()))
    {
      log := log + [Eof];
      sentEof := true;
    }

    /** The flushing part of check_close. */
    method FlushDescriptors(env: Env)
      modifies this`readfd, this`writefd, this`errfd
      ensures Descriptors() == FlushFds(old(Descriptors()), env)
    {
      if env.flushing {
        if readfd >= 0 && !env.readPending { CloseChanFd(readfd, Rd); }
        if !extrabuf && errfd >= 0 && !env.errPending { CloseChanFd(errfd, Rd); }
      }
    }

    method HasPending(env: Env) returns (r: bool)
      ensures r == WritePending(Descriptors(), env)
    {
      r := (writefd >= 0 && env.writeUsed) || (errfd >= 0 && extrabuf && env.extraUsed);
    }

    method CheckCloseChannel(env: Env)
      modifies this
      ensures State() == CheckClose(old(State()), env)
    {
      var allowed := !env.typed || sentClose || env.typeAllows;
      FlushDescriptors(env);
      var pending := HasPending(env);
      if recvClose && !pending && allowed {
        if !sentClose { SendMsgChannelClose(); }
        removed := true;
        return;
      }
      FinishCheck(env, allowed, pending);
    }

    method FinishInput()
      modifies this`log, this`sentEof
      ensures State() == MaybeEof(old(State()))
    {
      if !sentEof && readfd == FD_CLOSED && (extrabuf || errfd == FD_CLOSED) { SendMsgChannelEof(); }
    }

    method FinishOutput(env: Env, allowed: bool, pending: bool)
      requires pending == WritePending(Descriptors(), env)
      modifies this`readfd, this`writefd, this`errfd
      ensures State() == MaybeShut(old(State()), env, allowed)
    {
      if (recvEof && !pending) || (env.typed && allowed) { CloseChanFd(writefd, Wr); }
    }

    method CloseWhenDone(env: Env, allowed: bool)
      modifies this`log, this`sentEof, this`sentClose, this`readfd, this`writefd, this`errfd
      ensures State() == MaybeClose(old(State()), env, allowed)
    {
      var left := HasPending(env);
      var closed := readfd == FD_CLOSED && writefd == FD_CLOSED && (extrabuf || errfd == FD_CLOSED);
      if closed && !sentClose && allowed && !left {
        SendMsgChannelClose();
      }
    }

    /** The rest of check_close. */
    method FinishCheck(env: Env, allowed: bool, pending: bool)
      requires pending == WritePending(Descriptors(), env)
      modifies this`log, this`sentEof, this`sentClose, this`readfd, this`writefd, this`errfd
      ensures State() == MaybeClose(MaybeEof(MaybeShut(old(State()), env, allowed)), env, allowed)
    {
      FinishOutput(env, allowed, pending);
      FinishInput();
      CloseWhenDone(env, allowed);
    }

    /** Every invariant that held on entry, and still may, holds. */
    twostate predicate Keeps()
      reads this
    {
      forall d :: old(Inv(d, State())) ==> Inv(d, State())
    }

    method RecvMsgChannelEof(env: Env)
      requires !removed && !failed
      modifies this
      ensures State() == Apply(old(State()), GotEof(env)) && Keeps()
    {
      forall d | Inv(d, State()) ensures Inv(d, Apply(State(), GotEof(env))) { StepInv(d, State(), GotEof(env)); }
      recvEof := true;
      CheckCloseChannel(env);
    }

    method RecvMsgChannelClose(env: Env)
      requires !removed && !failed
      modifies this
      ensures State() == Apply(old(State()), GotClose(env)) && Keeps()
    {
      forall d | Inv(d, State()) ensures Inv(d, Apply(State(), GotClose(env))) { StepInv(d, State(), GotClose(env)); }
      recvEof, recvClose := true, true;
      CheckCloseChannel(env);
    }

    /** The assignments of noptycommand, ptycommand, channel_connect_done, cli_init_stdpipe_sess and
        send_msg_channel_open_init. */
    method AttachDescriptors(f: Fds)
      requires !removed && !failed && Attachable(f)
      modifies this`readfd, this`writefd, this`errfd, this`bidirFd, this`extrabuf
      ensures State() == Apply(old(State()), Attach(f))
      ensures forall d :: old(Inv(d, State()) && Permits(d, State())) ==> Inv(d, State())
    {
      readfd, writefd, errfd, bidirFd, extrabuf := f.read, f.write, f.err, f.bidir, f.extra;
    }

    /** send_msg_channel_data. It stops at its assert exactly when CLOSE was sent, which it was not if
        nothing was attached after CLOSE. */
    method SendMsgChannelData(ext: bool, r: ReadResult) returns (stopped: bool)
      requires Enabled(State(), Local(ext, r))
      modifies this`readfd, this`writefd, this`errfd, this`log, this`failed
      ensures State() == Apply(old(State()), Local(ext, r)) && Keeps()
      ensures stopped == failed == old(sentClose)
      ensures old(Inv(BeforeClose, State())) ==> !stopped
    {
      forall d | Inv(d, State()) ensures Permits(d, State()) && Inv(d, Apply(State(), Local(ext, r))) {
        StepInv(d, State(), Local(ext, r));
      }
      if sentClose {
        failed := true;
        return true;
      }
      stopped := false;
      var fd := if ext then errfd else readfd;
      assert fd >= 0;
      match r
      case Bytes => log := log + [if ext then ExtData else Data];
      case Ended => CloseChanFd(fd, Rd);
      case Interrupted =>
    }
  }
}
