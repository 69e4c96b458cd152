/** The session structure that the transport code updates in place. Every method computes the
    step that KexSpec gives for it; KexPair runs two of these objects against each other. */
module KexSession {
  import opened Common
  import opened KexSpec

  class TransportSession {
    const role: Role
    var kex: KexState
    var dataallowed: bool
    var requirenext: nat
    var ignorenext: bool
    var initSent: bool
    var lastpacket: nat
    var transkexinit: nat
    var kexhash: (nat, nat)
    var dh: nat
    var newkeys: Option<NewKeys>
    var transkey: Key
    var recvkey: Key
    var transseq: nat
    var recvseq: nat
    var replyQueue: seq<Message>
    var writequeue: seq<Packet>
    var got: nat
    ghost var keys: seq<Key>
    ghost var submitted: seq<Message>
    ghost var handled: seq<Handled>

    ghost function State(): Session
      reads this
    {
      Session(role, kex, dataallowed, requirenext, ignorenext, initSent, lastpacket, transkexinit, kexhash, dh, newkeys,
              transkey, recvkey, transseq, recvseq, replyQueue, writequeue, got, keys, submitted, handled)
    }

    /** The outcome of a step: the exit it takes, or the state it leaves. */
    ghost predicate Outcome(exit: Option<Exit>, r: Result)
      reads this
    {
      if r.Dead? then exit == Some(r.why) else exit == None && State() == r.s
    }

    constructor (role: Role)
      ensures State() == Session(role, FRESH, true, KEXINIT, false, false, 0, 0, (0, 0), 0, None,
                                 Initial, Initial, 0, 0, [], [], 0, [], [], [])
    {
      this.role := role;
      kex := FRESH;
      dataallowed, requirenext, ignorenext, initSent, lastpacket := true, KEXINIT, false, false, 0;
      transkexinit, kexhash, dh, newkeys := 0, (0, 0), 0, None;
      transkey, recvkey, transseq, recvseq := Initial, Initial, 0, 0;
      replyQueue, writequeue, got, keys, submitted, handled := [], [], 0, [], [], [];
    }

    method EncryptPacket(m: Message)
      modifies this`replyQueue, this`writequeue, this`transseq
      ensures State() == Encrypt(old(State()), m)
    {
      if !dataallowed && !OkayKex(Type(m)) {
        replyQueue := replyQueue + [m];
        return;
      }
      writequeue := writequeue + [Packet(m, transkey, transseq)];
      transseq := (transseq + 1) % SEQUENCE;
    }

    method MaybeFlushReplyQueue()
      modifies this`replyQueue, this`writequeue, this`transseq
      ensures State() == Flush(old(State()))
    {
      if !dataallowed { return; }
      var i := 0;
      while i < |replyQueue|
        invariant 0 <= i <= |replyQueue| && replyQueue == old(replyQueue)
        invariant SendAll(State(), replyQueue[i..]) == SendAll(old(State()), replyQueue)
      {
        assert replyQueue[i..][0] == replyQueue[i] && replyQueue[i..][1..] == replyQueue[i + 1..];
        EncryptPacket(replyQueue[i]);
        i := i + 1;
      }
      replyQueue := [];
    }

    method SendMsgKexdhInit(e: nat)
      modifies this`replyQueue, this`writequeue, this`transseq, this`dh
      ensures State() == SendKexdhInit(old(State()), e)
    {
      EncryptPacket(KexdhInit(e));
      dh := e;
    }

    method OfferKexinit(env: Env)
      modifies this`replyQueue, this`writequeue, this`transseq, this`transkexinit, this`dataallowed, this`kex,
               this`newkeys
      ensures State() == Offer(old(State()), env)
    {
      EncryptPacket(Kexinit(env.cookie));
      transkexinit := env.cookie;
      dataallowed := false;
      kex := kex.(sentkexinit := true);
      newkeys := Some(NewKeys(false, false, Initial));
    }

    method SendMsgKexinit(env: Env)
      modifies this
      ensures State() == SendKexinit(old(State()), env)
    {
      OfferKexinit(env);
      if role.Client? { SendMsgKexdhInit(env.secret); }
    }

    method SwitchKeys() returns (exit: Option<Exit>)
      modifies this
      ensures Outcome(exit, KexSpec.SwitchKeys(old(State())))
    {
      if !(kex.sentkexinit && kex.recvkexinit) { return Some(UnexpectedNewkeys); }
      if newkeys.None? { return Some(NullNewkeys); }
      var nk := newkeys.value;
      if kex.recvnewkeys && nk.recvValid {
        recvkey := nk.key;
        newkeys := Some(newkeys.value.(recvValid := false));
      }
      if kex.sentnewkeys && nk.transValid {
        transkey := nk.key;
        newkeys := Some(newkeys.value.(transValid := false));
      }
      if kex.sentnewkeys && kex.recvnewkeys {
        newkeys := None;
        kex := FRESH;
      }
      exit := None;
    }

    method SendMsgNewkeys(t: Transcript) returns (exit: Option<Exit>)
      modifies this
      ensures Outcome(exit, SendNewkeys(old(State()), t))
    {
      EncryptPacket(Newkeys);
      kex := kex.(sentnewkeys := true);
      dataallowed := true;
      if newkeys.None? { return Some(NullNewkeys); }
      newkeys := Some(NewKeys(true, true, Derived(t)));
      keys := keys + [Derived(t)];
      exit := SwitchKeys();
    }

    method RecvMsgNewkeys() returns (exit: Option<Exit>)
      modifies this
      ensures Outcome(exit, RecvNewkeys(old(State())))
    {
      kex := kex.(recvnewkeys := true);
      exit := SwitchKeys();
    }

    method RecvMsgKexinit(neg: Negotiation, cookie: nat, env: Env) returns (exit: Option<Exit>)
      modifies this
      ensures Outcome(exit, RecvKexinit(neg, old(State()), cookie, env))
    {
      if !kex.sentkexinit { SendMsgKexinit(env); }
      exit := TakeMsgKexinit(neg, cookie);
    }

    /** The rest of recv_msg_kexinit. */
    method TakeMsgKexinit(neg: Negotiation, cookie: nat) returns (exit: Option<Exit>)
      modifies this
      ensures Outcome(exit, TakeKexinit(neg, old(State()), cookie))
    {
      if kex.recvkexinit { return Some(UnexpectedKexinit); }
      if role.Client? {
        if !neg.common(transkexinit, cookie) { return Some(NoMatchingAlgo); }
        kexhash := (transkexinit, cookie);
        kex := kex.(matches := neg.clientGood(transkexinit, cookie));
        requirenext := KEXDH_REPLY;
      } else {
        if !neg.common(cookie, transkexinit) { return Some(NoMatchingAlgo); }
        kexhash := (cookie, transkexinit);
        if !neg.serverGood(cookie, transkexinit) { ignorenext := true; }
        requirenext := KEXDH_INIT;
      }
      kex := kex.(recvkexinit := true);
      exit := None;
    }

    method RecvMsgKexdhInit(e: nat, env: Env) returns (exit: Option<Exit>)
      modifies this
      ensures Outcome(exit, RecvKexdhInit(old(State()), e, env))
    {
      if !kex.recvkexinit { return Some(PrematureInit); }
      var t := Transcript(kexhash.0, kexhash.1, e, env.secret);
      EncryptPacket(KexdhReply(env.secret, t));
      exit := SendMsgNewkeys(t);
      if exit.Some? { return; }
      if env.extInfo { EncryptPacket(Other(EXT_INFO, 0)); }
      requirenext := NEWKEYS;
    }

    method RecvMsgKexdhReply(f: nat, signed: Transcript) returns (exit: Option<Exit>)
      modifies this
      ensures Outcome(exit, RecvKexdhReply(old(State()), f, signed))
    {
      if !initSent { return Some(OutOfOrderReply); }
      var t := Transcript(kexhash.0, kexhash.1, dh, f);
      if signed != t { return Some(BadSignature); }
      exit := SendMsgNewkeys(t);
      if exit.Some? { return; }
      requirenext := NEWKEYS;
    }

    method RecvUnimplemented()
      modifies this`replyQueue, this`writequeue, this`transseq
      ensures State() == Unimplemented(old(State()))
    {
      EncryptPacket(Other(UNIMPLEMENTED, (recvseq - 1) % SEQUENCE));
    }

    /** The scan of the handler table. */
    method Dispatch(neg: Negotiation, m: Message, env: Env) returns (exit: Option<Exit>)
      modifies this
      ensures Outcome(exit, Handle(neg, old(State()), m, env))
    {
      exit := None;
      match m
      case Kexinit(cookie) => exit := RecvMsgKexinit(neg, cookie, env);
      case Newkeys => exit := RecvMsgNewkeys();
      case KexdhInit(e) => if role.Server? { exit := RecvMsgKexdhInit(e, env); } else { RecvUnimplemented(); }
      case KexdhReply(f, signed) =>
        if role.Client? { exit := RecvMsgKexdhReply(f, signed); } else { RecvUnimplemented(); }
      case Other(_, _) => if !env.known { RecvUnimplemented(); }
    }

    method ProcessPacket(neg: Negotiation, m: Message, env: Env) returns (exit: Option<Exit>)
      modifies this
      ensures Outcome(exit, Process(neg, old(State()), m, env))
      ensures !env.authdone && Type(m) > 60 ==>
        exit.Some? || (old(ignorenext) && State() == old(State()).(ignorenext := false, lastpacket := Type(m)))
    {
      var t := Type(m);
      exit := None;
      if t == IGNORE || t == DEBUG || t == UNIMPLEMENTED {
        lastpacket := t;
        return;
      }
      if t == DISCONNECT { return Some(Disconnected); }
      if requirenext != 0 && requirenext != t {
        if 1 <= t <= 49 && t != SERVICE_REQUEST && t != SERVICE_ACCEPT && t != KEXINIT {
          RecvUnimplemented();
          lastpacket := t;
          return;
        }
        return Some(UnexpectedPacket);
      }
      exit := ProcessAllowed(neg, m, env);
    }

    method ProcessAllowed(neg: Negotiation, m: Message, env: Env) returns (exit: Option<Exit>)
      requires requirenext == 0 || requirenext == Type(m)
      modifies this
      ensures Outcome(exit, Allowed(neg, old(State()), m, env))
    {
      var t := Type(m);
      exit := None;
      if ignorenext {
        ignorenext := false;
        lastpacket := t;
        return;
      }
      if requirenext != 0 && requirenext == t { requirenext := 0; }
      if !env.authdone && t > MAX_UNAUTH_PACKET_TYPE { return Some(BeforeUserauth); }
      exit := DispatchLast(neg, m, env);
    }

    method DispatchLast(neg: Negotiation, m: Message, env: Env) returns (exit: Option<Exit>)
      modifies this
      ensures var r := Handle(neg, old(State()), m, env);
        Outcome(exit, if r.Dead? then r else Live(Noted(r.s, m, env)))
    {
      exit := Dispatch(neg, m, env);
      if exit.None? { lastpacket, handled := Type(m), handled + [Handled(m, env.authdone)]; }
    }

    method LoopHandler(env: Env)
      modifies this`replyQueue, this`writequeue, this`transseq, this`dh, this`initSent
      ensures State() == Loop(old(State()), env)
    {
      if role.Server? || lastpacket == 0 { return; }
      if lastpacket == KEXINIT && !initSent {
        if !kex.matches { SendMsgKexdhInit(env.second); }
        initSent := true;
        return;
      }
      if initSent && kex.sentnewkeys { initSent := false; }
    }

    method CountPacket()
      modifies this`recvseq, this`got
      ensures State() == Arrived(old(State()))
    {
      recvseq := (recvseq + 1) % SEQUENCE;
      got := got + 1;
    }

    /** The rest of the program sends a message. */
    method SubmitMessage(m: Message)
      modifies this`replyQueue, this`writequeue, this`transseq, this`submitted
      ensures State() == Submit(old(State()), m)
    {
      EncryptPacket(m);
      submitted := if OkayKex(Type(m)) then submitted else submitted + [m];
    }

    /** One pass of session_loop in which a packet arrived. */
    method ReceivePacket(neg: Negotiation, p: Packet, env: Env) returns (exit: Option<Exit>)
      modifies this
      ensures Outcome(exit, Receive(neg, old(State()), p, env))
    {
      if p.key != recvkey || p.seqno != recvseq { return Some(Integrity); }
      CountPacket();
      exit := ProcessAndLoop(neg, p.m, env);
    }

    method ProcessAndLoop(neg: Negotiation, m: Message, env: Env) returns (exit: Option<Exit>)
      modifies this
      ensures Outcome(exit, Finish(Process(neg, old(State()), m, env), env))
    {
      ghost var r := Process(neg, State(), m, env);
      exit := ProcessPacket(neg, m, env);
      if exit.None? { FinishPass(r, env); }
    }

    method FinishPass(ghost r: Result, env: Env)
      requires Outcome(None, r)
      modifies this`replyQueue, this`writequeue, this`transseq, this`dh, this`initSent
      ensures Outcome(None, Finish(r, env))
    {
      MaybeFlushReplyQueue();
      LoopHandler(env);
    }

    /** One pass of session_loop without a packet. */
    method PassWithoutPacket(rekey: bool, env: Env)
      modifies this
      ensures State() == Tick(old(State()), rekey, env)
    {
      if rekey && !kex.sentkexinit { SendMsgKexinit(env); }
      MaybeFlushReplyQueue();
      LoopHandler(env);
    }
  }
}
