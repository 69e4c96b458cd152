/** One endpoint against any peer. Whatever packets arrive, in whatever order: every exit has its exact
    condition, the messages that are handled follow the key exchange grammar, none above the types of
    user authentication is handled before the peer is authenticated, and every key comes from the
    values of its own key exchange. */
module KexAnyPeer {
  import opened Common
  import opened KexSpec
  import opened KexSession
  import opened KexProtocol

  // ------------------------------------------------------------------ one packet, in any state

  /** The packet reaches the handler table. */
  predicate Dispatched(s: Session, t: nat, env: Env)
  {
    && t != DISCONNECT && t != IGNORE && t != UNIMPLEMENTED && t != DEBUG
    && (s.requirenext == 0 || s.requirenext == t) && !s.ignorenext && (env.authdone || t <= 60)
  }

  /** The message that leads the client or the server to derive keys. */
  predicate Answers(s: Session, m: Message)
  {
    || (m.KexdhInit? && s.role.Server? && s.kex.recvkexinit)
    || (m.KexdhReply? && s.role.Client? && s.initSent
        && m.signed == Transcript(s.kexhash.0, s.kexhash.1, s.dh, m.f))
  }

  /** Our cookie once our KEXINIT is out. */
  function OwnCookie(s: Session, env: Env): nat
  {
    if s.kex.sentkexinit then s.transkexinit else env.cookie
  }

  /** The packets that reach the table go to their handler, and the others leave the record alone. */
  lemma ProcessDispatches(neg: Negotiation, s: Session, m: Message, env: Env)
    ensures var r := Process(neg, s, m, env);
      if Dispatched(s, Type(m), env) then
        var h := Handle(neg, s.(requirenext := 0), m, env);
        r == if h.Dead? then h else Live(Noted(h.s, m, env))
      else if r.Dead? then r.why == Disconnected || r.why == UnexpectedPacket || r.why == BeforeUserauth
      else r.s.handled == s.handled
  {}

  /** The exits of process_packet itself. */
  lemma ProcessExits(neg: Negotiation, s: Session, m: Message, env: Env)
    ensures var r, t := Process(neg, s, m, env), Type(m);
      && (r == Dead(Disconnected) <==> t == 1)
      && (r == Dead(UnexpectedPacket) <==>
            s.requirenext != 0 && s.requirenext != t && (t == 0 || t == 5 || t == 6 || t == 20 || t > 49))
      && (r == Dead(BeforeUserauth) <==>
            !env.authdone && t > 60 && !s.ignorenext && (s.requirenext == 0 || s.requirenext == t))
  {}

  /** The exits of the KEXINIT handler. */
  lemma KexinitExits(neg: Negotiation, s: Session, m: Message, env: Env)
    ensures var r, d := Process(neg, s, m, env), Dispatched(s, Type(m), env);
      && (r == Dead(UnexpectedKexinit) <==> d && m.Kexinit? && s.kex.recvkexinit)
      && (r == Dead(NoMatchingAlgo) <==> d && m.Kexinit? && !s.kex.recvkexinit && Incompatible(neg, s, m.cookie, env))
  {
    ProcessDispatches(neg, s, m, env);
    if m.Kexinit? { TakeExits(neg, s.(requirenext := 0), m.cookie, env); }
  }

  predicate Incompatible(neg: Negotiation, s: Session, cookie: nat, env: Env)
  {
    if s.role.Client? then !neg.common(OwnCookie(s, env), cookie) else !neg.common(cookie, OwnCookie(s, env))
  }

  lemma TakeExits(neg: Negotiation, s: Session, cookie: nat, env: Env)
    ensures var r := RecvKexinit(neg, s, cookie, env);
      && (r == Dead(UnexpectedKexinit) <==> s.kex.recvkexinit)
      && (r == Dead(NoMatchingAlgo) <==> !s.kex.recvkexinit && Incompatible(neg, s, cookie, env))
      && (r.Dead? ==> r.why == UnexpectedKexinit || r.why == NoMatchingAlgo)
      && (r.Live? ==> r.s.handled == s.handled)
  {
    SentKexinit(s, env);
    var u := if s.kex.sentkexinit then s else SendKexinit(s, env);
    assert u.transkexinit == OwnCookie(s, env);
  }

  lemma SentKexinit(s: Session, env: Env)
    ensures var u := SendKexinit(s, env);
      && u.role == s.role && u.kex == s.kex.(sentkexinit := true) && u.transkexinit == env.cookie
      && u.handled == s.handled
  {}

  /** The exits of the key exchange handlers. */
  lemma ExchangeExits(neg: Negotiation, s: Session, m: Message, env: Env)
    ensures var r, d := Process(neg, s, m, env), Dispatched(s, Type(m), env);
      && (r == Dead(PrematureInit) <==> d && m.KexdhInit? && s.role.Server? && !s.kex.recvkexinit)
      && (r == Dead(OutOfOrderReply) <==> d && m.KexdhReply? && s.role.Client? && !s.initSent)
      && (r == Dead(BadSignature) <==> d && m.KexdhReply? && s.role.Client? && s.initSent && !Answers(s, m))
  {}

  /** The exits of switch_keys. */
  lemma NewkeysExits(neg: Negotiation, s: Session, m: Message, env: Env)
    ensures var r, d, both := Process(neg, s, m, env), Dispatched(s, Type(m), env),
                              s.kex.sentkexinit && s.kex.recvkexinit;
      && (r == Dead(UnexpectedNewkeys) <==> d && !both && (m.Newkeys? || (Answers(s, m) && s.newkeys.Some?)))
      && (r == Dead(NullNewkeys) <==> d && s.newkeys.None? && ((m.Newkeys? && both) || Answers(s, m)))
  {
    ProcessDispatches(neg, s, m, env);
    var s0 := s.(requirenext := 0);
    match m
    case Kexinit(cookie) => TakeExits(neg, s0, cookie, env);
    case KexdhInit(e) => InitExits(s0, e, env);
    case KexdhReply(f, signed) => ReplyExits(s0, f, signed);
    case Newkeys =>
    case Other(_, _) =>
  }

  lemma SendExits(s: Session, t: Transcript)
    ensures var r, both := SendNewkeys(s, t), s.kex.sentkexinit && s.kex.recvkexinit;
      && (r.Dead? <==> s.newkeys.None? || !both)
      && (r.Dead? ==> r.why == if s.newkeys.None? then NullNewkeys else UnexpectedNewkeys)
      && (r.Live? ==> r.s.handled == s.handled)
  {}

  lemma InitExits(s: Session, e: nat, env: Env)
    ensures var r, both := RecvKexdhInit(s, e, env), s.kex.sentkexinit && s.kex.recvkexinit;
      && (r.Dead? ==> r.why == if !s.kex.recvkexinit then PrematureInit
                               else if s.newkeys.None? then NullNewkeys else UnexpectedNewkeys)
      && (r.Dead? <==> s.newkeys.None? || !both || !s.kex.recvkexinit)
      && (r.Live? ==> r.s.handled == s.handled)
  {
    var t := Transcript(s.kexhash.0, s.kexhash.1, e, env.secret);
    SendExits(Encrypt(s, KexdhReply(env.secret, t)), t);
  }

  lemma ReplyExits(s: Session, f: nat, signed: Transcript)
    ensures var r, t := RecvKexdhReply(s, f, signed), Transcript(s.kexhash.0, s.kexhash.1, s.dh, f);
      && (r.Dead? ==> r.why == if !s.initSent then OutOfOrderReply else if signed != t then BadSignature
                               else if s.newkeys.None? then NullNewkeys else UnexpectedNewkeys)
      && (r.Dead? <==> !s.initSent || signed != t || s.newkeys.None? || !(s.kex.sentkexinit && s.kex.recvkexinit))
      && (r.Live? ==> r.s.handled == s.handled)
  {
    SendExits(s, Transcript(s.kexhash.0, s.kexhash.1, s.dh, f));
  }

  lemma HandleKeeps(neg: Negotiation, s: Session, m: Message, env: Env)
    ensures var r := Handle(neg, s, m, env); if r.Dead? then r.why != Integrity else r.s.handled == s.handled
  {
    match m
    case Kexinit(cookie) => TakeExits(neg, s, cookie, env);
    case KexdhInit(e) => InitExits(s, e, env);
    case KexdhReply(f, signed) => ReplyExits(s, f, signed);
    case Newkeys =>
    case Other(_, _) =>
  }

  /** A packet that does not decrypt ends the session, and nothing after that is taken for one. */
  lemma IntegrityExit(neg: Negotiation, s: Session, p: Packet, env: Env)
    ensures Receive(neg, s, p, env) == Dead(Integrity) <==> p.key != s.recvkey || p.seqno != s.recvseq
  {
    ProcessDispatches(neg, Arrived(s), p.m, env);
    HandleKeeps(neg, Arrived(s).(requirenext := 0), p.m, env);
  }

  /** Exactly the packets that reach the table are recorded as handled. */
  lemma HandledWhenDispatched(neg: Negotiation, s: Session, m: Message, env: Env)
    ensures var r := Process(neg, s, m, env);
      r.Live? ==> r.s.handled == s.handled + if Dispatched(s, Type(m), env) then [Handled(m, env.authdone)] else []
  {
    ProcessDispatches(neg, s, m, env);
    HandleKeeps(neg, s.(requirenext := 0), m, env);
  }

  /** A packet that does not reach the table changes nothing but the mark to ignore it and the type
      last seen, and at most draws an answer. */
  lemma PassedOver(neg: Negotiation, s: Session, m: Message, env: Env)
    requires !Dispatched(s, Type(m), env)
    ensures var r := Process(neg, s, m, env);
      r.Live? ==> (r.s == s.(ignorenext := r.s.ignorenext, lastpacket := Type(m))
                   || r.s == Unimplemented(s).(lastpacket := Type(m)))
  {}

  /** A message of a later type before authentication ends the session or is ignored. */
  lemma BeforeAuthentication(neg: Negotiation, s: Session, m: Message, env: Env)
    requires !env.authdone && Type(m) > 60
    ensures var r := Process(neg, s, m, env);
      r.Dead? || (s.ignorenext && r == Live(s.(ignorenext := false, lastpacket := Type(m))))
  {}

  /** Nobody handles the packet: it is unknown, or of a type that is allowed but not expected during a
      key exchange. */
  predicate Unclaimed(s: Session, m: Message, env: Env)
  {
    || (m.Other? && Dispatched(s, Type(m), env) && !env.known)
    || (s.requirenext != 0 && s.requirenext != Type(m) && 7 <= Type(m) <= 49 && Type(m) != 20)
  }

  /** Its only effect is an answer that names its sequence number. */
  lemma UnclaimedAnswered(neg: Negotiation, s: Session, p: Packet, env: Env)
    requires Expected(s, p) && p.seqno < SEQUENCE && Unclaimed(s, p.m, env)
    ensures var r := Process(neg, Arrived(s), p.m, env);
      && r.Live? && r.s.out == s.out + [Packet(Other(UNIMPLEMENTED, p.seqno), s.transkey, s.transseq)]
      && r.s.kex == s.kex && r.s.keys == s.keys && r.s.held == s.held
  {
    var s0 := Arrived(s);
    assert (s0.recvseq - 1) % SEQUENCE == p.seqno;
    assert Unimplemented(s0).out == s.out + [Packet(Other(UNIMPLEMENTED, p.seqno), s.transkey, s.transseq)];
  }

  // ------------------------------------------------------------------ what is handled

  /** A message of the key exchange that the endpoint has a handler for. */
  predicate OwnKex(role: Role, m: Message)
  {
    m.Kexinit? || m.Newkeys? || (m.KexdhInit? && role.Server?) || (m.KexdhReply? && role.Client?)
  }

  /** The messages handled, as a key exchange: KEXINIT, one KEXDH message, NEWKEYS, and everything
      else only between exchanges and never before the first. */
  function Hear(role: Role, h: Dir, m: Message): Dir
  {
    match m
    case Kexinit(c) => h.(phase := 1, init := c, ok := h.ok && h.phase == 0)
    case Newkeys => h.(round := h.round + 1, phase := 0, ok := h.ok && h.phase == 2)
    case _ =>
      if OwnKex(role, m) then h.(phase := 2, ok := h.ok && h.phase == 1)
      else h.(ok := h.ok && h.phase == 0 && h.round > 0)
  }

  function Heard(role: Role, handled: seq<Handled>): Dir
  {
    if handled == [] then START else Hear(role, Heard(role, handled[..|handled| - 1]), handled[|handled| - 1].m)
  }

  lemma HeardSnoc(role: Role, handled: seq<Handled>, x: Handled)
    ensures Heard(role, handled + [x]) == Hear(role, Heard(role, handled), x.m)
  {
    assert (handled + [x])[..|handled|] == handled;
  }

  /** No message above the types of user authentication came before it. */
  predicate Gated(handled: seq<Handled>)
  {
    forall i :: 0 <= i < |handled| && Type(handled[i].m) > 60 ==> handled[i].authdone
  }

  /** Key n was derived when packet i, the NEWKEYS of round n, left and message j, the KEXDH message of
      round n, was handled. For a client, what that message signs is the transcript made of the
      client's own KEXINIT and public value and what it received; for a server, it has signed it. */
  ghost predicate Vouch(role: Role, out: seq<Packet>, handled: seq<Handled>, key: Key, n: nat, i: nat, j: nat)
  {
    && i < |out| && out[i].m.Newkeys? && j < |handled|
    && var d, h, m := Run(role, out[..i]), Heard(role, handled[..j]), handled[j].m;
    && d.round == n && h.round == n && h.phase == 1 && key.Derived?
    && if role.Client? then m == KexdhReply(key.t.f, key.t) && key.t == Transcript(d.init, h.init, d.dh, m.f)
       else m == KexdhInit(key.t.e) && d.reply == key.t && key.t == Transcript(h.init, d.init, m.e, d.reply.f)
  }

  ghost predicate Vouched(role: Role, out: seq<Packet>, handled: seq<Handled>, key: Key, n: nat)
  {
    exists i: nat, j: nat :: Vouch(role, out, handled, key, n, i, j)
  }

  ghost predicate AllVouched(s: Session)
  {
    forall n :: 0 <= n < |s.keys| ==> Vouched(s.role, s.out, s.handled, s.keys[n], n)
  }

  lemma VouchedStays(role: Role, out: seq<Packet>, out': seq<Packet>, handled: seq<Handled>, handled': seq<Handled>,
                     key: Key, n: nat)
    requires out <= out' && handled <= handled' && Vouched(role, out, handled, key, n)
    ensures Vouched(role, out', handled', key, n)
  {
    var i: nat, j: nat :| Vouch(role, out, handled, key, n, i, j);
    assert out'[..i] == out[..i] && handled'[..j] == handled[..j];
    assert Vouch(role, out', handled', key, n, i, j);
  }

  lemma AllVouchedStay(s: Session, s': Session)
    requires AllVouched(s) && s'.role == s.role && s.out <= s'.out && s.handled <= s'.handled && s'.keys == s.keys
    ensures AllVouched(s')
  {
    forall n | 0 <= n < |s'.keys| ensures Vouched(s'.role, s'.out, s'.handled, s'.keys[n], n) {
      VouchedStays(s.role, s.out, s'.out, s.handled, s'.handled, s.keys[n], n);
    }
  }

  // ------------------------------------------------------------------ the state of the endpoint

  /** How far the messages handled have brought the exchange. */
  function PhaseOf(kex: KexState): nat
  {
    if kex.sentnewkeys then 2 else if kex.recvkexinit then 1 else 0
  }

  /** `b` counts the KEXDH_INIT that a server ignored, `h` only what was handled. */
  predicate Matches(s: Session, b: Dir, h: Dir)
  {
    h.ok && h.round == b.round && h.phase == PhaseOf(s.kex) && (h.phase >= 1 ==> h.init == b.init)
  }

  ghost predicate Guarded(neg: Negotiation, s: Session, b: Dir)
  {
    && Sound(neg, s, Run(s.role, s.out), b) && Matches(s, b, Heard(s.role, s.handled))
    && Gated(s.handled) && AllVouched(s)
  }

  /** A key exchange body has its own constructor. */
  predicate Wire(m: Message)
  {
    m.Other? ==> !KexType(m.ptype)
  }

  lemma {:induction false} SendAllRest(s: Session, ms: seq<Message>)
    ensures var u := SendAll(s, ms); u == s.(out := u.out, transseq := u.transseq, held := u.held)
    decreases |ms|
  {
    if ms != [] { SendAllRest(Encrypt(s, ms[0]), ms[1..]); }
  }

  lemma FinishRest(s: Session, env: Env)
    ensures var u := Loop(Flush(s), env); u.handled == s.handled && u.kex == s.kex && u.keys == s.keys
  {
    SendAllRest(s, s.held);
  }

  lemma TickRest(s: Session, rekey: bool, env: Env)
    ensures var u := Tick(s, rekey, env);
      u.handled == s.handled && PhaseOf(u.kex) == PhaseOf(s.kex)
  {
    SentKexinit(s, env);
    FinishRest(if rekey && !s.kex.sentkexinit then SendKexinit(s, env) else s, env);
  }

  function Record(s: Session, m: Message, env: Env): seq<Handled>
  {
    if Dispatched(s, Type(m), env) then s.handled + [Handled(m, env.authdone)] else s.handled
  }

  lemma HandledAfter(neg: Negotiation, s: Session, m: Message, env: Env)
    ensures var r := Finish(Process(neg, s, m, env), env);
      r.Live? ==> r.s.handled == Record(s, m, env)
  {
    HandledWhenDispatched(neg, s, m, env);
    var r := Process(neg, s, m, env);
    if r.Live? { FinishRest(r.s, env); }
  }

  lemma RecordGrows(s: Session, m: Message, env: Env)
    requires Gated(s.handled)
    ensures Gated(Record(s, m, env)) && s.handled <= Record(s, m, env)
    ensures var h := Heard(s.role, s.handled);
      Heard(s.role, Record(s, m, env)) == if Dispatched(s, Type(m), env) then Hear(s.role, h, m) else h
  {
    if Dispatched(s, Type(m), env) { HeardSnoc(s.role, s.handled, Handled(m, env.authdone)); }
  }

  /** The books after a step that derives no keys. */
  lemma StepGuarded(neg: Negotiation, s: Session, s': Session, b: Dir, b': Dir, m: Message, env: Env)
    requires Guarded(neg, s, b) && Stepped(neg, s, s', b') && s'.keys == s.keys && s'.handled == Record(s, m, env)
    requires var h := Heard(s.role, s.handled);
      Matches(s', b', if Dispatched(s, Type(m), env) then Hear(s.role, h, m) else h)
    ensures Guarded(neg, s', b')
  {
    RecordGrows(s, m, env);
    AllVouchedStay(s, s');
  }

  // ------------------------------------------------------------------ any packet

  /** The packet goes to a handler of the key exchange. */
  predicate Advances(s: Session, m: Message)
  {
    (s.requirenext == 0 || s.requirenext == Type(m)) && !s.ignorenext && OwnKex(s.role, m)
  }

  predicate Unmoved(s: Session, t: nat, u: Session)
  {
    u == s.(lastpacket := t, handled := u.handled) || u == Unimplemented(s).(lastpacket := t, handled := u.handled)
  }

  lemma ProcessUnmoved(neg: Negotiation, s: Session, a: Dir, b: Dir, m: Message, env: Env)
    requires Stage(neg, s, a, b) && Wire(m) && !Advances(s, m) && !(s.ignorenext && s.requirenext == Type(m))
    ensures var r := Process(neg, s, m, env); r.Live? ==> Unmoved(s, Type(m), r.s) && !m.Kexinit?
    ensures s.initSent ==> !s.kex.sentnewkeys
    ensures Dispatched(s, Type(m), env) ==> !OwnKex(s.role, m) && PhaseOf(s.kex) == 0 && b.round > 0
  {}

  lemma UnmovedKeeps(neg: Negotiation, s: Session, b: Dir, m: Message, env: Env)
    requires Guarded(neg, s, b) && Wire(m) && !Advances(s, m) && !(s.ignorenext && s.requirenext == Type(m))
    ensures var r := Finish(Process(neg, s, m, env), env); r.Live? ==> Guarded(neg, r.s, b)
  {
    var a, r := Run(s.role, s.out), Process(neg, s, m, env);
    ProcessUnmoved(neg, s, a, b, m, env);
    HandledAfter(neg, s, m, env);
    if r.Live? {
      UnmovedSound(neg, s, a, b, Type(m), r.s, env);
      StepGuarded(neg, s, Loop(Flush(r.s), env), b, b, m, env);
    }
  }

  lemma UnmovedSound(neg: Negotiation, s: Session, a: Dir, b: Dir, t: nat, u: Session, env: Env)
    requires Sound(neg, s, a, b) && Unmoved(s, t, u) && t != KEXINIT && (s.initSent ==> !s.kex.sentnewkeys)
    ensures var u' := Loop(Flush(u), env); Stepped(neg, s, u', b) && u'.keys == s.keys && u'.kex == s.kex
  {
    if u == s.(lastpacket := t, handled := u.handled) {
      OtherSound(neg, s, a, b, t, s, u.handled, env);
    } else {
      AfterUnimplemented(neg, s, a, b, t, u.handled, env);
    }
  }

  lemma KexinitKeeps(neg: Negotiation, s: Session, b: Dir, m: Message, env: Env)
    requires Guarded(neg, s, b) && Advances(s, m) && m.Kexinit?
    ensures var r := Finish(Process(neg, s, m, env), env); r.Live? ==> Guarded(neg, r.s, Next(Peer(s.role), b, m))
  {
    var a, r, b' := Run(s.role, s.out), Finish(Process(neg, s, m, env), env), Next(Peer(s.role), b, m);
    HandledAfter(neg, s, m, env);
    if s.role.Client? {
      ClientKexinitStep(neg, s, a, b, m.cookie, env);
    } else {
      ServerKexinitStep(neg, s, a, b, m.cookie, env);
    }
    if r.Live? { StepGuarded(neg, s, r.s, b, b', m, env); }
  }

  lemma NewkeysKeeps(neg: Negotiation, s: Session, b: Dir, m: Message, env: Env)
    requires Guarded(neg, s, b) && Advances(s, m) && m.Newkeys?
    ensures var r := Finish(Process(neg, s, m, env), env); r.Live? ==> Guarded(neg, r.s, Next(Peer(s.role), b, m))
  {
    var a, r, b' := Run(s.role, s.out), Finish(Process(neg, s, m, env), env), Next(Peer(s.role), b, m);
    HandledAfter(neg, s, m, env);
    NewkeysExits(neg, s, m, env);
    if r.Live? {
      NewkeysSound(neg, s, a, b, env);
      StepGuarded(neg, s, r.s, b, b', m, env);
    }
  }

  /** A server that does not like the client's guess drops it unread. */
  lemma GuessKeeps(neg: Negotiation, s: Session, b: Dir, m: Message, env: Env)
    requires Guarded(neg, s, b) && Wire(m) && s.ignorenext && s.requirenext == Type(m)
    ensures m.KexdhInit?
    ensures var r := Finish(Process(neg, s, m, env), env); r.Live? ==> Guarded(neg, r.s, Next(Client, b, m))
  {
    IgnoredSound(neg, s, Run(s.role, s.out), b, m.e, env);
    HandledAfter(neg, s, m, env);
    var s' := s.(ignorenext := false, lastpacket := KEXDH_INIT);
    FinishRest(s', env);
    StepGuarded(neg, s, Loop(Flush(s'), env), b, Next(Client, b, m), m, env);
  }

  lemma AllVouchedNext(s: Session, s': Session, i: nat, j: nat)
    requires AllVouched(s) && s'.role == s.role && s.out <= s'.out && s.handled <= s'.handled
    requires |s'.keys| == |s.keys| + 1 && s.keys <= s'.keys
    requires Vouch(s.role, s'.out, s'.handled, s'.keys[|s.keys|], |s.keys|, i, j)
    ensures AllVouched(s')
  {
    forall n | 0 <= n < |s'.keys| ensures Vouched(s'.role, s'.out, s'.handled, s'.keys[n], n) {
      if n < |s.keys| { VouchedStays(s.role, s.out, s'.out, s.handled, s'.handled, s.keys[n], n); }
    }
  }

  /** The books after the step that derives the next key. */
  lemma KeyGuarded(neg: Negotiation, s: Session, s': Session, b: Dir, b': Dir, m: Message, env: Env, i: nat)
    requires Guarded(neg, s, b) && Stepped(neg, s, s', b') && |s'.keys| == |s.keys| + 1
    requires Dispatched(s, Type(m), env) && s'.handled == Record(s, m, env)
    requires Matches(s', b', Hear(s.role, Heard(s.role, s.handled), m))
    requires Vouch(s.role, s'.out, s'.handled, s'.keys[|s.keys|], |s.keys|, i, |s.handled|)
    ensures Guarded(neg, s', b')
  {
    RecordGrows(s, m, env);
    AllVouchedNext(s, s', i, |s.handled|);
  }

  /** After the KEXDH message the endpoint waits for NEWKEYS. */
  lemma AnsweredMatches(neg: Negotiation, s: Session, s': Session, a': Dir, b: Dir, m: Message)
    requires Stage(neg, s', a', Next(Peer(s.role), b, m)) && s'.role == s.role && OwnKex(s.role, m)
    requires m.KexdhReply? || m.KexdhInit?
    requires Matches(s, b, Heard(s.role, s.handled)) && PhaseOf(s.kex) == 1 && 1 <= b.phase <= 2
    requires a'.round == b.round + 1
    ensures Matches(s', Next(Peer(s.role), b, m), Hear(s.role, Heard(s.role, s.handled), m))
  {}

  /** A reply that is taken finds a client that waits for it, and signs what the client saw. */
  lemma ReplyWanted(neg: Negotiation, s: Session, a: Dir, b: Dir, m: Message, env: Env)
    requires Stage(neg, s, a, b) && Advances(s, m) && m.KexdhReply? && Process(neg, s, m, env).Live?
    ensures Awaiting(neg, s, a, b) && Dispatched(s, Type(m), env)
    ensures m.signed == Transcript(a.init, b.init, a.dh, m.f)
    ensures Process(neg, s, m, env) == Live(Noted(AfterNewkeys(s, m.signed).(requirenext := NEWKEYS), m, env))
  {
    ExchangeExits(neg, s, m, env);
    ProcessReply(neg, s, m.f, m.signed, env);
  }

  /** A client derives keys only from a reply that signs its own view of the exchange. */
  lemma ReplyKeeps(neg: Negotiation, s: Session, b: Dir, m: Message, env: Env)
    requires Guarded(neg, s, b) && Advances(s, m) && m.KexdhReply?
    ensures var r := Finish(Process(neg, s, m, env), env); r.Live? ==> Guarded(neg, r.s, Next(Server, b, m))
  {
    var a := Run(s.role, s.out);
    if Process(neg, s, m, env).Live? {
      ReplyWanted(neg, s, a, b, m, env);
      var s' := Finish(Process(neg, s, m, env), env).s;
      ReplySound(neg, s, a, b, m.f, m.signed, env);
      ReplyVouches(neg, s, a, b, m, s', env);
      AnsweredMatches(neg, s, s', Run(s.role, s'.out), b, m);
      KeyGuarded(neg, s, s', b, Next(Server, b, m), m, env, |s.out|);
    }
  }

  lemma ReplyVouches(neg: Negotiation, s: Session, a: Dir, b: Dir, m: Message, s': Session, env: Env)
    requires s.role.Client? && Books(s, a, b) && Awaiting(neg, s, a, b) && m.KexdhReply?
    requires Matches(s, b, Heard(Client, s.handled)) && m.signed == Transcript(a.init, b.init, a.dh, m.f)
    requires s' == Loop(Flush(Noted(AfterNewkeys(s, m.signed).(requirenext := NEWKEYS), m, env)), env)
    ensures s'.handled == s.handled + [Handled(m, env.authdone)]
    ensures Vouch(Client, s'.out, s'.handled, Derived(m.signed), |s.keys|, |s.out|, |s.handled|)
  {
    var s1 := Noted(AfterNewkeys(s, m.signed).(requirenext := NEWKEYS), m, env);
    RepliedFlushed(s, m.signed, s1);
    FinishRest(s1, env);
    FlushExtends(s1, env);
    assert s'.out[..|s.out|] == s.out && s'.handled[..|s.handled|] == s.handled;
  }

  lemma {:induction false} SendAllExtends(s: Session, ms: seq<Message>)
    ensures s.out <= SendAll(s, ms).out
    decreases |ms|
  {
    if ms != [] { SendAllExtends(Encrypt(s, ms[0]), ms[1..]); }
  }

  lemma FlushExtends(s: Session, env: Env)
    ensures s.out <= Loop(Flush(s), env).out
  {
    SendAllExtends(s, s.held);
  }

  lemma InitWanted(neg: Negotiation, s: Session, a: Dir, b: Dir, m: Message, env: Env)
    requires Stage(neg, s, a, b) && Advances(s, m) && m.KexdhInit? && Process(neg, s, m, env).Live?
    ensures Listening(neg, s, a, b) && Dispatched(s, Type(m), env)
    ensures Process(neg, s, m, env) == Live(Answered(s.(requirenext := 0), m.e, env))
  {
    ExchangeExits(neg, s, m, env);
    ProcessInit(neg, s, m.e, env);
  }

  /** A server signs the transcript of the exchange before it derives keys from it. */
  lemma InitKeeps(neg: Negotiation, s: Session, b: Dir, m: Message, env: Env)
    requires Guarded(neg, s, b) && Advances(s, m) && m.KexdhInit?
    ensures var r := Finish(Process(neg, s, m, env), env); r.Live? ==> Guarded(neg, r.s, Next(Client, b, m))
  {
    var a := Run(s.role, s.out);
    if Process(neg, s, m, env).Live? {
      InitWanted(neg, s, a, b, m, env);
      InitAnswered(neg, s, a, b, m, Loop(Flush(Answered(s.(requirenext := 0), m.e, env)), env), env);
    }
  }

  lemma InitAnswered(neg: Negotiation, s: Session, a: Dir, b: Dir, m: Message, s': Session, env: Env)
    requires Guarded(neg, s, b) && a == Run(s.role, s.out) && s.role.Server? && Listening(neg, s, a, b) && !s.ignorenext
    requires m.KexdhInit? && Dispatched(s, Type(m), env)
    requires s' == Loop(Flush(Answered(s.(requirenext := 0), m.e, env)), env)
    ensures Guarded(neg, s', Next(Client, b, m))
  {
    InitSound(neg, s, a, b, m.e, env);
    InitVouches(s.(requirenext := 0), a, b, m, s', env);
    InitGuarded(neg, s, a, b, m, s', env);
  }

  lemma InitGuarded(neg: Negotiation, s: Session, a: Dir, b: Dir, m: Message, s': Session, env: Env)
    requires Guarded(neg, s, b) && a == Run(s.role, s.out) && s.role.Server? && Listening(neg, s, a, b)
    requires m.KexdhInit? && Dispatched(s, Type(m), env) && Stepped(neg, s, s', Next(Client, b, m))
    requires |s'.keys| == |s.keys| + 1 && s'.handled == s.handled + [Handled(m, env.authdone)]
    requires Vouch(Server, s'.out, s'.handled, s'.keys[|s.keys|], |s.keys|, |s.out| + 1, |s.handled|)
    ensures Guarded(neg, s', Next(Client, b, m))
  {
    AnsweredMatches(neg, s, s', Run(s.role, s'.out), b, m);
    KeyGuarded(neg, s, s', b, Next(Client, b, m), m, env, |s.out| + 1);
  }

  lemma InitVouches(s: Session, a: Dir, b: Dir, m: Message, s': Session, env: Env)
    requires s.role.Server? && a == Run(Server, s.out) && a.round == |s.keys| && s.kexhash == (b.init, a.init)
    requires m.KexdhInit? && Matches(s, b, Heard(Server, s.handled)) && b.round == a.round && PhaseOf(s.kex) == 1
    requires s' == Loop(Flush(Answered(s, m.e, env)), env)
    ensures var t := Transcript(s.kexhash.0, s.kexhash.1, m.e, env.secret);
      && s'.keys == s.keys + [Derived(t)] && s'.handled == s.handled + [Handled(m, env.authdone)]
      && Vouch(Server, s'.out, s'.handled, Derived(t), |s.keys|, |s.out| + 1, |s.handled|)
  {
    var t := Transcript(s.kexhash.0, s.kexhash.1, m.e, env.secret);
    var reply := AnsweredOut(s, m.e, env);
    FinishRest(Answered(s, m.e, env), env);
    FlushExtends(Answered(s, m.e, env), env);
    assert s'.out[..|s.out| + 1] == s.out + [reply] && s'.handled[..|s.handled|] == s.handled;
    RunSnoc(Server, s.out, reply);
  }

  /** The answer is the signed reply, NEWKEYS and, where it is due, EXT_INFO right behind. */
  lemma AnsweredOut(s: Session, e: nat, env: Env) returns (reply: Packet)
    ensures var u, t := Answered(s, e, env), Transcript(s.kexhash.0, s.kexhash.1, e, env.secret);
      && reply.m == KexdhReply(env.secret, t) && |u.out| >= |s.out| + 2 && s.out + [reply] <= u.out
      && u.out[|s.out| + 1].m == Newkeys && |u.out| == |s.out| + (if env.extInfo then 3 else 2)
      && (env.extInfo ==> u.out[|s.out| + 2].m == Other(EXT_INFO, 0)) && u.keys == s.keys + [Derived(t)]
      && u.handled == s.handled + [Handled(KexdhInit(e), env.authdone)]
  {
    var t := Transcript(s.kexhash.0, s.kexhash.1, e, env.secret);
    reply := Packet(KexdhReply(env.secret, t), s.transkey, s.transseq);
  }

  /** Any packet at all. */
  lemma ArriveKeeps(neg: Negotiation, s: Session, b: Dir, p: Packet, env: Env) returns (b': Dir)
    requires Guarded(neg, s, b) && Wire(p.m)
    ensures var r := Receive(neg, s, p, env); r.Live? ==> Guarded(neg, r.s, b')
  {
    var s0, m := Arrived(s), p.m;
    ArrivedSound(neg, s, Run(s.role, s.out), b);
    AllVouchedStay(s, s0);
    if s0.ignorenext && s0.requirenext == Type(m) {
      b' := Next(Client, b, m);
      GuessKeeps(neg, s0, b, m, env);
      assert s0.role.Server?;
    } else if !Advances(s0, m) {
      b' := b;
      UnmovedKeeps(neg, s0, b, m, env);
    } else {
      b' := Next(Peer(s.role), b, m);
      match m
      case Kexinit(_) => KexinitKeeps(neg, s0, b, m, env);
      case Newkeys => NewkeysKeeps(neg, s0, b, m, env);
      case KexdhReply(_, _) => ReplyKeeps(neg, s0, b, m, env);
      case KexdhInit(_) => InitKeeps(neg, s0, b, m, env);
    }
  }

  // ------------------------------------------------------------------ runs

  /** What can happen to an endpoint: any packet, a pass of session_loop, a message to send. */
  datatype Input = Arrive(p: Packet, env: Env) | Pass(rekey: bool, env: Env) | Say(m: Message)

  predicate Proper(i: Input)
  {
    (i.Arrive? ==> Wire(i.p.m)) && (i.Say? ==> i.m.Other? && AppType(i.m.ptype))
  }

  function Take(neg: Negotiation, s: Session, i: Input): Result
  {
    match i
    case Arrive(p, env) => Receive(neg, s, p, env)
    case Pass(rekey, env) => Live(Tick(s, rekey, env))
    case Say(m) => Live(Submit(s, m))
  }

  function Course(neg: Negotiation, r: Result, ins: seq<Input>): Result
    decreases |ins|
  {
    if ins == [] || r.Dead? then r else Course(neg, Take(neg, r.s, ins[0]), ins[1..])
  }

  lemma TakeKeeps(neg: Negotiation, s: Session, b: Dir, i: Input) returns (b': Dir)
    requires Guarded(neg, s, b) && Proper(i)
    ensures var r := Take(neg, s, i); r.Live? ==> Guarded(neg, r.s, b')
  {
    var a := Run(s.role, s.out);
    b' := b;
    match i
    case Arrive(p, env) =>
      b' := ArriveKeeps(neg, s, b, p, env);
    case Pass(rekey, env) =>
      TickSound(neg, s, a, b, rekey, env);
      TickRest(s, rekey, env);
      AllVouchedStay(s, Tick(s, rekey, env));
    case Say(m) =>
      SubmitSound(neg, s, a, b, m);
      AllVouchedStay(s, Submit(s, m));
  }

  lemma {:induction false} CourseKeeps(neg: Negotiation, s: Session, b: Dir, ins: seq<Input>) returns (b': Dir)
    requires Guarded(neg, s, b) && forall i :: i in ins ==> Proper(i)
    ensures var r := Course(neg, Live(s), ins); r.Live? ==> Guarded(neg, r.s, b')
    decreases |ins|
  {
    b' := b;
    if ins != [] {
      b' := TakeKeeps(neg, s, b, ins[0]);
      var r := Take(neg, s, ins[0]);
      if r.Live? { b' := CourseKeeps(neg, r.s, b', ins[1..]); }
    }
  }

  /** What section 7.1 of RFC 4253 allows between KEXINIT and NEWKEYS: transport messages other than a
      service request or accept, no second KEXINIT, and the messages of the method. */
  predicate MidExchange(t: nat)
  {
    (1 <= t <= 19 && t != 5 && t != 6) || 21 <= t <= 49
  }

  ghost predicate Undisturbed(role: Role, out: seq<Packet>)
  {
    forall n :: 0 <= n < |out| && Run(role, out[..n]).phase > 0 ==> MidExchange(Type(out[n].m))
  }

  lemma RunUndisturbed(role: Role, out: seq<Packet>)
    requires Run(role, out).ok
    ensures Undisturbed(role, out)
  {
    forall n | 0 <= n < |out| && Run(role, out[..n]).phase > 0 ensures MidExchange(Type(out[n].m)) {
      RunNext(role, out, n);
      NextMidExchange(role, Run(role, out[..n]), out[n].m);
    }
  }

  lemma NextMidExchange(role: Role, d: Dir, m: Message)
    requires Next(role, d, m).ok && d.phase > 0
    ensures MidExchange(Type(m))
  {}

  /** A pass of session_loop that is told to starts a key exchange, and only if none is under way. */
  lemma RekeyStarts(neg: Negotiation, s: Session, a: Dir, b: Dir, rekey: bool, env: Env)
    requires Sound(neg, s, a, b)
    ensures var u, p := Tick(s, rekey, env), Packet(Kexinit(env.cookie), s.transkey, s.transseq);
      if rekey && !s.kex.sentkexinit then s.out + [p] <= u.out && u.kex.sentkexinit && !u.dataallowed
      else u == s
  {
    if rekey && !s.kex.sentkexinit {
      var u := SendKexinit(s, env);
      assert s.out + [Packet(Kexinit(env.cookie), s.transkey, s.transseq)] <= u.out;
      Quiet(u, env);
    } else {
      Quiet(s, env);
    }
  }

  /** What holds of an endpoint whatever its peer does. What it sends follows the grammar, numbered and
      under the key of its round; what it handles follows the grammar; nothing above user
      authentication came before it; each key comes from its own exchange; it decrypts with the key of
      the exchange that the peer's last NEWKEYS ended; and what was submitted left once and in order. */
  ghost predicate Endures(s: Session)
  {
    var h := Heard(s.role, s.handled);
    && Tagged(s.role, s.out, s.keys) && Undisturbed(s.role, s.out) && h.ok && Gated(s.handled) && AllVouched(s)
    && h.round <= |s.keys| <= h.round + 1 && s.recvkey == KeyAt(s.keys, h.round)
    && (|s.keys| == h.round + 1 <==> h.phase == 2) && s.recvseq == s.got % SEQUENCE
    && Holdable(s.out) + s.held == s.submitted
  }

  lemma GuardedEndures(neg: Negotiation, s: Session, b: Dir)
    requires Guarded(neg, s, b)
    ensures Endures(s)
  {
    RunUndisturbed(s.role, s.out);
  }

  lemma OpenedGuarded(neg: Negotiation, role: Role, env: Env)
    ensures Guarded(neg, Opened(role, env), START)
  {
    OpenedSound(neg, role, env);
  }

  /** Every run of one endpoint, against any peer. */
  lemma AnyPeer(neg: Negotiation, role: Role, env: Env, ins: seq<Input>)
    requires forall i :: i in ins ==> Proper(i)
    ensures var r := Course(neg, Live(Opened(role, env)), ins); r.Live? ==> Endures(r.s)
  {
    OpenedGuarded(neg, role, env);
    var b := CourseKeeps(neg, Opened(role, env), START, ins);
    var r := Course(neg, Live(Opened(role, env)), ins);
    if r.Live? { GuardedEndures(neg, r.s, b); }
  }

  // ------------------------------------------------------------------ the object

  method TakeInput(session: TransportSession, neg: Negotiation, i: Input) returns (exit: Option<Exit>)
    modifies session
    ensures session.Outcome(exit, Take(neg, old(session.State()), i))
  {
    exit := None;
    match i
    case Arrive(p, env) => exit := session.ReceivePacket(neg, p, env);
    case Pass(rekey, env) => session.PassWithoutPacket(rekey, env);
    case Say(m) => session.SubmitMessage(m);
  }

  /** A run of the program against any peer. */
  method Serve(role: Role, neg: Negotiation, env: Env, ins: seq<Input>)
    returns (session: TransportSession, exit: Option<Exit>)
    requires forall i :: i in ins ==> Proper(i)
    ensures session.Outcome(exit, Course(neg, Live(Opened(role, env)), ins))
    ensures exit.None? ==> Endures(session.State())
  {
    session := new TransportSession(role);
    session.SendMsgKexinit(env);
    exit := None;
    AnyPeer(neg, role, env, ins);
    for n := 0 to |ins|
      invariant fresh(session) && exit.None?
      invariant Course(neg, Live(session.State()), ins[n..]) == Course(neg, Live(Opened(role, env)), ins)
    {
      assert ins[n..][0] == ins[n] && ins[n..][1..] == ins[n + 1..];
      exit := TakeInput(session, neg, ins[n]);
      if exit.Some? { return; }
    }
  }
}
