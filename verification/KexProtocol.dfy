/** A client and a server joined by two first-in first-out wires. In every reachable state both
    follow the key exchange grammar, no protocol error exit can happen, both derive the same keys,
    every packet is decrypted with the key and sequence number it was encrypted with, and held
    messages leave once and in order. */
module KexProtocol {
  import opened Common
  import opened KexSpec

  // ------------------------------------------------------------------ grammar of one direction

  /** What a stream of packets amounts to: key exchanges completed, position in the current one
      (0 none, 1 KEXINIT, 2 and 3 after KEXDH_INIT once and twice, or 2 after KEXDH_REPLY), and the last values sent. */
  datatype Dir = Dir(round: nat, phase: nat, init: nat, dh: nat, reply: Transcript, ok: bool)

  const START: Dir := Dir(0, 0, 0, 0, Transcript(0, 0, 0, 0), true)

  function Next(role: Role, d: Dir, m: Message): Dir
  {
    match m
    case Kexinit(c) => d.(phase := 1, init := c, ok := d.ok && d.phase == 0)
    case KexdhInit(e) => d.(phase := d.phase + 1, dh := e, ok := d.ok && role.Client? && 1 <= d.phase <= 2)
    case KexdhReply(f, t) => d.(phase := 2, reply := t, ok := d.ok && role.Server? && d.phase == 1 && t.f == f)
    case Newkeys => d.(round := d.round + 1, phase := 0, ok := d.ok && d.phase >= 2)
    case Other(t, _) => d.(ok := d.ok && AppType(t) && (OkayKex(t) || (d.phase == 0 && d.round > 0)))
  }

  function Run(role: Role, out: seq<Packet>): Dir
  {
    if out == [] then START else Next(role, Run(role, out[..|out| - 1]), out[|out| - 1].m)
  }

  lemma RunSnoc(role: Role, out: seq<Packet>, p: Packet)
    ensures Run(role, out + [p]) == Next(role, Run(role, out), p.m)
  {
    assert (out + [p])[..|out|] == out;
  }

  /** No later key exchange has started. */
  predicate SameRound(p: Dir, q: Dir)
  {
    q.round == p.round || (q.round == p.round + 1 && q.phase == 0)
  }

  /** An earlier state of a stream against a later one: nothing is taken back, and the values of a
      key exchange stay until the next one starts. */
  predicate Leads(p: Dir, q: Dir)
  {
    && p.ok && q.ok && p.phase <= 3 && q.phase <= 3
    && (p.round < q.round || (p.round == q.round && p.phase <= q.phase))
    && (SameRound(p, q) && p.phase >= 1 ==> p.init == q.init)
    && (SameRound(p, q) && p.phase >= 2 ==> p.reply == q.reply)
    && (q.round == p.round && q.phase == p.phase ==> p.dh == q.dh)
  }

  lemma {:induction false} RunLeads(role: Role, out: seq<Packet>, n: nat)
    requires n <= |out| && Run(role, out).ok
    ensures Leads(Run(role, out[..n]), Run(role, out))
  {
    if n == |out| {
      assert out[..n] == out;
      RunPhase(role, out);
    } else {
      var init := out[..|out| - 1];
      RunLeads(role, init, n);
      assert init[..n] == out[..n];
      LeadsNext(role, Run(role, init[..n]), Run(role, init), out[|out| - 1].m);
    }
  }

  lemma LeadsNext(role: Role, p: Dir, q: Dir, m: Message)
    requires Leads(p, q) && Next(role, q, m).ok
    ensures Leads(p, Next(role, q, m))
  {}

  lemma RunPhase(role: Role, out: seq<Packet>)
    requires Run(role, out).ok
    ensures Run(role, out).phase <= 3
  {
    if out != [] { RunPhase(role, out[..|out| - 1]); }
  }

  /** The next packet of a stream. */
  lemma RunNext(role: Role, out: seq<Packet>, n: nat)
    requires n < |out| && Run(role, out).ok
    ensures Run(role, out[..n + 1]) == Next(role, Run(role, out[..n]), out[n].m) && Run(role, out[..n + 1]).ok
  {
    RunLeads(role, out, n + 1);
    assert out[..n + 1][..n] == out[..n];
  }

  // ------------------------------------------------------------------ histories

  function KeyAt(keys: seq<Key>, round: nat): Key
    requires round <= |keys|
  {
    if round == 0 then Initial else keys[round - 1]
  }

  /** Packet n carries sequence number n and the key of its round. */
  ghost predicate Tagged(role: Role, out: seq<Packet>, keys: seq<Key>)
  {
    && Run(role, out).ok && Run(role, out).round == |keys|
    && forall n :: 0 <= n < |out| ==> TaggedAt(role, out, keys, n)
  }

  ghost predicate TaggedAt(role: Role, out: seq<Packet>, keys: seq<Key>, n: nat)
    requires n < |out|
  {
    var d := Run(role, out[..n]);
    out[n].seqno == n % SEQUENCE && d.round <= |keys| && out[n].key == KeyAt(keys, d.round)
  }

  /** The sending side agrees with the stream. */
  ghost predicate Ledger(s: Session)
  {
    Tagged(s.role, s.out, s.keys) && s.transseq == |s.out| % SEQUENCE && s.transkey == KeyAt(s.keys, |s.keys|)
  }

  /** The messages of a stream that a key exchange holds back. */
  function Holdable(out: seq<Packet>): seq<Message>
  {
    if out == [] then []
    else
      var m := out[|out| - 1].m;
      Holdable(out[..|out| - 1]) + if m.Other? && !OkayKex(Type(m)) then [m] else []
  }

  predicate AllHeld(ms: seq<Message>)
  {
    forall m :: m in ms ==> m.Other? && AppType(Type(m)) && !OkayKex(Type(m))
  }

  /** Every message submitted has left, in order, or is still held back. */
  ghost predicate Kept(s: Session)
  {
    AllHeld(s.held) && Holdable(s.out) + s.held == s.submitted
  }

  // ------------------------------------------------------------------ one endpoint

  /** The books of an endpoint: `a` is what it sent, `b` what it received. */
  ghost predicate Books(s: Session, a: Dir, b: Dir)
  {
    && a == Run(s.role, s.out) && Ledger(s) && Kept(s) && b.ok
    && s.recvseq == s.got % SEQUENCE && b.round <= a.round && s.recvkey == KeyAt(s.keys, b.round)
    && (s.dataallowed ==> s.held == [])
  }

  /** No key exchange. */
  predicate Idle(s: Session, a: Dir, b: Dir)
  {
    && a.round == b.round > 0 && a.phase == b.phase == 0
    && s.kex == FRESH && s.dataallowed && s.requirenext == 0 && !s.ignorenext && !s.initSent && s.lastpacket != KEXINIT
  }

  /** KEXINIT sent, none received. */
  predicate Offered(s: Session, a: Dir, b: Dir)
  {
    && a.round == b.round && a.phase == (if s.role.Client? then 2 else 1) && b.phase == 0
    && s.kex == FRESH.(sentkexinit := true) && !s.dataallowed && s.requirenext == (if a.round == 0 then KEXINIT else 0)
    && !s.ignorenext && !s.initSent && s.lastpacket != KEXINIT
    && s.transkexinit == a.init && s.newkeys == Some(NewKeys(false, false, Initial))
    && (s.role.Client? ==> s.dh == a.dh)
  }

  /** The client has both KEXINITs and waits for the reply. */
  predicate Awaiting(neg: Negotiation, s: Session, a: Dir, b: Dir)
  {
    && a.round == b.round && b.phase == 1 && a.phase == (if neg.clientGood(a.init, b.init) then 2 else 3)
    && s.kex == FRESH.(sentkexinit := true, recvkexinit := true, matches := neg.clientGood(a.init, b.init))
    && !s.dataallowed && s.requirenext == KEXDH_REPLY && !s.ignorenext && s.initSent
    && s.kexhash == (a.init, b.init) && s.newkeys == Some(NewKeys(false, false, Initial)) && s.dh == a.dh
  }

  /** The server has both KEXINITs and waits for a KEXDH_INIT it does not ignore. */
  predicate Listening(neg: Negotiation, s: Session, a: Dir, b: Dir)
  {
    && a.round == b.round && a.phase == 1
    && (b.phase == 1 || (b.phase == 2 && !neg.serverGood(b.init, a.init)))
    && s.ignorenext == (b.phase == 1 && !neg.serverGood(b.init, a.init))
    && s.kex == FRESH.(sentkexinit := true, recvkexinit := true)
    && !s.dataallowed && s.requirenext == KEXDH_INIT && !s.initSent
    && s.kexhash == (b.init, a.init) && s.newkeys == Some(NewKeys(false, false, Initial))
  }

  /** NEWKEYS sent, the peer's not received. */
  predicate Switched(s: Session, a: Dir, b: Dir)
  {
    && a.round == b.round + 1 && a.phase == 0 && b.phase >= 2 && |s.keys| == a.round
    && s.kex.(matches := false) == KexState(true, true, true, false, false)
    && s.dataallowed && s.requirenext == NEWKEYS && !s.ignorenext && !s.initSent && s.lastpacket != KEXINIT
    && s.newkeys == Some(NewKeys(true, false, s.keys[a.round - 1]))
  }

  /** The reply a server signed in its current round. */
  predicate Signed(neg: Negotiation, s: Session, a: Dir, b: Dir)
  {
    && |s.keys| == a.round > 0 && s.keys[a.round - 1] == Derived(a.reply)
    && a.reply.ic == b.init && a.reply.ir == a.init
    && (b.phase == 2 ==> neg.serverGood(b.init, a.init))
    && (b.phase == (if neg.serverGood(b.init, a.init) then 2 else 3) ==> a.reply.e == b.dh)
  }

  /** Where an endpoint stands in the key exchange. */
  predicate Stage(neg: Negotiation, s: Session, a: Dir, b: Dir)
  {
    || Idle(s, a, b)
    || Offered(s, a, b)
    || (s.role.Client? && (Awaiting(neg, s, a, b) || (Switched(s, a, b) && b.phase == 2)))
    || (s.role.Server? && (Listening(neg, s, a, b) || (Switched(s, a, b) && Signed(neg, s, a, b))))
  }

  ghost predicate Sound(neg: Negotiation, s: Session, a: Dir, b: Dir)
  {
    Books(s, a, b) && Stage(neg, s, a, b)
  }

  // ------------------------------------------------------------------ sending

  lemma TaggedSnoc(role: Role, out: seq<Packet>, keys: seq<Key>, p: Packet, keys': seq<Key>)
    requires Tagged(role, out, keys) && keys <= keys' && Next(role, Run(role, out), p.m).ok
    requires p.seqno == |out| % SEQUENCE && p.key == KeyAt(keys, |keys|)
    requires Next(role, Run(role, out), p.m).round == |keys'|
    ensures Tagged(role, out + [p], keys') && Run(role, out + [p]) == Next(role, Run(role, out), p.m)
  {
    var out' := out + [p];
    RunSnoc(role, out, p);
    forall n | 0 <= n < |out'| ensures TaggedAt(role, out', keys', n) {
      if n < |out| {
        assert TaggedAt(role, out, keys, n);
        assert out'[..n] == out[..n];
      } else {
        assert out'[..n] == out;
      }
    }
  }

  lemma HoldableSnoc(out: seq<Packet>, p: Packet)
    ensures Holdable(out + [p]) == Holdable(out) + if p.m.Other? && !OkayKex(Type(p.m)) then [p.m] else []
  {
    assert (out + [p])[..|out|] == out;
  }

  /** A message of the key exchange other than NEWKEYS, or one allowed at any time, leaves at once. */
  lemma EncryptDirect(s: Session, m: Message)
    requires Ledger(s) && Kept(s) && (s.dataallowed || OkayKex(Type(m))) && !m.Newkeys?
    requires m.Other? ==> OkayKex(Type(m))
    requires Next(s.role, Run(s.role, s.out), m).ok
    ensures var s' := Encrypt(s, m);
      Ledger(s') && Kept(s') && Run(s.role, s'.out) == Next(s.role, Run(s.role, s.out), m)
    ensures var s' := Encrypt(s, m); s' == s.(out := s'.out, transseq := s'.transseq)
  {
    var s' := Encrypt(s, m);
    TaggedSnoc(s.role, s.out, s.keys, s'.out[|s.out|], s'.keys);
    HoldableSnoc(s.out, s'.out[|s.out|]);
    CountNext(|s.out|);
  }

  lemma CountNext(n: nat)
    ensures (n % SEQUENCE + 1) % SEQUENCE == (n + 1) % SEQUENCE
  {}

  lemma SendOneKept(s: Session, m: Message, rest: seq<Message>)
    requires Ledger(s) && AllHeld([m]) && Holdable(s.out) + ([m] + rest) == s.submitted
    requires s.dataallowed && Run(s.role, s.out).phase == 0 && Run(s.role, s.out).round > 0
    ensures var s' := Encrypt(s, m);
      && Ledger(s') && Holdable(s'.out) + rest == s.submitted && Run(s.role, s'.out) == Run(s.role, s.out)
      && s.out <= s'.out && s' == s.(out := s'.out, transseq := s'.transseq)
  {
    var p := Packet(m, s.transkey, s.transseq);
    assert m in [m];
    TaggedSnoc(s.role, s.out, s.keys, p, s.keys);
    HoldableSnoc(s.out, p);
    CountNext(|s.out|);
    assert Holdable(s.out) + [m] + rest == Holdable(s.out) + ([m] + rest);
  }

  /** Held messages leave in order. */
  lemma {:induction false} SendAllKept(s: Session, ms: seq<Message>)
    requires Ledger(s) && AllHeld(ms) && Holdable(s.out) + ms == s.submitted
    requires s.dataallowed && Run(s.role, s.out).phase == 0 && Run(s.role, s.out).round > 0
    ensures var s' := SendAll(s, ms);
      && Ledger(s') && Holdable(s'.out) == s.submitted && Run(s.role, s'.out) == Run(s.role, s.out)
      && s.out <= s'.out && s' == s.(out := s'.out, transseq := s'.transseq)
    decreases |ms|
  {
    if ms == [] {
      assert Holdable(s.out) + [] == Holdable(s.out);
    } else {
      assert ms[0] in ms && ms == [ms[0]] + ms[1..];
      SendOneKept(s, ms[0], ms[1..]);
      SendAllKept(Encrypt(s, ms[0]), ms[1..]);
    }
  }

  lemma FlushKept(s: Session)
    requires Ledger(s) && Kept(s)
    requires s.dataallowed ==> Run(s.role, s.out).phase == 0 && Run(s.role, s.out).round > 0
    ensures var s' := Flush(s);
      && Ledger(s') && Kept(s') && Run(s.role, s'.out) == Run(s.role, s.out)
      && s.out <= s'.out && s' == s.(out := s'.out, transseq := s'.transseq, held := s'.held)
      && (s.dataallowed ==> s'.held == [])
  {
    if s.dataallowed {
      SendAllKept(s, s.held);
      var s' := Flush(s);
      assert Holdable(s'.out) + [] == Holdable(s'.out);
    }
  }

  function AfterNewkeys(s: Session, t: Transcript): Session
  {
    s.(out := s.out + [Packet(Newkeys, s.transkey, s.transseq)], transseq := (s.transseq + 1) % SEQUENCE,
       kex := s.kex.(sentnewkeys := true), dataallowed := true,
       newkeys := Some(NewKeys(true, false, Derived(t))), transkey := Derived(t), keys := s.keys + [Derived(t)])
  }

  lemma SendNewkeysShape(s: Session, t: Transcript)
    requires s.kex.(matches := false) == FRESH.(sentkexinit := true, recvkexinit := true) && s.newkeys.Some?
    ensures SendNewkeys(s, t) == Live(AfterNewkeys(s, t))
  {}

  /** NEWKEYS is the last packet under the old key. */
  lemma SendNewkeysLedger(s: Session, t: Transcript)
    requires Ledger(s) && Kept(s) && Next(s.role, Run(s.role, s.out), Newkeys).ok
    ensures var s' := AfterNewkeys(s, t);
      Ledger(s') && Kept(s') && Run(s.role, s'.out) == Next(s.role, Run(s.role, s.out), Newkeys)
  {
    var p := Packet(Newkeys, s.transkey, s.transseq);
    TaggedSnoc(s.role, s.out, s.keys, p, s.keys + [Derived(t)]);
    HoldableSnoc(s.out, p);
    CountNext(|s.out|);
  }

  // ------------------------------------------------------------------ steps of one endpoint

  function Peer(role: Role): Role
  {
    if role.Client? then Server else Client
  }

  /** After an uneventful packet nothing is flushed and the loop handler does nothing. */
  lemma Quiet(s: Session, env: Env)
    requires s.dataallowed ==> s.held == []
    requires s.initSent ==> !s.kex.sentnewkeys
    requires s.lastpacket == KEXINIT ==> s.initSent || s.role.Server?
    ensures Loop(Flush(s), env) == s
  {}

  /** The receiver of packet p expects its key and its sequence number. */
  predicate Expected(s: Session, p: Packet)
  {
    p.key == s.recvkey && p.seqno == s.recvseq
  }

  predicate KexType(t: nat)
  {
    t == KEXINIT || t == NEWKEYS || t == KEXDH_INIT || t == KEXDH_REPLY
  }

  predicate OtherOutcome(s: Session, t: nat, r: Result)
  {
    && (r.Dead? ==> r.why == Disconnected || r.why == BeforeUserauth)
    && (r.Live? ==> var h := r.s.handled;
          r.s == s.(lastpacket := t, handled := h) || r.s == Unimplemented(s).(lastpacket := t, handled := h))
  }

  lemma ProcessOther(neg: Negotiation, s: Session, m: Message, env: Env)
    requires m.Other? && AppType(m.ptype) && (s.requirenext == 0 || (KexType(s.requirenext) && OkayKex(m.ptype)))
    requires s.ignorenext ==> s.requirenext != 0
    ensures OtherOutcome(s, m.ptype, Process(neg, s, m, env))
  {}

  /** Stages do not depend on the histories or on the type of an uneventful packet. */
  lemma StageKept(neg: Negotiation, s: Session, s': Session, a: Dir, b: Dir)
    requires Stage(neg, s, a, b) && (s'.lastpacket != KEXINIT || s'.lastpacket == s.lastpacket)
    requires s' == s.(recvseq := s'.recvseq, got := s'.got, out := s'.out, transseq := s'.transseq, held := s'.held,
                      lastpacket := s'.lastpacket, submitted := s'.submitted, handled := s'.handled)
    ensures Stage(neg, s', a, b)
  {}

  lemma StageRequires(neg: Negotiation, s: Session, a: Dir, b: Dir, m: Message)
    requires Stage(neg, s, a, b) && m.Other? && Next(Peer(s.role), b, m).ok
    ensures AppType(m.ptype) && (s.requirenext == 0 || (KexType(s.requirenext) && OkayKex(m.ptype)))
    ensures (s.ignorenext ==> s.requirenext != 0) && (s.initSent ==> !s.kex.sentnewkeys)
  {}

  lemma ArrivedSound(neg: Negotiation, s: Session, a: Dir, b: Dir)
    requires Sound(neg, s, a, b)
    ensures Sound(neg, Arrived(s), a, b)
  {
    CountNext(s.got);
    StageKept(neg, s, Arrived(s), a, b);
  }

  /** A step that appends to the histories of s; b' is what it has now received. */
  ghost predicate Stepped(neg: Negotiation, s: Session, s': Session, b': Dir)
  {
    && s'.role == s.role && s'.got == s.got && s.out <= s'.out && s.keys <= s'.keys
    && Sound(neg, s', Run(s.role, s'.out), b')
  }

  lemma OtherSound(neg: Negotiation, s: Session, a: Dir, b: Dir, t: nat, u: Session, h: seq<Handled>, env: Env)
    requires Sound(neg, s, a, b) && t != KEXINIT && (s.initSent ==> !s.kex.sentnewkeys)
    requires Ledger(u) && Kept(u) && Run(s.role, u.out) == a && s.out <= u.out
             && u == s.(out := u.out, transseq := u.transseq)
    ensures var s' := u.(lastpacket := t, handled := h);
      Loop(Flush(s'), env) == s' && Stepped(neg, s, s', b) && s'.keys == s.keys
  {
    Quiet(u.(lastpacket := t, handled := h), env);
    StageKept(neg, s, u.(lastpacket := t, handled := h), a, b);
  }

  /** What an endpoint may do with a packet that is not part of a key exchange. */
  lemma AfterOther(neg: Negotiation, s: Session, a: Dir, b: Dir, m: Message, r: Result, env: Env)
    requires Sound(neg, s, a, b) && m.Other? && Next(Peer(s.role), b, m).ok && OtherOutcome(s, m.ptype, r)
    ensures var r' := Finish(r, env);
      && (r'.Dead? ==> r'.why == Disconnected || r'.why == BeforeUserauth)
      && (r'.Live? ==> Stepped(neg, s, r'.s, b) && r'.s.keys == s.keys)
  {
    StageRequires(neg, s, a, b, m);
    if r.Live? && r.s == s.(lastpacket := m.ptype, handled := r.s.handled) {
      OtherSound(neg, s, a, b, m.ptype, s, r.s.handled, env);
    } else if r.Live? {
      AfterUnimplemented(neg, s, a, b, m.ptype, r.s.handled, env);
    }
  }

  lemma AfterUnimplemented(neg: Negotiation, s: Session, a: Dir, b: Dir, t: nat, h: seq<Handled>, env: Env)
    requires Sound(neg, s, a, b) && t != KEXINIT && (s.initSent ==> !s.kex.sentnewkeys)
    ensures var s' := Unimplemented(s).(lastpacket := t, handled := h);
      Loop(Flush(s'), env) == s' && Stepped(neg, s, s', b) && s'.keys == s.keys
  {
    var u := Unimplemented(s);
    UnimplementedKept(s, u);
    OtherSound(neg, s, a, b, t, u, h, env);
  }

  lemma UnimplementedKept(s: Session, u: Session)
    requires Ledger(s) && Kept(s) && u == Unimplemented(s)
    ensures Ledger(u) && Kept(u) && Run(s.role, u.out) == Run(s.role, s.out)
    ensures s.out <= u.out && u == s.(out := u.out, transseq := u.transseq)
  {
    EncryptDirect(s, Other(UNIMPLEMENTED, (s.recvseq - 1) % SEQUENCE));
  }

  // KEXINIT

  lemma OfferSound(neg: Negotiation, s: Session, a: Dir, b: Dir, env: Env)
    requires Books(s, a, b) && Idle(s, a, b)
    ensures var s' := SendKexinit(s, env);
      Stepped(neg, s, s', b) && s'.keys == s.keys && Offered(s', Run(s.role, s'.out), b)
  {
    EncryptDirect(s, Kexinit(env.cookie));
    if s.role.Client? { EncryptDirect(Offer(s, env), KexdhInit(env.secret)); }
  }

  lemma ProcessKexinit(neg: Negotiation, s: Session, cookie: nat, env: Env)
    requires (s.requirenext == 0 || s.requirenext == KEXINIT) && !s.ignorenext
    ensures var s0 := s.(requirenext := 0);
      var r := TakeKexinit(neg, if s.kex.sentkexinit then s0 else SendKexinit(s0, env), cookie);
      Process(neg, s, Kexinit(cookie), env) == if r.Dead? then r else Live(Noted(r.s, Kexinit(cookie), env))
  {}

  lemma ClientKexinit(neg: Negotiation, s: Session, a: Dir, b: Dir, cookie: nat, env: Env)
    requires s.role.Client? && Books(s, a, b) && Offered(s, a, b)
    ensures var r := TakeKexinit(neg, s, cookie);
      && (r.Dead? ==> r.why == NoMatchingAlgo && !neg.common(a.init, cookie))
      && (r.Live? ==>
            var s' := Loop(Flush(Noted(r.s, Kexinit(cookie), env)), env);
            Stepped(neg, s, s', Next(Server, b, Kexinit(cookie))) && s'.keys == s.keys)
  {
    if neg.common(a.init, cookie) {
      var s1 := Noted(TakeKexinit(neg, s, cookie).s, Kexinit(cookie), env);
      assert s1 == s.(kexhash := (a.init, cookie), requirenext := KEXDH_REPLY, lastpacket := KEXINIT,
                      handled := s1.handled,
                      kex := s.kex.(recvkexinit := true, matches := neg.clientGood(a.init, cookie)));
      assert Ledger(s1) && Kept(s1);
      EncryptDirect(s1, KexdhInit(env.second));
    }
  }

  lemma ServerKexinit(neg: Negotiation, s: Session, a: Dir, b: Dir, cookie: nat, env: Env)
    requires s.role.Server? && Books(s, a, b) && Offered(s, a, b)
    ensures var r := TakeKexinit(neg, s, cookie);
      && (r.Dead? ==> r.why == NoMatchingAlgo && !neg.common(cookie, a.init))
      && (r.Live? ==>
            var s' := Loop(Flush(Noted(r.s, Kexinit(cookie), env)), env);
            Stepped(neg, s, s', Next(Client, b, Kexinit(cookie))) && s'.keys == s.keys)
  {}

  /** The expected type does not matter to the rest of recv_msg_kexinit. */
  lemma TakeKexinitAny(neg: Negotiation, s: Session, cookie: nat, t: nat)
    ensures TakeKexinit(neg, s.(requirenext := t), cookie) == TakeKexinit(neg, s, cookie)
  {}

  // KEXDH_REPLY and KEXDH_INIT

  lemma ProcessReply(neg: Negotiation, s: Session, f: nat, signed: Transcript, env: Env)
    requires s.role.Client? && s.requirenext == KEXDH_REPLY && !s.ignorenext && s.initSent && s.newkeys.Some?
    requires s.kex.(matches := false) == FRESH.(sentkexinit := true, recvkexinit := true)
    ensures var t := Transcript(s.kexhash.0, s.kexhash.1, s.dh, f);
      Process(neg, s, KexdhReply(f, signed), env) ==
      if signed != t then Dead(BadSignature)
      else Live(Noted(AfterNewkeys(s, t).(requirenext := NEWKEYS), KexdhReply(f, signed), env))
  {
    SendNewkeysShape(s.(requirenext := 0), Transcript(s.kexhash.0, s.kexhash.1, s.dh, f));
  }

  lemma ReplySound(neg: Negotiation, s: Session, a: Dir, b: Dir, f: nat, t: Transcript, env: Env)
    requires s.role.Client? && Books(s, a, b) && Awaiting(neg, s, a, b) && t.f == f
    ensures var s' := Loop(Flush(Noted(AfterNewkeys(s, t).(requirenext := NEWKEYS), KexdhReply(f, t), env)), env);
      Stepped(neg, s, s', Next(Server, b, KexdhReply(f, t))) && s'.keys == s.keys + [Derived(t)]
  {
    var s1 := Noted(AfterNewkeys(s, t).(requirenext := NEWKEYS), KexdhReply(f, t), env);
    RepliedFlushed(s, t, s1);
    var s2 := Flush(s1);
    assert Loop(s2, env) == s2.(initSent := false);
  }

  lemma RepliedFlushed(s: Session, t: Transcript, s1: Session)
    requires Ledger(s) && Kept(s) && Next(s.role, Run(s.role, s.out), Newkeys).ok
    requires s1 == AfterNewkeys(s, t).(requirenext := NEWKEYS, lastpacket := KEXDH_REPLY, handled := s1.handled)
    ensures var s' := Flush(s1);
      && Ledger(s') && Kept(s') && Run(s.role, s'.out) == Next(s.role, Run(s.role, s.out), Newkeys)
      && s.out <= s'.out && s' == s1.(out := s'.out, transseq := s'.transseq, held := []) && s'.held == []
  {
    SendNewkeysLedger(s, t);
    assert Ledger(s1) && Kept(s1);
    FlushKept(s1);
  }

  /** The server's whole answer, before held messages follow. */
  function Answered(s: Session, e: nat, env: Env): Session
  {
    var t := Transcript(s.kexhash.0, s.kexhash.1, e, env.secret);
    var s' := AfterNewkeys(Encrypt(s, KexdhReply(env.secret, t)), t);
    Noted((if env.extInfo then Encrypt(s', Other(EXT_INFO, 0)) else s').(requirenext := NEWKEYS), KexdhInit(e), env)
  }

  lemma ProcessInit(neg: Negotiation, s: Session, e: nat, env: Env)
    requires s.role.Server? && s.requirenext == KEXDH_INIT && !s.ignorenext && s.newkeys.Some?
    requires s.kex == FRESH.(sentkexinit := true, recvkexinit := true)
    ensures Process(neg, s, KexdhInit(e), env) == Live(Answered(s.(requirenext := 0), e, env))
  {
    HandleInit(s.(requirenext := 0), e, env);
  }

  lemma HandleInit(s: Session, e: nat, env: Env)
    requires s.newkeys.Some? && s.kex == FRESH.(sentkexinit := true, recvkexinit := true)
    ensures var r := RecvKexdhInit(s, e, env); r.Live? && Noted(r.s, KexdhInit(e), env) == Answered(s, e, env)
  {
    var t := Transcript(s.kexhash.0, s.kexhash.1, e, env.secret);
    SendNewkeysShape(Encrypt(s, KexdhReply(env.secret, t)), t);
  }

  /** The reply and NEWKEYS. */
  lemma RepliedLedger(s: Session, t: Transcript)
    requires s.role.Server? && Ledger(s) && Kept(s) && Run(Server, s.out).phase == 1
    ensures var s', d := AfterNewkeys(Encrypt(s, KexdhReply(t.f, t)), t), Run(Server, s.out);
      && Ledger(s') && Kept(s') && Run(Server, s'.out) == d.(round := d.round + 1, phase := 0, reply := t)
      && s.out <= s'.out && s' == AfterNewkeys(s, t).(out := s'.out, transseq := s'.transseq)
  {
    EncryptDirect(s, KexdhReply(t.f, t));
    SendNewkeysLedger(Encrypt(s, KexdhReply(t.f, t)), t);
  }

  lemma AnsweredLedger(s: Session, e: nat, env: Env)
    requires s.role.Server? && Ledger(s) && Kept(s) && Run(Server, s.out).phase == 1
    ensures var s', t := Answered(s, e, env), Transcript(s.kexhash.0, s.kexhash.1, e, env.secret);
      && s.out <= s'.out
      && s' == AfterNewkeys(s, t).(out := s'.out, transseq := s'.transseq, requirenext := NEWKEYS,
                                   lastpacket := KEXDH_INIT, handled := s'.handled)
    ensures var s', d := Answered(s, e, env), Run(Server, s.out);
      && Ledger(s') && Kept(s')
      && Run(Server, s'.out) == d.(round := d.round + 1, phase := 0,
                                   reply := Transcript(s.kexhash.0, s.kexhash.1, e, env.secret))
  {
    var t := Transcript(s.kexhash.0, s.kexhash.1, e, env.secret);
    RepliedLedger(s, t);
    if env.extInfo { EncryptDirect(AfterNewkeys(Encrypt(s, KexdhReply(t.f, t)), t), Other(EXT_INFO, 0)); }
  }

  lemma InitSound(neg: Negotiation, s: Session, a: Dir, b: Dir, e: nat, env: Env)
    requires s.role.Server? && Books(s, a, b) && Listening(neg, s, a, b) && !s.ignorenext
    ensures var s' := Loop(Flush(Answered(s.(requirenext := 0), e, env)), env);
      Stepped(neg, s, s', Next(Client, b, KexdhInit(e)))
  {
    AnsweredLedger(s.(requirenext := 0), e, env);
    FlushKept(Answered(s.(requirenext := 0), e, env));
  }

  lemma IgnoredSound(neg: Negotiation, s: Session, a: Dir, b: Dir, e: nat, env: Env)
    requires s.role.Server? && Books(s, a, b) && Listening(neg, s, a, b) && s.ignorenext
    ensures var r := Process(neg, s, KexdhInit(e), env);
      && r == Live(s.(ignorenext := false, lastpacket := KEXDH_INIT))
      && Stepped(neg, s, Loop(Flush(r.s), env), Next(Client, b, KexdhInit(e)))
  {
    Quiet(s.(ignorenext := false, lastpacket := KEXDH_INIT), env);
  }

  lemma ExtraInitSound(neg: Negotiation, s: Session, a: Dir, b: Dir, e: nat, env: Env)
    requires s.role.Server? && Books(s, a, b) && Switched(s, a, b) && Signed(neg, s, a, b) && b.phase == 2
    ensures var r := Process(neg, s, KexdhInit(e), env);
      r.Live? && Stepped(neg, s, Loop(Flush(r.s), env), Next(Client, b, KexdhInit(e)))
  {
    EncryptDirect(s, Other(UNIMPLEMENTED, (s.recvseq - 1) % SEQUENCE));
    Quiet(Process(neg, s, KexdhInit(e), env).s, env);
  }

  // NEWKEYS

  lemma NewkeysSound(neg: Negotiation, s: Session, a: Dir, b: Dir, env: Env)
    requires Books(s, a, b) && Switched(s, a, b)
    ensures var r := Process(neg, s, Newkeys, env);
      && r.Live? && Stepped(neg, s, Loop(Flush(r.s), env), Next(Peer(s.role), b, Newkeys))
      && Loop(Flush(r.s), env).keys == s.keys
  {
    var r := Process(neg, s, Newkeys, env);
    assert r == Live(s.(requirenext := 0, recvkey := s.keys[a.round - 1], newkeys := None, kex := FRESH,
                        lastpacket := NEWKEYS, handled := s.handled + [Handled(Newkeys, env.authdone)]));
    Quiet(r.s, env);
  }

  // steps without a packet

  lemma TickSound(neg: Negotiation, s: Session, a: Dir, b: Dir, rekey: bool, env: Env)
    requires Sound(neg, s, a, b)
    ensures Stepped(neg, s, Tick(s, rekey, env), b) && Tick(s, rekey, env).keys == s.keys
  {
    if rekey && !s.kex.sentkexinit {
      OfferSound(neg, s, a, b, env);
      Quiet(SendKexinit(s, env), env);
    } else {
      Quiet(s, env);
    }
  }

  lemma SubmitSound(neg: Negotiation, s: Session, a: Dir, b: Dir, m: Message)
    requires Sound(neg, s, a, b) && m.Other? && AppType(m.ptype)
    ensures Stepped(neg, s, Submit(s, m), b) && Submit(s, m).keys == s.keys
  {
    if OkayKex(m.ptype) {
      EncryptDirect(s, m);
    } else {
      SubmitHoldable(s, a, m);
    }
    StageKept(neg, s, Submit(s, m), a, b);
  }

  lemma SubmitHoldable(s: Session, a: Dir, m: Message)
    requires Ledger(s) && Kept(s) && a == Run(s.role, s.out) && m.Other? && AppType(m.ptype) && !OkayKex(m.ptype)
    requires s.dataallowed ==> s.held == [] && a.phase == 0 && a.round > 0
    ensures var s' := Submit(s, m);
      && Ledger(s') && Kept(s') && Run(s.role, s'.out) == a && s.out <= s'.out && (s.dataallowed ==> s'.held == [])
      && s' == s.(out := s'.out, transseq := s'.transseq, held := s'.held, submitted := s'.submitted)
  {
    if s.dataallowed {
      var p := Packet(m, s.transkey, s.transseq);
      TaggedSnoc(s.role, s.out, s.keys, p, s.keys);
      HoldableSnoc(s.out, p);
      CountNext(|s.out|);
    }
  }

  // ------------------------------------------------------------------ any packet

  ghost predicate AlwaysCommon(neg: Negotiation)
  {
    forall ic, ir :: neg.common(ic, ir)
  }

  /** Both sides judge the client's guess alike. */
  ghost predicate Agree(neg: Negotiation)
  {
    forall ic, ir :: neg.clientGood(ic, ir) == neg.serverGood(ic, ir)
  }

  /** The exits that a correct peer can bring about. */
  ghost predicate Harmless(neg: Negotiation, why: Exit)
  {
    || why == Disconnected || why == BeforeUserauth
    || (why == NoMatchingAlgo && !AlwaysCommon(neg)) || (why == BadSignature && !Agree(neg))
  }

  lemma ClientKexinitStep(neg: Negotiation, s: Session, a: Dir, b: Dir, cookie: nat, env: Env)
    requires Sound(neg, s, a, b) && s.role.Client? && b.phase == 0
    ensures var r := Finish(Process(neg, s, Kexinit(cookie), env), env);
      && (r.Dead? ==> r.why == NoMatchingAlgo && !AlwaysCommon(neg))
      && (r.Live? ==> Stepped(neg, s, r.s, Next(Server, b, Kexinit(cookie))) && r.s.keys == s.keys)
  {
    ProcessKexinit(neg, s, cookie, env);
    if s.kex.sentkexinit {
      TakeKexinitAny(neg, s, cookie, 0);
      ClientKexinit(neg, s, a, b, cookie, env);
    } else {
      OfferSound(neg, s, a, b, env);
      var s1 := SendKexinit(s, env);
      ClientKexinit(neg, s1, Run(Client, s1.out), b, cookie, env);
    }
  }

  lemma ServerKexinitStep(neg: Negotiation, s: Session, a: Dir, b: Dir, cookie: nat, env: Env)
    requires Sound(neg, s, a, b) && s.role.Server? && b.phase == 0
    ensures var r := Finish(Process(neg, s, Kexinit(cookie), env), env);
      && (r.Dead? ==> r.why == NoMatchingAlgo && !AlwaysCommon(neg))
      && (r.Live? ==> Stepped(neg, s, r.s, Next(Client, b, Kexinit(cookie))) && r.s.keys == s.keys)
  {
    ProcessKexinit(neg, s, cookie, env);
    if s.kex.sentkexinit {
      TakeKexinitAny(neg, s, cookie, 0);
      ServerKexinit(neg, s, a, b, cookie, env);
    } else {
      OfferSound(neg, s, a, b, env);
      var s1 := SendKexinit(s, env);
      ServerKexinit(neg, s1, Run(Server, s1.out), b, cookie, env);
    }
  }

  /** Everything a client can receive; `signed` is the transcript a reply has to carry. */
  lemma ClientStep(neg: Negotiation, s: Session, a: Dir, b: Dir, m: Message, env: Env)
    requires Sound(neg, s, a, b) && s.role.Client? && Next(Server, b, m).ok
    requires m.KexdhReply? && Agree(neg) ==> m.signed == Transcript(a.init, b.init, a.dh, m.f)
    ensures m.KexdhReply? ==> Awaiting(neg, s, a, b)
    ensures var r := Finish(Process(neg, s, m, env), env);
      && (r.Dead? ==> Harmless(neg, r.why))
      && (r.Live? ==> Stepped(neg, s, r.s, Next(Server, b, m)))
      && (r.Live? ==> r.s.keys == s.keys + if m.KexdhReply? then [Derived(m.signed)] else [])
  {
    match m
    case Other(_, _) =>
      StageRequires(neg, s, a, b, m);
      ProcessOther(neg, s, m, env);
      AfterOther(neg, s, a, b, m, Process(neg, s, m, env), env);
    case Kexinit(cookie) =>
      ClientKexinitStep(neg, s, a, b, cookie, env);
    case KexdhReply(f, signed) =>
      ProcessReply(neg, s, f, signed, env);
      if signed == Transcript(a.init, b.init, a.dh, f) { ReplySound(neg, s, a, b, f, signed, env); }
    case Newkeys =>
      NewkeysSound(neg, s, a, b, env);
    case KexdhInit(_) =>
  }

  /** Everything a server can receive, unless NEWKEYS comes before its reply went out. */
  lemma ServerStep(neg: Negotiation, s: Session, a: Dir, b: Dir, m: Message, env: Env)
    requires Sound(neg, s, a, b) && s.role.Server? && Next(Client, b, m).ok
    requires m.Newkeys? ==> a.round > b.round
    ensures var r := Finish(Process(neg, s, m, env), env);
      (r.Dead? ==> Harmless(neg, r.why)) && (r.Live? ==> Stepped(neg, s, r.s, Next(Client, b, m)))
  {
    match m
    case Other(_, _) =>
      StageRequires(neg, s, a, b, m);
      ProcessOther(neg, s, m, env);
      AfterOther(neg, s, a, b, m, Process(neg, s, m, env), env);
    case Kexinit(cookie) =>
      ServerKexinitStep(neg, s, a, b, cookie, env);
    case KexdhInit(e) =>
      if a.round > b.round {
        ExtraInitSound(neg, s, a, b, e, env);
      } else if s.ignorenext {
        IgnoredSound(neg, s, a, b, e, env);
      } else {
        ProcessInit(neg, s, e, env);
        InitSound(neg, s, a, b, e, env);
      }
    case Newkeys =>
      NewkeysSound(neg, s, a, b, env);
    case KexdhReply(_, _) =>
  }

  // ------------------------------------------------------------------ the two endpoints

  datatype Link = Link(client: Session, server: Session, clientExit: Option<Exit>, serverExit: Option<Exit>)
  {
    function Self(role: Role): Session
    {
      if role.Client? then client else server
    }

    function Exited(role: Role): Option<Exit>
    {
      if role.Client? then clientExit else serverExit
    }

    function Put(role: Role, r: Result): Link
    {
      match r
      case Live(s) => if role.Client? then this.(client := s) else this.(server := s)
      case Dead(why) => if role.Client? then this.(clientExit := Some(why)) else this.(serverExit := Some(why))
    }
  }

  /** The next packet arrives, session_loop goes round without one, or the program submits a message. */
  datatype Event = Deliver(at: Role, env: Env) | Wake(at: Role, rekey: bool, env: Env) | Send(at: Role, m: Message)

  predicate Enabled(l: Link, ev: Event)
  {
    && l.Exited(ev.at).None?
    && (ev.Deliver? ==> l.Self(ev.at).got < |l.Self(Peer(ev.at)).out|)
    && (ev.Send? ==> ev.m.Other? && AppType(ev.m.ptype))
  }

  function Apply(neg: Negotiation, l: Link, ev: Event): Link
    requires Enabled(l, ev)
  {
    var s := l.Self(ev.at);
    match ev
    case Deliver(at, env) => l.Put(at, Receive(neg, s, l.Self(Peer(at)).out[s.got], env))
    case Wake(at, rekey, env) => l.Put(at, Live(Tick(s, rekey, env)))
    case Send(at, m) => l.Put(at, Live(Submit(s, m)))
  }

  /** What `role` has sent and what it has received. */
  function Sent(l: Link, role: Role): Dir
  {
    Run(role, l.Self(role).out)
  }

  function Seen(l: Link, role: Role): Dir
    requires l.Self(role).got <= |l.Self(Peer(role)).out|
  {
    Run(Peer(role), l.Self(Peer(role)).out[..l.Self(role).got])
  }

  ghost predicate EndOk(neg: Negotiation, l: Link, role: Role)
  {
    && l.Self(role).role == role && l.Self(role).got <= |l.Self(Peer(role)).out|
    && Sound(neg, l.Self(role), Sent(l, role), Seen(l, role))
    && (l.Exited(role).Some? ==> Harmless(neg, l.Exited(role).value))
  }

  ghost predicate LinkInv(neg: Negotiation, l: Link)
  {
    EndOk(neg, l, Client) && EndOk(neg, l, Server) && l.client.keys <= l.server.keys
  }

  lemma TagMatches(role: Role, out: seq<Packet>, keys: seq<Key>, n: nat, known: seq<Key>)
    requires Tagged(role, out, keys) && n < |out| && (keys <= known || known <= keys)
             && Run(role, out[..n]).round <= |known|
    ensures out[n].seqno == n % SEQUENCE && out[n].key == KeyAt(known, Run(role, out[..n]).round)
  {
    assert TaggedAt(role, out, keys, n);
  }

  /** The receiver has the key and the sequence number of the next packet. */
  lemma NextExpected(neg: Negotiation, l: Link, at: Role)
    requires LinkInv(neg, l) && l.Self(at).got < |l.Self(Peer(at)).out|
    ensures Expected(l.Self(at), l.Self(Peer(at)).out[l.Self(at).got])
  {
    var s, o := l.Self(at), l.Self(Peer(at));
    TagMatches(o.role, o.out, o.keys, s.got, s.keys);
  }

  /** A client that has sent NEWKEYS has seen the reply, so the server has sent it. */
  lemma ReplyBeforeNewkeys(neg: Negotiation, l: Link)
    requires LinkInv(neg, l) && l.server.got < |l.client.out| && l.client.out[l.server.got].m.Newkeys?
    ensures Sent(l, Server).round > Seen(l, Server).round
  {
    RunNext(Client, l.client.out, l.server.got);
    RunLeads(Client, l.client.out, l.server.got + 1);
    RunLeads(Server, l.server.out, l.client.got);
  }

  /** The reply a client is about to read is the one the server signed for its current keys. */
  lemma ReplyIsCurrent(neg: Negotiation, l: Link)
    requires LinkInv(neg, l) && l.client.got < |l.server.out| && l.server.out[l.client.got].m.KexdhReply?
    requires Awaiting(neg, l.client, Sent(l, Client), Seen(l, Client))
    ensures var m, n, a, b := l.server.out[l.client.got].m, |l.client.keys|, Sent(l, Client), Seen(l, Client);
      && n < |l.server.keys| && l.server.keys[n] == Derived(m.signed)
      && (Agree(neg) ==> m.signed == Transcript(a.init, b.init, a.dh, m.f))
  {
    RunNext(Server, l.server.out, l.client.got);
    RunLeads(Server, l.server.out, l.client.got + 1);
    RunLeads(Client, l.client.out, l.server.got);
    ReplyMeets(neg, l.client, l.server, Sent(l, Client), Seen(l, Client), Sent(l, Server), Seen(l, Server),
               l.server.out[l.client.got].m);
  }

  /** The same of the streams: the client sent x and saw y, the server sent a and saw b. */
  lemma ReplyMeets(neg: Negotiation, c: Session, s: Session, x: Dir, y: Dir, a: Dir, b: Dir, m: Message)
    requires Awaiting(neg, c, x, y) && |c.keys| == x.round && s.role.Server? && Stage(neg, s, a, b)
    requires m.KexdhReply? && Next(Server, y, m).ok && Leads(Next(Server, y, m), a) && Leads(b, x)
    ensures |c.keys| < |s.keys| && s.keys[|c.keys|] == Derived(m.signed)
    ensures Agree(neg) ==> m.signed == Transcript(x.init, y.init, x.dh, m.f)
  {
    ServerCurrent(neg, s, a, b, Next(Server, y, m));
  }

  /** A server whose stream holds the reply of a round that its peer has not gone beyond. */
  lemma ServerCurrent(neg: Negotiation, s: Session, a: Dir, b: Dir, p: Dir)
    requires s.role.Server? && Stage(neg, s, a, b) && Leads(p, a) && p.phase == 2 && b.round <= p.round
    ensures a.round == p.round + 1 && b.round == p.round && a.phase == 0 && Switched(s, a, b) && Signed(neg, s, a, b)
    ensures a.reply == p.reply && a.init == p.init
  {}

  /** A step at one end leaves the other end sound. */
  lemma PutKeeps(neg: Negotiation, l: Link, at: Role, s': Session)
    requires LinkInv(neg, l) && l.Exited(at).None? && s'.role == at && l.Self(at).out <= s'.out
    requires s'.got <= |l.Self(Peer(at)).out|
             && Sound(neg, s', Run(at, s'.out), Run(Peer(at), l.Self(Peer(at)).out[..s'.got]))
    requires if at.Client? then s'.keys <= l.server.keys else l.server.keys <= s'.keys
    ensures LinkInv(neg, l.Put(at, Live(s')))
  {
    var l', o := l.Put(at, Live(s')), l.Self(Peer(at));
    assert s'.out[..o.got] == l.Self(at).out[..o.got];
    assert Seen(l', Peer(at)) == Seen(l, Peer(at));
  }

  lemma DeadKeeps(neg: Negotiation, l: Link, at: Role, why: Exit)
    requires LinkInv(neg, l) && Harmless(neg, why)
    ensures LinkInv(neg, l.Put(at, Dead(why)))
  {
    var l' := l.Put(at, Dead(why));
    assert Seen(l', Client) == Seen(l, Client) && Seen(l', Server) == Seen(l, Server);
  }

  lemma KeysExtend(known: seq<Key>, keys: seq<Key>, k: Key)
    requires known <= keys && |known| < |keys| && keys[|known|] == k
    ensures known + [k] <= keys
  {}

  /** The next packet fits the client's state, and a reply carries the server's next keys. */
  lemma ClientReady(neg: Negotiation, l: Link, m: Message)
    requires LinkInv(neg, l) && l.client.got < |l.server.out| && m == l.server.out[l.client.got].m
    ensures var a, b := Sent(l, Client), Seen(l, Client);
      && Sound(neg, Arrived(l.client), a, b) && Next(Server, b, m).ok
      && Next(Server, b, m) == Run(Server, l.server.out[..l.client.got + 1])
      && (m.KexdhReply? ==> l.client.keys + [Derived(m.signed)] <= l.server.keys)
      && (m.KexdhReply? && Agree(neg) ==> m.signed == Transcript(a.init, b.init, a.dh, m.f))
  {
    var a, b := Sent(l, Client), Seen(l, Client);
    RunNext(Server, l.server.out, l.client.got);
    ArrivedSound(neg, l.client, a, b);
    if m.KexdhReply? {
      ReplyAwaited(neg, l.client, a, b, m);
      ReplyIsCurrent(neg, l);
      KeysExtend(l.client.keys, l.server.keys, Derived(m.signed));
    }
  }

  /** What the client makes of the next packet. */
  lemma ClientReceives(neg: Negotiation, l: Link, env: Env)
    requires LinkInv(neg, l) && l.client.got < |l.server.out|
    ensures var r := Finish(Process(neg, Arrived(l.client), l.server.out[l.client.got].m, env), env);
      && (r.Dead? ==> Harmless(neg, r.why))
      && (r.Live? ==> Stepped(neg, Arrived(l.client), r.s, Run(Server, l.server.out[..l.client.got + 1])))
      && (r.Live? ==> r.s.keys <= l.server.keys)
  {
    var m := l.server.out[l.client.got].m;
    ClientReady(neg, l, m);
    ClientStep(neg, Arrived(l.client), Sent(l, Client), Seen(l, Client), m, env);
  }

  /** A reply comes only where the client waits for one. */
  lemma ReplyAwaited(neg: Negotiation, s: Session, a: Dir, b: Dir, m: Message)
    requires Stage(neg, s, a, b) && s.role.Client? && m.KexdhReply? && Next(Server, b, m).ok
    ensures Awaiting(neg, s, a, b)
  {}

  lemma DeliverToClient(neg: Negotiation, l: Link, env: Env)
    requires LinkInv(neg, l) && Enabled(l, Deliver(Client, env))
    ensures LinkInv(neg, Apply(neg, l, Deliver(Client, env)))
  {
    NextExpected(neg, l, Client);
    ClientReceives(neg, l, env);
    var r := Receive(neg, l.client, l.server.out[l.client.got], env);
    if r.Live? { PutKeeps(neg, l, Client, r.s); } else { DeadKeeps(neg, l, Client, r.why); }
  }

  /** What the server makes of the next packet. */
  lemma ServerReceives(neg: Negotiation, l: Link, env: Env)
    requires LinkInv(neg, l) && l.server.got < |l.client.out|
    ensures var r := Finish(Process(neg, Arrived(l.server), l.client.out[l.server.got].m, env), env);
      && (r.Dead? ==> Harmless(neg, r.why))
      && (r.Live? ==> Stepped(neg, Arrived(l.server), r.s, Run(Client, l.client.out[..l.server.got + 1])))
  {
    var m, a, b := l.client.out[l.server.got].m, Sent(l, Server), Seen(l, Server);
    RunNext(Client, l.client.out, l.server.got);
    ArrivedSound(neg, l.server, a, b);
    if m.Newkeys? { ReplyBeforeNewkeys(neg, l); }
    ServerStep(neg, Arrived(l.server), a, b, m, env);
  }

  lemma DeliverToServer(neg: Negotiation, l: Link, env: Env)
    requires LinkInv(neg, l) && Enabled(l, Deliver(Server, env))
    ensures LinkInv(neg, Apply(neg, l, Deliver(Server, env)))
  {
    NextExpected(neg, l, Server);
    ServerReceives(neg, l, env);
    var r := Receive(neg, l.server, l.client.out[l.server.got], env);
    if r.Live? { PutKeeps(neg, l, Server, r.s); } else { DeadKeeps(neg, l, Server, r.why); }
  }

  lemma WakeKeeps(neg: Negotiation, l: Link, at: Role, rekey: bool, env: Env)
    requires LinkInv(neg, l) && l.Exited(at).None?
    ensures LinkInv(neg, l.Put(at, Live(Tick(l.Self(at), rekey, env))))
  {
    TickSound(neg, l.Self(at), Sent(l, at), Seen(l, at), rekey, env);
    StepWithoutPacket(neg, l, at, Tick(l.Self(at), rekey, env));
  }

  lemma SendKeeps(neg: Negotiation, l: Link, at: Role, m: Message)
    requires LinkInv(neg, l) && l.Exited(at).None? && m.Other? && AppType(m.ptype)
    ensures LinkInv(neg, l.Put(at, Live(Submit(l.Self(at), m))))
  {
    SubmitSound(neg, l.Self(at), Sent(l, at), Seen(l, at), m);
    StepWithoutPacket(neg, l, at, Submit(l.Self(at), m));
  }

  lemma StepKeeps(neg: Negotiation, l: Link, ev: Event)
    requires LinkInv(neg, l) && Enabled(l, ev)
    ensures LinkInv(neg, Apply(neg, l, ev))
  {
    match ev
    case Deliver(at, env) =>
      if at.Client? { DeliverToClient(neg, l, env); } else { DeliverToServer(neg, l, env); }
    case Wake(at, rekey, env) => WakeKeeps(neg, l, at, rekey, env);
    case Send(at, m) => SendKeeps(neg, l, at, m);
  }

  lemma StepWithoutPacket(neg: Negotiation, l: Link, at: Role, s: Session)
    requires LinkInv(neg, l) && l.Exited(at).None? && Stepped(neg, l.Self(at), s, Seen(l, at))
             && s.keys == l.Self(at).keys
    ensures LinkInv(neg, l.Put(at, Live(s)))
  {
    PutKeeps(neg, l, at, s);
  }

  // ------------------------------------------------------------------ runs

  predicate Runs(neg: Negotiation, l: Link, evs: seq<Event>)
    decreases |evs|
  {
    evs == [] || (Enabled(l, evs[0]) && Runs(neg, Apply(neg, l, evs[0]), evs[1..]))
  }

  function After(neg: Negotiation, l: Link, evs: seq<Event>): Link
    requires Runs(neg, l, evs)
    decreases |evs|
  {
    if evs == [] then l else After(neg, Apply(neg, l, evs[0]), evs[1..])
  }

  function Start(clientEnv: Env, serverEnv: Env): Link
  {
    Link(Opened(Client, clientEnv), Opened(Server, serverEnv), None, None)
  }

  lemma OpenedSound(neg: Negotiation, role: Role, env: Env)
    ensures var s := Opened(role, env);
      Sound(neg, s, Run(role, s.out), START) && s.role == role && s.got == 0 && s.keys == []
  {
    var s0 := Session(role, FRESH, true, KEXINIT, false, false, 0, 0, (0, 0), 0, None,
                      Initial, Initial, 0, 0, [], [], 0, [], [], []);
    EncryptDirect(s0, Kexinit(env.cookie));
    if role.Client? { EncryptDirect(Offer(s0, env), KexdhInit(env.secret)); }
  }

  lemma StartInv(neg: Negotiation, clientEnv: Env, serverEnv: Env)
    ensures LinkInv(neg, Start(clientEnv, serverEnv))
  {
    OpenedSound(neg, Client, clientEnv);
    OpenedSound(neg, Server, serverEnv);
    FreshLink(neg, Opened(Client, clientEnv), Opened(Server, serverEnv));
  }

  lemma FreshLink(neg: Negotiation, c: Session, s: Session)
    requires c.role == Client && s.role == Server && c.got == s.got == 0 && c.keys == s.keys == []
    requires Sound(neg, c, Run(Client, c.out), START) && Sound(neg, s, Run(Server, s.out), START)
    ensures LinkInv(neg, Link(c, s, None, None))
  {
    assert c.out[..0] == [] && s.out[..0] == [];
  }

  lemma {:induction false} RunInv(neg: Negotiation, l: Link, evs: seq<Event>)
    requires LinkInv(neg, l) && Runs(neg, l, evs)
    ensures LinkInv(neg, After(neg, l, evs))
    decreases |evs|
  {
    if evs != [] {
      StepKeeps(neg, l, evs[0]);
      RunInv(neg, Apply(neg, l, evs[0]), evs[1..]);
    }
  }

  /** Both ends have derived the same keys, the server at most one set more. */
  lemma KeysAgree(neg: Negotiation, l: Link)
    requires LinkInv(neg, l)
    ensures l.client.keys <= l.server.keys && |l.server.keys| <= |l.client.keys| + 1
  {
    RunLeads(Client, l.client.out, l.server.got);
    KeysCount(neg, l.server, Sent(l, Server), Seen(l, Server));
  }

  lemma KeysCount(neg: Negotiation, s: Session, a: Dir, b: Dir)
    requires Sound(neg, s, a, b)
    ensures |s.keys| == a.round <= b.round + 1
  {}

  lemma Reached(neg: Negotiation, clientEnv: Env, serverEnv: Env, evs: seq<Event>)
    requires Runs(neg, Start(clientEnv, serverEnv), evs)
    ensures LinkInv(neg, After(neg, Start(clientEnv, serverEnv), evs))
  {
    StartInv(neg, clientEnv, serverEnv);
    RunInv(neg, Start(clientEnv, serverEnv), evs);
  }

  /** No protocol error exit; the derived keys agree round by round; the next packet has the key and
      sequence number its receiver uses. */
  ghost predicate Safe(neg: Negotiation, l: Link, at: Role)
  {
    && (l.Exited(at).Some? ==> Harmless(neg, l.Exited(at).value))
    && l.client.keys <= l.server.keys && |l.server.keys| <= |l.client.keys| + 1
    && (l.Self(at).got < |l.Self(Peer(at)).out| ==> Expected(l.Self(at), l.Self(Peer(at)).out[l.Self(at).got]))
  }

  /** Safety of every run, for either end. */
  lemma RunSafe(neg: Negotiation, clientEnv: Env, serverEnv: Env, evs: seq<Event>, at: Role)
    requires Runs(neg, Start(clientEnv, serverEnv), evs)
    ensures Safe(neg, After(neg, Start(clientEnv, serverEnv), evs), at)
  {
    Reached(neg, clientEnv, serverEnv, evs);
    LinkSafe(neg, After(neg, Start(clientEnv, serverEnv), evs), at);
  }

  lemma LinkSafe(neg: Negotiation, l: Link, at: Role)
    requires LinkInv(neg, l)
    ensures Safe(neg, l, at)
  {
    KeysAgree(neg, l);
    if l.Self(at).got < |l.Self(Peer(at)).out| { NextExpected(neg, l, at); }
  }

  lemma SoundHeld(neg: Negotiation, s: Session, a: Dir, b: Dir)
    requires Sound(neg, s, a, b)
    ensures Holdable(s.out) + s.held == s.submitted && (s.dataallowed ==> Holdable(s.out) == s.submitted)
    ensures (s.dataallowed <==> a.phase == 0) && (!s.dataallowed <==> s.kex.sentkexinit && !s.kex.sentnewkeys)
  {
    if s.dataallowed { assert Holdable(s.out) + [] == Holdable(s.out); }
  }

  lemma HoldableOutside(role: Role, out: seq<Packet>, n: nat)
    requires Run(role, out).ok && n < |out| && out[n].m in Holdable(out)
    ensures Run(role, out[..n]).phase == 0
  {
    HoldableOther(out);
    RunNext(role, out, n);
  }

  lemma HoldableOther(out: seq<Packet>)
    ensures forall m :: m in Holdable(out) ==> m.Other? && !OkayKex(Type(m))
  {}

  /** Data is disallowed exactly from our KEXINIT to our NEWKEYS; messages that must wait for a key
      exchange have left once, in order and never inside one, or are held back. */
  ghost predicate Orderly(s: Session, at: Role)
  {
    && Holdable(s.out) + s.held == s.submitted && (s.dataallowed ==> Holdable(s.out) == s.submitted)
    && (s.dataallowed <==> Run(at, s.out).phase == 0) && (!s.dataallowed <==> s.kex.sentkexinit && !s.kex.sentnewkeys)
    && forall n :: 0 <= n < |s.out| && s.out[n].m in Holdable(s.out) ==> Run(at, s.out[..n]).phase == 0
  }

  lemma HeldLeaveInOrder(neg: Negotiation, clientEnv: Env, serverEnv: Env, evs: seq<Event>, at: Role)
    requires Runs(neg, Start(clientEnv, serverEnv), evs)
    ensures Orderly(After(neg, Start(clientEnv, serverEnv), evs).Self(at), at)
  {
    Reached(neg, clientEnv, serverEnv, evs);
    LinkOrderly(neg, After(neg, Start(clientEnv, serverEnv), evs), at);
  }

  lemma LinkOrderly(neg: Negotiation, l: Link, at: Role)
    requires LinkInv(neg, l)
    ensures Orderly(l.Self(at), at)
  {
    assert EndOk(neg, l, at);
    EndHeld(neg, l, at);
  }

  lemma EndHeld(neg: Negotiation, l: Link, at: Role)
    requires EndOk(neg, l, at)
    ensures Orderly(l.Self(at), at)
  {
    var s := l.Self(at);
    SoundHeld(neg, s, Sent(l, at), Seen(l, at));
    forall n | 0 <= n < |s.out| && s.out[n].m in Holdable(s.out) ensures Run(at, s.out[..n]).phase == 0 {
      HoldableOutside(at, s.out, n);
    }
  }

  /** When the server has seen all of x and the client all of y, neither is inside a key exchange. */
  lemma DrainedStages(neg: Negotiation, c: Session, s: Session, x: Dir, y: Dir)
    requires c.role.Client? && s.role.Server? && Agree(neg) && Stage(neg, c, x, y) && Stage(neg, s, y, x)
    ensures Idle(c, x, y) && Idle(s, y, x)
  {}

  /** No deadlock: once the wires have drained, no key exchange is open, both ends have the same
      keys and nothing is held back. */
  lemma DrainedIsIdle(neg: Negotiation, clientEnv: Env, serverEnv: Env, evs: seq<Event>)
    requires Runs(neg, Start(clientEnv, serverEnv), evs) && Agree(neg)
    requires var l := After(neg, Start(clientEnv, serverEnv), evs);
      l.client.got == |l.server.out| && l.server.got == |l.client.out|
    ensures var l := After(neg, Start(clientEnv, serverEnv), evs);
      && l.client.kex == l.server.kex == FRESH && l.client.keys == l.server.keys != []
      && l.client.held == l.server.held == []
  {
    Reached(neg, clientEnv, serverEnv, evs);
    DrainedLink(neg, After(neg, Start(clientEnv, serverEnv), evs));
  }

  lemma DrainedLink(neg: Negotiation, l: Link)
    requires LinkInv(neg, l) && Agree(neg) && l.client.got == |l.server.out| && l.server.got == |l.client.out|
    ensures l.client.kex == l.server.kex == FRESH && l.client.keys == l.server.keys != []
    ensures l.client.held == l.server.held == []
  {
    assert l.server.out[..l.client.got] == l.server.out && l.client.out[..l.server.got] == l.client.out;
    DrainedStages(neg, l.client, l.server, Sent(l, Client), Sent(l, Server));
  }
}
