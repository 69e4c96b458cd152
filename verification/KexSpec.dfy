/** One endpoint of the SSH transport over values: packet dispatch (process-packet.c), the key
    exchange state (common-kex.c, cli-kex.c, svr-kex.c, cli-session.c) and the packets held back
    while a key exchange runs (packet.c). Every packet carries its key and sequence number. */
module KexSpec {
  import opened Common

  datatype Role = Client | Server

  const DISCONNECT: nat := 1
  const IGNORE: nat := 2
  const UNIMPLEMENTED: nat := 3
  const DEBUG: nat := 4
  const SERVICE_REQUEST: nat := 5
  const SERVICE_ACCEPT: nat := 6
  const EXT_INFO: nat := 7
  const KEXINIT: nat := 20
  const NEWKEYS: nat := 21
  const KEXDH_INIT: nat := 30
  const KEXDH_REPLY: nat := 31
  const USERAUTH_REQUEST: nat := 50
  const MAX_UNAUTH_PACKET_TYPE: nat := 60
  const SEQUENCE: nat := 0x1_0000_0000

  /** What determines the exchange hash and the shared secret of one key exchange: both KEXINIT
      payloads and both public values. */
  datatype Transcript = Transcript(ic: nat, ir: nat, e: nat, f: nat)

  datatype Key = Initial | Derived(t: Transcript)

  /** A payload. The reply is signed over the transcript the server saw. */
  datatype Message =
    | Kexinit(cookie: nat)
    | KexdhInit(e: nat)
    | KexdhReply(f: nat, signed: Transcript)
    | Newkeys
    | Other(ptype: nat, data: nat)

  datatype Packet = Packet(m: Message, key: Key, seqno: nat)

  function Type(m: Message): nat
  {
    match m
    case Kexinit(_) => KEXINIT
    case KexdhInit(_) => KEXDH_INIT
    case KexdhReply(_, _) => KEXDH_REPLY
    case Newkeys => NEWKEYS
    case Other(t, _) => t
  }

  /** The types sent by everything except the key exchange. */
  predicate AppType(t: nat)
  {
    1 <= t <= 255 && t != KEXINIT && t != NEWKEYS && t != KEXDH_INIT && t != KEXDH_REPLY
  }

  /** packet_is_okay_kex */
  predicate OkayKex(t: nat)
  {
    t < USERAUTH_REQUEST && t != SERVICE_REQUEST && t != SERVICE_ACCEPT && t != KEXINIT
  }

  /** struct KEXState: the messages seen and whether our guess was right. */
  datatype KexState = KexState(sentkexinit: bool, recvkexinit: bool, sentnewkeys: bool, recvnewkeys: bool,
                               matches: bool)

  datatype NewKeys = NewKeys(recvValid: bool, transValid: bool, key: Key)

  datatype Exit =
    | Disconnected | BeforeUserauth | NoMatchingAlgo | BadSignature
    | Integrity | UnexpectedPacket | UnexpectedKexinit | UnexpectedNewkeys | PrematureInit | OutOfOrderReply
    | NullNewkeys

  /** What algorithm negotiation says of a client's and a server's KEXINIT: whether it succeeds, and
      whether the client and the server think the client's guess was right. */
  datatype Negotiation = Negotiation(common: (nat, nat) -> bool, clientGood: (nat, nat) -> bool,
                                     serverGood: (nat, nat) -> bool)

  /** The randomness and the rest of the program, for one step. */
  datatype Env = Env(cookie: nat, secret: nat, second: nat, extInfo: bool, authdone: bool, known: bool)

  /** A message that reached the handler table, and whether the peer was authenticated by then. */
  datatype Handled = Handled(m: Message, authdone: bool)

  /** `out` is every packet sent so far, `got` how many were received. `keys` are the keys derived so
      far, `submitted` the messages submitted that have to wait for a key exchange to end, and
      `handled` the messages received that reached the handler table. */
  datatype Session = Session(
    role: Role, kex: KexState, dataallowed: bool, requirenext: nat, ignorenext: bool, initSent: bool, lastpacket: nat,
    transkexinit: nat, kexhash: (nat, nat), dh: nat, newkeys: Option<NewKeys>,
    transkey: Key, recvkey: Key, transseq: nat, recvseq: nat,
    held: seq<Message>, out: seq<Packet>, got: nat, keys: seq<Key>, submitted: seq<Message>,
    handled: seq<Handled>)

  datatype Result = Live(s: Session) | Dead(why: Exit)

  const FRESH: KexState := KexState(false, false, false, false, false)

  /** encrypt_packet: queue the packet, or hold it back during a key exchange. */
  function Encrypt(s: Session, m: Message): Session
  {
    if !s.dataallowed && !OkayKex(Type(m)) then s.(held := s.held + [m])
    else s.(out := s.out + [Packet(m, s.transkey, s.transseq)], transseq := (s.transseq + 1) % SEQUENCE)
  }

  /** A message from the rest of the program. */
  function Submit(s: Session, m: Message): Session
  {
    Encrypt(s, m).(submitted := if OkayKex(Type(m)) then s.submitted else s.submitted + [m])
  }

  /** maybe_flush_reply_queue */
  function Flush(s: Session): Session
  {
    if !s.dataallowed then s else SendAll(s, s.held).(held := [])
  }

  function SendAll(s: Session, ms: seq<Message>): Session
    decreases |ms|
  {
    if ms == [] then s else SendAll(Encrypt(s, ms[0]), ms[1..])
  }

  /** send_msg_kexdh_init */
  function SendKexdhInit(s: Session, e: nat): Session
  {
    Encrypt(s, KexdhInit(e)).(dh := e)
  }

  /** send_msg_kexinit up to the guess. */
  function Offer(s: Session, env: Env): Session
  {
    Encrypt(s, Kexinit(env.cookie)).(dataallowed := false, kex := s.kex.(sentkexinit := true),
      newkeys := Some(NewKeys(false, false, Initial)), transkexinit := env.cookie)
  }

  /** send_msg_kexinit; a client sends its guess right behind. */
  function SendKexinit(s: Session, env: Env): Session
  {
    if s.role.Client? then SendKexdhInit(Offer(s, env), env.secret) else Offer(s, env)
  }

  /** switch_keys */
  function SwitchKeys(s: Session): Result
  {
    if !(s.kex.sentkexinit && s.kex.recvkexinit) then Dead(UnexpectedNewkeys)
    else if s.newkeys.None? then Dead(NullNewkeys)
    else
      var nk := s.newkeys.value;
      var takeRecv, takeTrans := s.kex.recvnewkeys && nk.recvValid, s.kex.sentnewkeys && nk.transValid;
      var s' := s.(recvkey := if takeRecv then nk.key else s.recvkey,
                   transkey := if takeTrans then nk.key else s.transkey);
      if s.kex.sentnewkeys && s.kex.recvnewkeys then Live(s'.(newkeys := None, kex := FRESH))
      else Live(s'.(newkeys := Some(nk.(recvValid := nk.recvValid && !takeRecv,
                                        transValid := nk.transValid && !takeTrans))))
  }

  /** send_msg_newkeys, with gen_new_keys deriving the keys from the transcript. */
  function SendNewkeys(s: Session, t: Transcript): Result
  {
    var s' := Encrypt(s, Newkeys);
    if s.newkeys.None? then Dead(NullNewkeys)
    else SwitchKeys(s'.(kex := s.kex.(sentnewkeys := true), dataallowed := true,
                   newkeys := Some(NewKeys(true, true, Derived(t))), keys := s.keys + [Derived(t)]))
  }

  /** recv_msg_newkeys */
  function RecvNewkeys(s: Session): Result
  {
    SwitchKeys(s.(kex := s.kex.(recvnewkeys := true)))
  }

  /** recv_msg_kexinit */
  function RecvKexinit(neg: Negotiation, s: Session, cookie: nat, env: Env): Result
  {
    TakeKexinit(neg, if s.kex.sentkexinit then s else SendKexinit(s, env), cookie)
  }

  /** The rest of it, once our own KEXINIT is out. */
  function TakeKexinit(neg: Negotiation, s: Session, cookie: nat): Result
  {
    var (ic, ir) := if s.role.Client? then (s.transkexinit, cookie) else (cookie, s.transkexinit);
    if s.kex.recvkexinit then Dead(UnexpectedKexinit)
    else if !neg.common(ic, ir) then Dead(NoMatchingAlgo)
    else if s.role.Client? then
      Live(s.(kexhash := (ic, ir), requirenext := KEXDH_REPLY,
              kex := s.kex.(recvkexinit := true, matches := neg.clientGood(ic, ir))))
    else
      Live(s.(kexhash := (ic, ir), requirenext := KEXDH_INIT, ignorenext := s.ignorenext || !neg.serverGood(ic, ir),
              kex := s.kex.(recvkexinit := true)))
  }

  /** recv_msg_kexdh_init, on the server. */
  function RecvKexdhInit(s: Session, e: nat, env: Env): Result
  {
    if !s.kex.recvkexinit then Dead(PrematureInit)
    else
      var t := Transcript(s.kexhash.0, s.kexhash.1, e, env.secret);
      var r := SendNewkeys(Encrypt(s, KexdhReply(env.secret, t)), t);
      if r.Dead? then r
      else
        var s' := if env.extInfo then Encrypt(r.s, Other(EXT_INFO, 0)) else r.s;
        Live(s'.(requirenext := NEWKEYS))
  }

  /** recv_msg_kexdh_reply, on the client. */
  function RecvKexdhReply(s: Session, f: nat, signed: Transcript): Result
  {
    if !s.initSent then Dead(OutOfOrderReply)
    else
      var t := Transcript(s.kexhash.0, s.kexhash.1, s.dh, f);
      if signed != t then Dead(BadSignature)
      else
        var r := SendNewkeys(s, t);
        if r.Dead? then r else Live(r.s.(requirenext := NEWKEYS))
  }

  /** recv_unimplemented */
  function Unimplemented(s: Session): Session
  {
    Encrypt(s, Other(UNIMPLEMENTED, (s.recvseq - 1) % SEQUENCE))
  }

  /** The handler table. */
  function Handle(neg: Negotiation, s: Session, m: Message, env: Env): Result
  {
    match m
    case Kexinit(cookie) => RecvKexinit(neg, s, cookie, env)
    case Newkeys => RecvNewkeys(s)
    case KexdhInit(e) => if s.role.Server? then RecvKexdhInit(s, e, env) else Live(Unimplemented(s))
    case KexdhReply(f, signed) => if s.role.Client? then RecvKexdhReply(s, f, signed) else Live(Unimplemented(s))
    case Other(_, _) => Live(if env.known then s else Unimplemented(s))
  }

  /** What is left behind once a handler has returned. */
  function Noted(s: Session, m: Message, env: Env): Session
  {
    s.(lastpacket := Type(m), handled := s.handled + [Handled(m, env.authdone)])
  }

  /** process_packet */
  function Process(neg: Negotiation, s: Session, m: Message, env: Env): Result
  {
    var t := Type(m);
    if t == IGNORE || t == DEBUG || t == UNIMPLEMENTED then Live(s.(lastpacket := t))
    else if t == DISCONNECT then Dead(Disconnected)
    else if s.requirenext != 0 && s.requirenext != t then
      if 1 <= t <= 49 && t != SERVICE_REQUEST && t != SERVICE_ACCEPT && t != KEXINIT then
        Live(Unimplemented(s).(lastpacket := t))
      else Dead(UnexpectedPacket)
    else Allowed(neg, s, m, env)
  }

  /** process_packet for a packet of a type that may come next. */
  function Allowed(neg: Negotiation, s: Session, m: Message, env: Env): Result
  {
    var t := Type(m);
    if s.ignorenext then Live(s.(ignorenext := false, lastpacket := t))
    else if !env.authdone && t > MAX_UNAUTH_PACKET_TYPE then Dead(BeforeUserauth)
    else
      var r := Handle(neg, s.(requirenext := 0), m, env);
      if r.Dead? then r else Live(Noted(r.s, m, env))
  }

  /** The key exchange part of cli_sessionloop; the server's loop handler has none. */
  function Loop(s: Session, env: Env): Session
  {
    if s.role.Server? || s.lastpacket == 0 then s
    else if s.lastpacket == KEXINIT && !s.initSent then
      (if s.kex.matches then s else SendKexdhInit(s, env.second)).(initSent := true)
    else if s.kex.sentnewkeys then s.(initSent := false)
    else s
  }

  function Arrived(s: Session): Session
  {
    s.(recvseq := (s.recvseq + 1) % SEQUENCE, got := s.got + 1)
  }

  /** Decryption checks the packet against the receiving key and sequence number. */
  function Receive(neg: Negotiation, s: Session, p: Packet, env: Env): Result
  {
    if p.key != s.recvkey || p.seqno != s.recvseq then Dead(Integrity)
    else Finish(Process(neg, Arrived(s), p.m, env), env)
  }

  /** The rest of a pass of session_loop. */
  function Finish(r: Result, env: Env): Result
  {
    if r.Dead? then r else Live(Loop(Flush(r.s), env))
  }

  /** A pass of session_loop without a packet; checktimeouts may start a key exchange. */
  function Tick(s: Session, rekey: bool, env: Env): Session
  {
    var s' := if rekey && !s.kex.sentkexinit then SendKexinit(s, env) else s;
    Loop(Flush(s'), env)
  }

  /** common_session_init followed by the first send_msg_kexinit. */
  function Opened(role: Role, env: Env): Session
  {
    SendKexinit(Session(role, FRESH, true, KEXINIT, false, false, 0, 0, (0, 0), 0, None,
                        Initial, Initial, 0, 0, [], [], 0, [], [], []), env)
  }
}
