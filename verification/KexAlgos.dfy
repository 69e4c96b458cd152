/** Algorithm negotiation as a whole (send_msg_kexinit and read_kex_algos of common-kex.c): a client and
    a server that exchange KEXINIT choose the same algorithms or both exit, and exactly when the
    client resends the packet that the server ignores. */
module KexAlgos {
  import opened Common
  import opened Digits
  import opened AlgoNegotiation
  import KexSpec
  import KexProtocol

  /** kexguess2@matt.ucc.asn.au */
  const KEXGUESS2: Name := [107, 101, 120, 103, 117, 101, 115, 115, 50, 64, 109, 97, 116, 116, 46, 117, 99, 99, 46,
                            97, 115, 110, 46, 97, 117]

  /** ext-info-c */
  const EXT_INFO_C: Name := [101, 120, 116, 45, 105, 110, 102, 111, 45, 99]

  /** sshkex, sigalgs, sshciphers, sshhashes and ses.compress_algos of one program. */
  datatype Tables = Tables(kex: seq<Entry>, sig: seq<Entry>, ciphers: seq<Entry>, macs: seq<Entry>, comps: seq<Entry>)

  /** The name lists of a KEXINIT, and first_kex_packet_follows. */
  datatype Kexinit = Kexinit(kex: seq<u8>, sig: seq<u8>, c2sCipher: seq<u8>, s2cCipher: seq<u8>,
                             c2sMac: seq<u8>, s2cMac: seq<u8>, c2sComp: seq<u8>, s2cComp: seq<u8>, follows: bool)

  ghost predicate Distinct(t: seq<Entry>)
  {
    forall e, f :: e in t && f in t && e.name == f.name ==> e == f
  }

  /** The tables of a program. */
  ghost predicate Program(t: Tables)
  {
    && Table(t.kex) && Table(t.sig) && Table(t.ciphers) && Table(t.macs) && Table(t.comps)
    && Distinct(t.kex) && Distinct(t.ciphers)
  }

  /** Both programs know an algorithm for the same thing. */
  ghost predicate SameKinds(c: seq<Entry>, s: seq<Entry>)
  {
    forall e, f :: e in c && f in s && e.name == f.name ==> e.special == f.special
  }

  ghost predicate Compatible(c: Tables, s: Tables)
  {
    Program(c) && Program(s) && SameKinds(c.kex, s.kex) && SameKinds(c.ciphers, s.ciphers)
  }

  predicate Special(t: seq<Entry>, n: Name)
  {
    exists i :: 0 <= i < |t| && t[i].name == n && t[i].special
  }

  // ------------------------------------------------------------------ sending

  function Lists(t: Tables, guesses: bool): Kexinit
  {
    var enc, mac, comp := Join(Usable(t.ciphers)), Join(Usable(t.macs)), Join(Usable(t.comps));
    Kexinit(Join(Usable(t.kex)), Join(Usable(t.sig)), enc, enc, mac, mac, comp, comp, guesses)
  }

  /** The lists of send_msg_kexinit. */
  method PutLists(t: Tables, guesses: bool) returns (k: Kexinit)
    ensures k == Lists(t, guesses)
  {
    var kex := PutAlgolist(t.kex);
    var sig := PutAlgolist(t.sig);
    var c2sCipher := PutAlgolist(t.ciphers);
    var s2cCipher := PutAlgolist(t.ciphers);
    var c2sMac := PutAlgolist(t.macs);
    var s2cMac := PutAlgolist(t.macs);
    var c2sComp := PutAlgolist(t.comps);
    var s2cComp := PutAlgolist(t.comps);
    k := Kexinit(kex, sig, c2sCipher, s2cCipher, c2sMac, s2cMac, c2sComp, s2cComp, guesses);
  }

  /** The entry whose key exchange a client guesses, as a name. */
  method Guess(t: Tables) returns (n: Option<Name>)
    ensures n == if Usable(t.kex) == [] then None else Some(Usable(t.kex)[0])
  {
    var i := FirstUsableAlgo(t.kex);
    n := if i.None? then None else Some(t.kex[i.value].name);
  }

  // ------------------------------------------------------------------ reading

  datatype Failure = BadList | NoMatching

  /** What was chosen by name; an AEAD cipher needs no MAC. */
  datatype Chosen = Chosen(kex: Name, sig: Name, c2sCipher: Name, s2cCipher: Name,
                           c2sMac: Option<Name>, s2cMac: Option<Name>, c2sComp: Name, s2cComp: Name)

  /** The outcome of read_kex_algos: an exit, or the algorithms, the judgement of the guess, and whether
      EXT_INFO may be sent. */
  datatype Reading = Exit(why: Failure) | Algorithms(chosen: Chosen, allgood: bool, extInfo: bool)

  datatype Pick<T> = Bad(why: Failure) | Picked(value: T)
  {
    predicate IsFailure() { Bad? }
    function PropagateFailure(): Reading requires Bad? { Exit(why) }
    function Extract(): T requires Picked? { value }
  }

  function PickFrom(isServer: bool, b: seq<u8>, t: seq<Entry>): Pick<Name>
  {
    if Exits(b) then Bad(BadList)
    else
      var n := Agreed(isServer, b, t);
      if n.None? then Bad(NoMatching) else Picked(n.value)
  }

  function PickKex(isServer: bool, b: seq<u8>, t: seq<Entry>): Pick<Name>
  {
    var n := PickFrom(isServer, b, t);
    if n.Picked? && Special(t, n.value) then Bad(NoMatching) else n
  }

  function PickMac(isServer: bool, b: seq<u8>, t: seq<Entry>, aead: bool): Pick<Option<Name>>
  {
    var n := PickFrom(isServer, b, t);
    if n == Bad(BadList) then Bad(BadList)
    else if aead then Picked(None)
    else if n.Bad? then Bad(n.why)
    else Picked(Some(n.value))
  }

  /** A build has kexguess2 in its table if and only if it looks for it. */
  predicate Knows2(t: Tables)
  {
    KEXGUESS2 in Usable(t.kex)
  }

  predicate Guess2(t: Tables, k: Kexinit)
  {
    Knows2(t) && KEXGUESS2 in NamesIn(k.kex)
  }

  predicate BothGood(isServer: bool, t: Tables, k: Kexinit)
  {
    GoodGuess(isServer, k.kex, t.kex, Guess2(t, k)) && GoodGuess(isServer, k.sig, t.sig, Guess2(t, k))
  }

  /** A server allows EXT_INFO in the first key exchange if the client asks for it. */
  predicate ExtInfo(isServer: bool, first: bool, k: Kexinit)
  {
    isServer && first && EXT_INFO_C in NamesIn(k.kex)
  }

  /** The outcomes for the lists in the order they are read: the first failure is the exit taken. */
  function InOrder(kex: Pick<Name>, sig: Pick<Name>, c2sCipher: Pick<Name>, s2cCipher: Pick<Name>,
                   c2sMac: Pick<Option<Name>>, s2cMac: Pick<Option<Name>>, c2sComp: Pick<Name>, s2cComp: Pick<Name>,
                   allgood: bool, extInfo: bool): Reading
  {
    var n0 :- kex;
    var n1 :- sig;
    var n2 :- c2sCipher;
    var n3 :- s2cCipher;
    var n4 :- c2sMac;
    var n5 :- s2cMac;
    var n6 :- c2sComp;
    var n7 :- s2cComp;
    Algorithms(Chosen(n0, n1, n2, n3, n4, n5, n6, n7), allgood, extInfo)
  }

  predicate Aead(t: seq<Entry>, n: Pick<Name>)
  {
    n.Picked? && Special(t, n.value)
  }

  /** What read_kex_algos has to make of any KEXINIT. */
  function ReadingOf(isServer: bool, first: bool, t: Tables, k: Kexinit): Reading
  {
    var c2sCipher, s2cCipher := PickFrom(isServer, k.c2sCipher, t.ciphers), PickFrom(isServer, k.s2cCipher, t.ciphers);
    InOrder(PickKex(isServer, k.kex, t.kex), PickFrom(isServer, k.sig, t.sig), c2sCipher, s2cCipher,
            PickMac(isServer, k.c2sMac, t.macs, Aead(t.ciphers, c2sCipher)),
            PickMac(isServer, k.s2cMac, t.macs, Aead(t.ciphers, s2cCipher)),
            PickFrom(isServer, k.c2sComp, t.comps), PickFrom(isServer, k.s2cComp, t.comps),
            BothGood(isServer, t, k), ExtInfo(isServer, first, k))
  }

  /** buf_match_algo, by the name of the entry it returns. */
  method MatchName(isServer: bool, b: seq<u8>, t: seq<Entry>, kexguess2: bool)
    returns (n: Pick<Name>, i: nat, good: bool)
    ensures n == PickFrom(isServer, b, t)
    ensures n.Picked? ==> i < |t| && t[i].name == n.value
    ensures !Exits(b) ==> (good <==> GoodGuess(isServer, b, t, kexguess2))
  {
    var exit, r, g := BufMatchAlgo(isServer, b, t, kexguess2);
    good, i := g, 0;
    if exit { return Bad(BadList), i, good; }
    if r.None? { return Bad(NoMatching), i, good; }
    n, i := Picked(t[r.value].name), r.value;
  }

  lemma SpecialAt(t: seq<Entry>, i: nat)
    requires Distinct(t) && i < |t|
    ensures Special(t, t[i].name) <==> t[i].special
  {}

  /** A cipher, and whether it is an AEAD mode. */
  method MatchCipher(isServer: bool, b: seq<u8>, t: seq<Entry>) returns (n: Pick<Name>, aead: bool)
    requires Distinct(t)
    ensures n == PickFrom(isServer, b, t) && (aead <==> Aead(t, n))
  {
    var i, goodguess;
    n, i, goodguess := MatchName(isServer, b, t, false);
    aead := false;
    if n.Picked? {
      SpecialAt(t, i);
      aead := t[i].special;
    }
  }

  method MatchMac(isServer: bool, b: seq<u8>, t: seq<Entry>, aead: bool) returns (n: Pick<Option<Name>>)
    ensures n == PickMac(isServer, b, t, aead)
  {
    var m, i, goodguess := MatchName(isServer, b, t, false);
    if m == Bad(BadList) { return Bad(BadList); }
    if aead { return Picked(None); }
    n := if m.Bad? then Bad(m.why) else Picked(Some(m.value));
  }

  method MatchComp(isServer: bool, b: seq<u8>, t: seq<Entry>) returns (n: Pick<Name>)
    ensures n == PickFrom(isServer, b, t)
  {
    var i, goodguess;
    n, i, goodguess := MatchName(isServer, b, t, false);
  }

  /** The tests for kexguess2 and ext-info-c. */
  method ReadMarkers(isServer: bool, first: bool, t: Tables, k: Kexinit)
    returns (exit: bool, kexguess2: bool, extInfo: bool)
    ensures exit ==> Exits(k.kex)
    ensures !exit ==> kexguess2 == Guess2(t, k) || Exits(k.kex)
    ensures !exit ==> extInfo == ExtInfo(isServer, first, k) || Exits(k.kex)
  {
    exit, kexguess2, extInfo := false, false, false;
    if Knows2(t) {
      exit, kexguess2 := HasAlgo(k.kex, KEXGUESS2);
      if exit { return; }
    }
    if isServer && first { exit, extInfo := HasAlgo(k.kex, EXT_INFO_C); }
  }

  /** The two lists that the guess is about. */
  method ReadKexAndSig(isServer: bool, t: Tables, k: Kexinit, kexguess2: bool)
    returns (kex: Pick<Name>, sig: Pick<Name>, allgood: bool)
    requires Distinct(t.kex) && (kexguess2 == Guess2(t, k) || Exits(k.kex))
    ensures kex == PickKex(isServer, k.kex, t.kex)
    ensures kex.Picked? ==> sig == PickFrom(isServer, k.sig, t.sig)
    ensures kex.Picked? && sig.Picked? ==> (allgood <==> BothGood(isServer, t, k))
  {
    allgood, sig := true, Bad(NoMatching);
    var i, goodguess;
    kex, i, goodguess := MatchName(isServer, k.kex, t.kex, kexguess2);
    allgood := allgood && goodguess;
    if kex.Bad? { return; }
    SpecialAt(t.kex, i);
    if t.kex[i].special { return Bad(NoMatching), sig, allgood; }
    sig, i, goodguess := MatchName(isServer, k.sig, t.sig, kexguess2);
    allgood := allgood && goodguess;
  }

  /** read_kex_algos */
  method ReadKexAlgos(isServer: bool, first: bool, t: Tables, k: Kexinit) returns (r: Reading)
    requires Distinct(t.kex) && Distinct(t.ciphers)
    ensures r == ReadingOf(isServer, first, t, k)
  {
    var exit, kexguess2, extInfo := ReadMarkers(isServer, first, t, k);
    if exit { return Exit(BadList); }
    var k0, s0, allgood := ReadKexAndSig(isServer, t, k, kexguess2);
    var kex :- k0;
    var sig :- s0;
    var c0, c2sAead := MatchCipher(isServer, k.c2sCipher, t.ciphers);
    var c2sCipher :- c0;
    var c1, s2cAead := MatchCipher(isServer, k.s2cCipher, t.ciphers);
    var s2cCipher :- c1;
    var c2sMac :- MatchMac(isServer, k.c2sMac, t.macs, c2sAead);
    var s2cMac :- MatchMac(isServer, k.s2cMac, t.macs, s2cAead);
    var c2sComp :- MatchComp(isServer, k.c2sComp, t.comps);
    var s2cComp :- MatchComp(isServer, k.s2cComp, t.comps);
    r := Algorithms(Chosen(kex, sig, c2sCipher, s2cCipher, c2sMac, s2cMac, c2sComp, s2cComp), allgood, extInfo);
  }

  // ------------------------------------------------------------------ both sides

  function Shared(c: seq<Entry>, s: seq<Entry>): Option<Name>
  {
    Choice(Usable(c), Usable(s))
  }

  function PickShared(c: seq<Entry>, s: seq<Entry>): Pick<Name>
  {
    if Shared(c, s).Some? then Picked(Shared(c, s).value) else Bad(NoMatching)
  }

  /** There is an algorithm in common for everything that needs one. */
  predicate Negotiates(c: Tables, s: Tables)
  {
    && Shared(c.kex, s.kex).Some? && !Special(c.kex, Shared(c.kex, s.kex).value)
    && Shared(c.sig, s.sig).Some? && Shared(c.ciphers, s.ciphers).Some? && Shared(c.comps, s.comps).Some?
    && (Special(c.ciphers, Shared(c.ciphers, s.ciphers).value) || Shared(c.macs, s.macs).Some?)
  }

  function Outcome(c: Tables, s: Tables): Chosen
    requires Negotiates(c, s)
  {
    var cipher, comp := Shared(c.ciphers, s.ciphers).value, Shared(c.comps, s.comps).value;
    var mac := if Special(c.ciphers, cipher) then None else Shared(c.macs, s.macs);
    Chosen(Shared(c.kex, s.kex).value, Shared(c.sig, s.sig).value, cipher, cipher, mac, mac, comp, comp)
  }

  /** kexguess2 counts when both offer it. */
  predicate Both2(c: Tables, s: Tables)
  {
    Knows2(c) && Knows2(s)
  }

  /** The judgement of the client and of the server, from their tables: each takes both lists. */
  predicate ClientAccepts(c: Tables, s: Tables)
  {
    var guess2 := Both2(c, s);
    Suits(c.kex, s.kex, guess2) && Suits(c.sig, s.sig, guess2) && FirstUsable(c.kex) && FirstUsable(c.sig)
  }

  predicate ServerAccepts(c: Tables, s: Tables)
  {
    var guess2 := Both2(c, s);
    && Suits(c.kex, s.kex, guess2) && Suits(c.sig, s.sig, guess2)
    && (guess2 || (FirstUsable(s.kex) && FirstUsable(s.sig)))
  }

  lemma PickedShared(isServer: bool, c: seq<Entry>, s: seq<Entry>)
    requires Table(c) && Table(s)
    ensures var b, t := Join(Usable(if isServer then c else s)), if isServer then s else c;
      PickFrom(isServer, b, t) == PickShared(c, s) && !Exits(b)
  {
    SameChoice(c, s);
    ListTravels(if isServer then c else s);
  }

  lemma SpecialShared(c: seq<Entry>, s: seq<Entry>)
    requires SameKinds(c, s) && Distinct(c) && Distinct(s) && Shared(c, s).Some?
    ensures Special(c, Shared(c, s).value) <==> Special(s, Shared(c, s).value)
  {
    var n := Shared(c, s).value;
    assert n in Usable(c) && n in Usable(s);
    UsableIn(c);
    UsableIn(s);
    var i :| 0 <= i < |c| && c[i].usable && c[i].name == n;
    var j :| 0 <= j < |s| && s[j].usable && s[j].name == n;
    SpecialAt(c, i);
    SpecialAt(s, j);
  }

  /** A name is read in the list of a table exactly when the table offers it. */
  lemma NameTravels(t: seq<Entry>, n: Name)
    requires Table(t) && n != []
    ensures n in NamesIn(Join(Usable(t))) <==> n in Usable(t)
  {
    ListTravels(t);
  }

  lemma Judges(isServer: bool, c: Tables, s: Tables)
    requires Program(c) && Program(s)
    ensures var peer, own := Lists(if isServer then c else s, isServer), if isServer then s else c;
      BothGood(isServer, own, peer) <==> if isServer then ServerAccepts(c, s) else ClientAccepts(c, s)
  {
    var peer := if isServer then c else s;
    NameTravels(peer.kex, KEXGUESS2);
    Judgements(c.kex, s.kex, Both2(c, s));
    Judgements(c.sig, s.sig, Both2(c, s));
  }

  /** What a side has to make of the other's tables: the algorithms that RFC 4253 asks for, or an exit
      because one is missing. */
  function Expected(isServer: bool, first: bool, c: Tables, s: Tables): Reading
  {
    if !Negotiates(c, s) then Exit(NoMatching)
    else Algorithms(Outcome(c, s), if isServer then ServerAccepts(c, s) else ClientAccepts(c, s),
                    isServer && first && EXT_INFO_C in Usable(c.kex))
  }

  function SharedKex(c: Tables, s: Tables): Pick<Name>
  {
    var n := PickShared(c.kex, s.kex);
    if n.Picked? && Special(c.kex, n.value) then Bad(NoMatching) else n
  }

  function SharedMac(c: Tables, s: Tables): Pick<Option<Name>>
  {
    if Aead(c.ciphers, PickShared(c.ciphers, s.ciphers)) then Picked(None)
    else if Shared(c.macs, s.macs).Some? then Picked(Shared(c.macs, s.macs))
    else Bad(NoMatching)
  }

  /** The tables of the side that reads and the lists of the other. */
  ghost predicate Between(isServer: bool, c: Tables, s: Tables, own: Tables, peer: Kexinit)
  {
    Compatible(c, s) && own == (if isServer then s else c) && peer == Lists(if isServer then c else s, isServer)
  }

  lemma KexPicked(isServer: bool, c: Tables, s: Tables, own: Tables, peer: Kexinit)
    requires Between(isServer, c, s, own, peer)
    ensures PickKex(isServer, peer.kex, own.kex) == SharedKex(c, s)
  {
    PickedShared(isServer, c.kex, s.kex);
    if Shared(c.kex, s.kex).Some? { SpecialShared(c.kex, s.kex); }
  }

  lemma CipherPicked(isServer: bool, c: Tables, s: Tables, own: Tables, peer: Kexinit)
    requires Between(isServer, c, s, own, peer)
    ensures PickFrom(isServer, peer.c2sCipher, own.ciphers) == PickShared(c.ciphers, s.ciphers)
    ensures Aead(own.ciphers, PickShared(c.ciphers, s.ciphers)) == Aead(c.ciphers, PickShared(c.ciphers, s.ciphers))
  {
    PickedShared(isServer, c.ciphers, s.ciphers);
    if Shared(c.ciphers, s.ciphers).Some? { SpecialShared(c.ciphers, s.ciphers); }
  }

  lemma MacPicked(isServer: bool, c: Tables, s: Tables, own: Tables, peer: Kexinit)
    requires Between(isServer, c, s, own, peer)
    ensures PickMac(isServer, peer.c2sMac, own.macs,
                    Aead(own.ciphers, PickFrom(isServer, peer.c2sCipher, own.ciphers))) == SharedMac(c, s)
  {
    CipherPicked(isServer, c, s, own, peer);
    PickedShared(isServer, c.macs, s.macs);
  }

  lemma OthersPicked(isServer: bool, c: Tables, s: Tables, own: Tables, peer: Kexinit)
    requires Between(isServer, c, s, own, peer)
    ensures PickFrom(isServer, peer.sig, own.sig) == PickShared(c.sig, s.sig)
    ensures PickFrom(isServer, peer.c2sComp, own.comps) == PickShared(c.comps, s.comps)
  {
    PickedShared(isServer, c.sig, s.sig);
    PickedShared(isServer, c.comps, s.comps);
  }

  lemma InOrderShared(c: Tables, s: Tables, allgood: bool, ext: bool)
    ensures var cipher, mac, comp := PickShared(c.ciphers, s.ciphers), SharedMac(c, s), PickShared(c.comps, s.comps);
      InOrder(SharedKex(c, s), PickShared(c.sig, s.sig), cipher, cipher, mac, mac, comp, comp, allgood, ext) ==
      if Negotiates(c, s) then Algorithms(Outcome(c, s), allgood, ext) else Exit(NoMatching)
  {}

  lemma ReadsOutcome(isServer: bool, first: bool, c: Tables, s: Tables, own: Tables, peer: Kexinit)
    requires Between(isServer, c, s, own, peer)
    ensures ReadingOf(isServer, first, own, peer) == Expected(isServer, first, c, s)
  {
    KexPicked(isServer, c, s, own, peer);
    CipherPicked(isServer, c, s, own, peer);
    MacPicked(isServer, c, s, own, peer);
    OthersPicked(isServer, c, s, own, peer);
    Judges(isServer, c, s);
    NameTravels(c.kex, EXT_INFO_C);
    InOrderShared(c, s, BothGood(isServer, own, peer), ExtInfo(isServer, first, peer));
  }

  method ReadPeer(isServer: bool, first: bool, ghost c: Tables, ghost s: Tables, own: Tables, peer: Kexinit)
    returns (r: Reading)
    requires Between(isServer, c, s, own, peer)
    ensures r == Expected(isServer, first, c, s)
  {
    r := ReadKexAlgos(isServer, first, own, peer);
    ReadsOutcome(isServer, first, c, s, own, peer);
  }

  /** The guess is the client's first usable entries. A side that thinks it good is right: those are
      the algorithms chosen. */
  lemma GoodIsChosen(c: Tables, s: Tables)
    requires Negotiates(c, s) && (ClientAccepts(c, s) || ServerAccepts(c, s))
    ensures Outcome(c, s).kex == Usable(c.kex)[0] && Outcome(c, s).sig == Usable(c.sig)[0]
  {
    SuitedIsChosen(c.kex, s.kex, Both2(c, s));
    SuitedIsChosen(c.sig, s.sig, Both2(c, s));
  }

  /** Both sides of an exchange of KEXINIT. They choose the same algorithms or both exit; the client
      resends its first packet unless it thinks the guess good, and the server ignores it unless it does.
      A packet that is kept by either is for the key exchange chosen. The server allows EXT_INFO if this
      is the first exchange and the client offers it; the client never does. */
  method ExchangeKexinit(first: bool, c: Tables, s: Tables)
    returns (atClient: Reading, atServer: Reading, guess: Option<Name>, resends: bool, ignores: bool)
    requires Compatible(c, s)
    ensures if Negotiates(c, s) then
              && atClient.Algorithms? && atServer.Algorithms?
              && atClient.chosen == atServer.chosen == Outcome(c, s)
              && !atClient.extInfo && (atServer.extInfo <==> first && EXT_INFO_C in Usable(c.kex))
            else atClient == atServer == Exit(NoMatching)
    ensures Negotiates(c, s) ==> (resends <==> !ClientAccepts(c, s)) && (ignores <==> !ServerAccepts(c, s))
    ensures Negotiates(c, s) && !(resends && ignores) ==> guess == Some(Outcome(c, s).kex)
  {
    var fromClient := PutLists(c, true);
    guess := Guess(c);
    var fromServer := PutLists(s, false);
    atClient := ReadPeer(false, first, c, s, c, fromServer);
    atServer := ReadPeer(true, first, c, s, s, fromClient);
    resends := atClient.Algorithms? && !atClient.allgood;
    ignores := atServer.Algorithms? && fromClient.follows && !atServer.allgood;
    if Negotiates(c, s) && !(resends && ignores) { GoodIsChosen(c, s); }
  }

  /** Both lists suit. */
  predicate SuitsBoth(c: Tables, s: Tables, guess2: bool)
  {
    Suits(c.kex, s.kex, guess2) && Suits(c.sig, s.sig, guess2)
  }

  predicate FirstBoth(t: Tables)
  {
    FirstUsable(t.kex) && FirstUsable(t.sig)
  }

  /** The client resends exactly what the server ignores, except when the guess suits in both lists and
      the first entries of the two sides disagree: with kexguess2 on both sides the client's must be
      usable, without it the client's and the server's alike. */
  lemma GuessesAgree(c: Tables, s: Tables)
    ensures ClientAccepts(c, s) == ServerAccepts(c, s) <==>
      !SuitsBoth(c, s, Both2(c, s)) || FirstBoth(c) == (Both2(c, s) || FirstBoth(s))
    ensures Both2(c, s) && ClientAccepts(c, s) ==> ServerAccepts(c, s)
  {}

  lemma UsableTwo(a: Entry, b: Entry)
    ensures Usable([a, b]) == (if a.usable then [a.name] else []) + (if b.usable then [b.name] else [])
    ensures Usable([b]) == if b.usable then [b.name] else []
  {
    assert [a, b][..1] == [a] && [a][..0] == [] && [b][..0] == [];
    assert Usable([a]) == if a.usable then [a.name] else [];
  }

  /** The key exchange guess is good on both sides, and the client resends because the first entry of
      its host key table is unusable. */
  lemma GuessesDiffer(c: Tables, s: Tables)
    requires c.kex == s.kex == [Entry([97], true, false), Entry(KEXGUESS2, true, true)]
    requires c.sig == [Entry([98], false, false), Entry([99], true, false)] && s.sig == [Entry([99], true, false)]
    ensures ServerAccepts(c, s) && !ClientAccepts(c, s)
  {
    UsableTwo(c.kex[0], c.kex[1]);
    UsableTwo(c.sig[0], c.sig[1]);
    UsableTwo(c.sig[0], s.sig[0]);
  }

  /** Without kexguess2 it can be the server that ignores a packet the client does not resend. */
  lemma GuessLost(c: Tables, s: Tables)
    requires c.kex == s.kex == [Entry([97], true, false)] && c.sig == [Entry([99], true, false)]
    requires s.sig == [Entry([98], false, false), Entry([99], true, false)]
    ensures ClientAccepts(c, s) && !ServerAccepts(c, s)
  {
    UsableTwo(c.kex[0], c.kex[0]);
    UsableTwo(s.sig[0], s.sig[1]);
    UsableTwo(c.sig[0], c.sig[0]);
  }

  // ------------------------------------------------------------------ the key exchange

  /** Negotiation between programs with these tables when they sent the KEXINIT with a given cookie. */
  function NegotiationOf(ct: nat -> Tables, st: nat -> Tables): KexSpec.Negotiation
  {
    KexSpec.Negotiation((ic: nat, ir: nat) => Negotiates(ct(ic), st(ir)),
                        (ic: nat, ir: nat) => ClientAccepts(ct(ic), st(ir)),
                        (ic: nat, ir: nat) => ServerAccepts(ct(ic), st(ir)))
  }

  /** Tables as Dropbear builds them: kexguess2 is offered, and no client disables what it prefers. */
  predicate Offers(t: Tables, client: bool)
  {
    Knows2(t) && (client ==> FirstBoth(t))
  }

  lemma DropbearAgrees(ct: nat -> Tables, st: nat -> Tables)
    requires forall i: nat :: Offers(ct(i), true) && Offers(st(i), false)
    ensures KexProtocol.Agree(NegotiationOf(ct, st))
  {
    forall ic: nat, ir: nat ensures ClientAccepts(ct(ic), st(ir)) == ServerAccepts(ct(ic), st(ir)) {
      GuessesAgree(ct(ic), st(ir));
    }
  }

  /** A client and a server with such tables: the only exits of any run are a disconnect, a packet before
      authentication and no common algorithm, and once the wires have drained no exchange is open. */
  lemma DropbearPair(ct: nat -> Tables, st: nat -> Tables, clientEnv: KexSpec.Env, serverEnv: KexSpec.Env,
                     evs: seq<KexProtocol.Event>, at: KexSpec.Role)
    requires forall i: nat :: Offers(ct(i), true) && Offers(st(i), false)
    requires KexProtocol.Runs(NegotiationOf(ct, st), KexProtocol.Start(clientEnv, serverEnv), evs)
    ensures var l := KexProtocol.After(NegotiationOf(ct, st), KexProtocol.Start(clientEnv, serverEnv), evs);
      && (l.Exited(at).Some? ==>
            || l.Exited(at).value == KexSpec.Disconnected || l.Exited(at).value == KexSpec.BeforeUserauth
            || (l.Exited(at).value == KexSpec.NoMatchingAlgo && exists ic: nat, ir: nat :: !Negotiates(ct(ic), st(ir))))
      && (l.client.got == |l.server.out| && l.server.got == |l.client.out| ==>
            && l.client.kex == l.server.kex == KexSpec.FRESH && l.client.keys == l.server.keys != []
            && l.client.held == l.server.held == [])
  {
    var neg := NegotiationOf(ct, st);
    var l := KexProtocol.After(neg, KexProtocol.Start(clientEnv, serverEnv), evs);
    DropbearAgrees(ct, st);
    KexProtocol.RunSafe(neg, clientEnv, serverEnv, evs, at);
    if l.client.got == |l.server.out| && l.server.got == |l.client.out| {
      KexProtocol.DrainedIsIdle(neg, clientEnv, serverEnv, evs);
    }
  }
}
