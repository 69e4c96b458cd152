/** Name lists and the search for an algorithm (common-algo.c): the lists travel unchanged, each side
    finds the algorithm that section 7.1 of RFC 4253 asks for, and exactly when each judges the
    client's guess good. */
module AlgoNegotiation {
  import opened Common
  import opened Digits

  const MAX_PROPOSED_ALGO: nat := 50
  const MAX_NAME_LEN: nat := 64
  const MAX_STRING_LEN: nat := 9000
  const COMMA: u8 := 44

  type Name = seq<u8>

  /** `special` marks what is no key exchange in the table of those, and an AEAD mode among ciphers. */
  datatype Entry = Entry(name: Name, usable: bool, special: bool)

  predicate Plain(n: Name)
  {
    |n| > 0 && COMMA !in n && 0 !in n
  }

  /** An algorithm table of the program. */
  ghost predicate Table(t: seq<Entry>)
  {
    |t| <= MAX_PROPOSED_ALGO && forall e :: e in t ==> Plain(e.name) && |e.name| <= MAX_NAME_LEN
  }

  function Usable(t: seq<Entry>): seq<Name>
  {
    if t == [] then []
    else Usable(t[..|t| - 1]) + if t[|t| - 1].usable then [t[|t| - 1].name] else []
  }

  lemma UsableIn(t: seq<Entry>)
    ensures |Usable(t)| <= |t|
    ensures forall n :: n in Usable(t) <==> exists i :: 0 <= i < |t| && t[i].usable && t[i].name == n
  {
    if t != [] {
      UsableIn(t[..|t| - 1]);
      forall n ensures n in Usable(t) <==> exists i :: 0 <= i < |t| && t[i].usable && t[i].name == n {
        if i :| 0 <= i < |t| && t[i].usable && t[i].name == n {
          if i < |t| - 1 { assert t[..|t| - 1][i] == t[i]; }
        }
      }
    }
  }

  // ------------------------------------------------------------------ name lists

  /** Names separated by commas. */
  function Join(ns: seq<Name>): seq<u8>
  {
    if ns == [] then []
    else if |ns| == 1 then ns[0]
    else Join(ns[..|ns| - 1]) + [COMMA] + ns[|ns| - 1]
  }

  /** buf_put_algolist, without the length in front. */
  method PutAlgolist(t: seq<Entry>) returns (b: seq<u8>)
    ensures b == Join(Usable(t))
  {
    b := [];
    var donefirst := false;
    for i := 0 to |t|
      invariant b == Join(Usable(t[..i])) && donefirst == (Usable(t[..i]) != [])
    {
      UsableNext(t, i);
      JoinNext(Usable(t[..i]), t[i].name);
      if t[i].usable {
        if donefirst { b := b + [COMMA]; }
        donefirst := true;
        b := b + t[i].name;
      }
    }
    assert t[..|t|] == t;
  }

  lemma UsableNext(t: seq<Entry>, i: nat)
    requires i < |t|
    ensures Usable(t[..i + 1]) == if t[i].usable then Usable(t[..i]) + [t[i].name] else Usable(t[..i])
  {
    assert t[..i + 1][..i] == t[..i];
  }

  lemma JoinNext(ns: seq<Name>, n: Name)
    ensures Join(ns + [n]) == (if ns == [] then [] else Join(ns) + [COMMA]) + n
  {
    assert (ns + [n])[..|ns|] == ns;
  }

  /** What get_algolist makes of a list: it exits on too many names and gives none when there is no room
      for any or when it meets a NUL. */
  datatype Parsed = TooMany | NoNames | Names(ns: seq<Name>)

  function Parse(b: seq<u8>, max: nat): (p: Parsed)
    ensures p.Names? ==> |p.ns| > 0
  {
    if max == 0 then NoNames
    else if b == [] then Names([[]])
    else
      var p, x := Parse(b[..|b| - 1], max), b[|b| - 1];
      if !p.Names? then p
      else if x == 0 then NoNames
      else if x == COMMA then if |p.ns| >= max then TooMany else Names(p.ns + [[]])
      else Names(p.ns[|p.ns| - 1 := p.ns[|p.ns| - 1] + [x]])
  }

  /** get_algolist. A list that is too long clears the count, and the next line sets it again. */
  method GetAlgolist(b: seq<u8>, max: nat) returns (p: Parsed)
    ensures p == Parse(b, max)
  {
    var retCount := max;
    if retCount == 0 { return NoNames; }
    if |b| > MAX_PROPOSED_ALGO * (MAX_NAME_LEN + 1) { retCount := 0; }
    var ns: seq<Name> := [[]];
    retCount := 1;
    for i := 0 to |b|
      invariant retCount == |ns| > 0 && Parse(b[..i], max) == Names(ns)
    {
      assert b[..i + 1][..i] == b[..i];
      if b[i] == 0 {
        StaysEnded(b, i + 1, max);
        return NoNames;
      }
      if b[i] == COMMA {
        if retCount >= max {
          StaysEnded(b, i + 1, max);
          return TooMany;
        }
        ns := ns + [[]];
        retCount := retCount + 1;
      } else {
        ns := ns[|ns| - 1 := ns[|ns| - 1] + [b[i]]];
      }
    }
    assert b[..|b|] == b;
    p := Names(ns);
  }

  lemma {:induction false} StaysEnded(b: seq<u8>, i: nat, max: nat)
    requires i <= |b| && !Parse(b[..i], max).Names?
    ensures Parse(b, max) == Parse(b[..i], max)
    decreases |b|
  {
    if i == |b| {
      assert b[..i] == b;
    } else {
      assert b[..|b| - 1][..i] == b[..i];
      StaysEnded(b[..|b| - 1], i, max);
    }
  }

  /** A plain name behind a comma, or at the start, is parsed as the last name. */
  lemma {:induction false} ParseName(b: seq<u8>, n: Name, max: nat)
    requires Parse(b, max).Names? && COMMA !in n && 0 !in n
    ensures var ns := Parse(b, max).ns; Parse(b + n, max) == Names(ns[|ns| - 1 := ns[|ns| - 1] + n])
    decreases |n|
  {
    var ns := Parse(b, max).ns;
    if n == [] {
      assert b + n == b && ns[|ns| - 1] + n == ns[|ns| - 1];
    } else {
      var m := n[..|n| - 1];
      ParseName(b, m, max);
      assert (b + n)[..|b + n| - 1] == b + m;
      assert ns[|ns| - 1] + n == ns[|ns| - 1] + m + [n[|n| - 1]];
    }
  }

  function Commas(b: seq<u8>): nat
  {
    if b == [] then 0 else Commas(b[..|b| - 1]) + if b[|b| - 1] == COMMA then 1 else 0
  }

  /** The scan gets as far as a NUL at position i. */
  ghost predicate ReachesNul(b: seq<u8>, max: nat, i: nat)
  {
    i < |b| && b[i] == 0 && 0 !in b[..i] && Commas(b[..i]) < max
  }

  lemma {:induction false} ParsedNames(b: seq<u8>, max: nat)
    requires max > 0
    ensures Parse(b, max).Names? <==> 0 !in b && Commas(b) < max
    ensures Parse(b, max).Names? ==> |Parse(b, max).ns| == Commas(b) + 1
  {
    if b != [] {
      ParsedNames(b[..|b| - 1], max);
      assert b == b[..|b| - 1] + [b[|b| - 1]];
    }
  }

  /** A list is read as no names exactly when it has a NUL that the scan reaches, whatever its length: the
      length check of get_algolist does not make it so. */
  lemma {:induction false} NoNamesIff(b: seq<u8>, max: nat)
    requires max > 0
    ensures Parse(b, max).NoNames? <==> exists i :: ReachesNul(b, max, i)
  {
    if b != [] {
      var n := |b| - 1;
      var init := b[..n];
      NoNamesIff(init, max);
      ParsedNames(init, max);
      forall i | 0 <= i < n ensures ReachesNul(b, max, i) <==> ReachesNul(init, max, i) {
        assert init[..i] == b[..i];
      }
      if Parse(b, max).NoNames? && Parse(init, max).Names? {
        assert ReachesNul(b, max, n);
      }
    }
  }

  /** The length check does what it says of a list beyond it, to be read as no names, if and only if the
      scan reaches a NUL; buf_getstring lets no list beyond MAX_STRING_LEN through. */
  lemma OverlongIff(b: seq<u8>)
    requires MAX_PROPOSED_ALGO * (MAX_NAME_LEN + 1) < |b| <= MAX_STRING_LEN
    ensures NamesIn(b) == [] && !Exits(b) <==> exists i :: ReachesNul(b, MAX_PROPOSED_ALGO, i)
  {
    NoNamesIff(b, MAX_PROPOSED_ALGO);
  }

  /** A name beyond the check that is read like any other. */
  lemma LongNameRead(n: Name)
    requires COMMA !in n && 0 !in n && MAX_PROPOSED_ALGO * (MAX_NAME_LEN + 1) < |n| <= MAX_STRING_LEN
    ensures !Exits(n) && NamesIn(n) == [n]
  {
    ParseName([], n, MAX_PROPOSED_ALGO);
    assert [] + n == n;
  }

  /** A list of plain names comes back as it was; the empty list as one empty name. */
  lemma {:induction false} JoinParse(ns: seq<Name>, max: nat)
    requires max > 0 && |ns| <= max && forall n :: n in ns ==> Plain(n)
    ensures Parse(Join(ns), max) == Names(if ns == [] then [[]] else ns)
  {
    if |ns| == 1 {
      assert Plain(ns[0]);
      ParseName([], ns[0], max);
      assert [] + ns[0] == ns[0];
      assert [ns[0]] == ns;
    } else if |ns| > 1 {
      JoinParse(ns[..|ns| - 1], max);
      JoinParseStep(ns, max);
    }
  }

  lemma JoinParseStep(ns: seq<Name>, max: nat)
    requires 1 < |ns| <= max && Plain(ns[|ns| - 1])
    requires Parse(Join(ns[..|ns| - 1]), max) == Names(ns[..|ns| - 1])
    ensures Parse(Join(ns), max) == Names(ns)
  {
    var init, last := ns[..|ns| - 1], ns[|ns| - 1];
    ParseComma(Join(init), max);
    ParseName(Join(init) + [COMMA], last, max);
    assert [] + last == last;
    assert (init + [[]])[|init| := last] == init + [last] == ns;
  }

  lemma ParseComma(b: seq<u8>, max: nat)
    requires Parse(b, max).Names? && |Parse(b, max).ns| < max
    ensures Parse(b + [COMMA], max) == Names(Parse(b, max).ns + [[]])
  {
    assert (b + [COMMA])[..|b|] == b;
  }

  lemma {:induction false} JoinShort(ns: seq<Name>)
    requires forall n :: n in ns ==> |n| <= MAX_NAME_LEN
    ensures |Join(ns)| <= |ns| * (MAX_NAME_LEN + 1)
  {
    if |ns| == 1 {
      assert ns[0] in ns;
    } else if |ns| > 1 {
      JoinShort(ns[..|ns| - 1]);
      assert ns[|ns| - 1] in ns;
    }
  }

  /** What the peer reads of a table. */
  lemma ListTravels(t: seq<Entry>)
    requires Table(t)
    ensures !Exits(Join(Usable(t))) && NamesIn(Join(Usable(t))) == if Usable(t) == [] then [[]] else Usable(t)
  {
    UsableIn(t);
    JoinShort(Usable(t));
    JoinParse(Usable(t), MAX_PROPOSED_ALGO);
  }

  /** The names that a list is taken for; one with a NUL counts as empty. */
  function NamesIn(b: seq<u8>): seq<Name>
  {
    var p := Parse(b, MAX_PROPOSED_ALGO);
    if p.Names? then p.ns else []
  }

  /** buf_getstring exits on a string that is too long, and get_algolist on too many names. */
  predicate Exits(b: seq<u8>)
  {
    |b| > MAX_STRING_LEN || Parse(b, MAX_PROPOSED_ALGO).TooMany?
  }

  /** buf_has_algo */
  method HasAlgo(b: seq<u8>, algo: Name) returns (exit: bool, r: bool)
    ensures exit <==> Exits(b)
    ensures !exit ==> (r <==> algo in NamesIn(b))
  {
    exit, r := false, false;
    if |b| > MAX_STRING_LEN { exit := true; return; }
    var p := GetAlgolist(b, MAX_PROPOSED_ALGO);
    if p.TooMany? { exit := true; return; }
    var names := if p.Names? then p.ns else [];
    for i := 0 to |names|
      invariant algo !in names[..i]
    {
      if names[i] == algo { r := true; return; }
    }
    assert names[..|names|] == names;
  }

  // ------------------------------------------------------------------ matching

  /** The local names by position in the table, with gaps for unusable entries. */
  predicate Local(ns: seq<Option<Name>>, t: seq<Entry>)
  {
    |ns| == |t| && forall i :: 0 <= i < |t| ==> ns[i] == if t[i].usable then Some(t[i].name) else None
  }

  /** The names of a list as received. */
  predicate Remote(ns: seq<Option<Name>>, names: seq<Name>)
  {
    |ns| == |names| && forall i :: 0 <= i < |names| ==> ns[i] == Some(names[i])
  }

  method LocalNames(t: seq<Entry>) returns (ns: seq<Option<Name>>)
    ensures Local(ns, t)
  {
    ns := [];
    for i := 0 to |t|
      invariant |ns| == i && forall k :: 0 <= k < i ==> ns[k] == if t[k].usable then Some(t[k].name) else None
    {
      ns := ns + [if t[i].usable then Some(t[i].name) else None];
    }
  }

  predicate Hit(cli: seq<Option<Name>>, serv: seq<Option<Name>>, i: nat, j: nat)
  {
    i < |cli| && j < |serv| && cli[i].Some? && serv[j] == cli[i]
  }

  /** The first client position with a match, and its first match. */
  ghost predicate First(cli: seq<Option<Name>>, serv: seq<Option<Name>>, i: nat, j: nat)
  {
    Hit(cli, serv, i, j) && NoneBefore(cli, serv, i) && forall j' :: 0 <= j' < j ==> !Hit(cli, serv, i, j')
  }

  ghost predicate NoneBefore(cli: seq<Option<Name>>, serv: seq<Option<Name>>, i: nat)
  {
    forall i', j' :: 0 <= i' < i && 0 <= j' ==> !Hit(cli, serv, i', j')
  }

  datatype Match = Match(i: nat, j: nat, good: bool)

  /** The first match if there is one, and whether it makes the guess a good one. */
  ghost predicate Searched(cli: seq<Option<Name>>, serv: seq<Option<Name>>, kexguess2: bool, r: Option<Match>)
  {
    && (r.Some? ==> First(cli, serv, r.value.i, r.value.j))
    && (r.Some? ==> (r.value.good <==> r.value.i == 0 && (kexguess2 || r.value.j == 0)))
    && (r.None? ==> forall i: nat, j: nat :: !Hit(cli, serv, i, j))
  }

  /** The search of buf_match_algo. */
  method MatchAlgo(cli: seq<Option<Name>>, serv: seq<Option<Name>>, kexguess2: bool) returns (r: Option<Match>)
    ensures Searched(cli, serv, kexguess2, r)
  {
    for i := 0 to |cli|
      invariant NoneBefore(cli, serv, i)
    {
      for j := 0 to |serv|
        invariant forall j' :: 0 <= j' < j ==> !Hit(cli, serv, i, j')
      {
        if serv[j].Some? && cli[i].Some? && serv[j] == cli[i] {
          assert Hit(cli, serv, i, j);
          return Some(Match(i, j, if kexguess2 then i == 0 else i == 0 && j == 0));
        }
      }
    }
    r := None;
  }

  method Present(names: seq<Name>) returns (ns: seq<Option<Name>>)
    ensures Remote(ns, names)
  {
    ns := [];
    for i := 0 to |names|
      invariant |ns| == i && forall k :: 0 <= k < i ==> ns[k] == Some(names[k])
    {
      ns := ns + [Some(names[i])];
    }
  }

  /** first_usable_algo */
  method FirstUsableAlgo(t: seq<Entry>) returns (r: Option<nat>)
    ensures r.Some? ==> r.value < |t| && t[r.value].usable && Usable(t) != [] && Usable(t)[0] == t[r.value].name
    ensures r.None? ==> Usable(t) == []
  {
    for i := 0 to |t|
      invariant Usable(t[..i]) == []
    {
      assert t[..i + 1][..i] == t[..i];
      if t[i].usable {
        UsableAt(t, i);
        return Some(i);
      }
    }
    assert t[..|t|] == t;
    r := None;
  }

  // ------------------------------------------------------------------ what the search finds

  /** Section 7.1 of RFC 4253: the first algorithm of the client's list that the server has too. */
  ghost predicate Negotiated(client: seq<Name>, server: seq<Name>, n: Name)
  {
    exists i :: 0 <= i < |client| && client[i] == n && n in server && forall k :: 0 <= k < i ==> client[k] !in server
  }

  lemma NegotiatedUnique(client: seq<Name>, server: seq<Name>, n: Name, m: Name)
    requires Negotiated(client, server, n) && Negotiated(client, server, m)
    ensures n == m
  {}

  /** The same as a function. */
  function Choice(client: seq<Name>, server: seq<Name>): (r: Option<Name>)
    ensures r.Some? <==> exists n :: n in client && n in server
    ensures r.Some? ==> Negotiated(client, server, r.value)
  {
    if client == [] then None
    else
      var r := Choice(client[..|client| - 1], server);
      if r.Some? then ChoiceEarlier(client, server, r.value); r
      else if client[|client| - 1] in server then ChoiceLast(client, server); Some(client[|client| - 1])
      else None
  }

  lemma ChoiceEarlier(client: seq<Name>, server: seq<Name>, n: Name)
    requires client != [] && Negotiated(client[..|client| - 1], server, n)
    ensures n in client && n in server && Negotiated(client, server, n)
  {
    var init := client[..|client| - 1];
    var i :| 0 <= i < |init| && init[i] == n && n in server && forall k :: 0 <= k < i ==> init[k] !in server;
    assert client[i] == n && forall k :: 0 <= k < i ==> client[k] == init[k];
  }

  lemma ChoiceLast(client: seq<Name>, server: seq<Name>)
    requires client != [] && client[|client| - 1] in server && forall n :: n in client[..|client| - 1] ==> n !in server
    ensures Negotiated(client, server, client[|client| - 1])
  {
    forall k | 0 <= k < |client| - 1 ensures client[k] !in server { assert client[k] in client[..|client| - 1]; }
  }

  lemma NegotiatedAt(client: seq<Name>, server: seq<Name>, i: nat)
    requires i < |client| && client[i] in server && forall k :: 0 <= k < i ==> client[k] !in server
    ensures Choice(client, server) == Some(client[i])
  {
    assert Negotiated(client, server, client[i]);
    NegotiatedUnique(client, server, client[i], Choice(client, server).value);
  }

  /** Entry i is the one behind the usable entries before it. */
  lemma {:induction false} UsableAt(t: seq<Entry>, i: nat)
    requires i < |t| && t[i].usable
    ensures var n := |Usable(t[..i])|; n < |Usable(t)| && Usable(t)[n] == t[i].name && Usable(t[..i]) == Usable(t)[..n]
  {
    var init := t[..|t| - 1];
    if i == |t| - 1 {
      assert init == t[..i];
    } else {
      assert init[..i] == t[..i] && init[i] == t[i];
      UsableAt(init, i);
    }
  }

  /** No match at a client position means the server does not have that name. */
  lemma MissesTable(cli: seq<Option<Name>>, client: seq<Name>, serv: seq<Option<Name>>, s: seq<Entry>, k: nat)
    requires Remote(cli, client) && Local(serv, s) && k < |client| && forall j :: 0 <= j ==> !Hit(cli, serv, k, j)
    ensures client[k] !in Usable(s)
  {
    UsableIn(s);
    forall j | 0 <= j < |s| && s[j].usable ensures s[j].name != client[k] {
      assert !Hit(cli, serv, k, j);
    }
  }

  lemma MissesList(cli: seq<Option<Name>>, c: seq<Entry>, serv: seq<Option<Name>>, server: seq<Name>, k: nat)
    requires Local(cli, c) && Remote(serv, server) && k < |c| && c[k].usable
             && forall j :: 0 <= j ==> !Hit(cli, serv, k, j)
    ensures c[k].name !in server
  {
    forall j | 0 <= j < |server| ensures server[j] != c[k].name {
      assert !Hit(cli, serv, k, j);
    }
  }

  lemma MissesBefore(cli: seq<Option<Name>>, c: seq<Entry>, serv: seq<Option<Name>>, server: seq<Name>, i: nat, n: Name)
    requires Local(cli, c) && Remote(serv, server) && i <= |c| && n in Usable(c[..i]) && NoneBefore(cli, serv, i)
    ensures n !in server
  {
    UsableIn(c[..i]);
    var k :| 0 <= k < i && c[..i][k].usable && c[..i][k].name == n;
    MissesList(cli, c, serv, server, k);
  }

  lemma ClientChoice(cli: seq<Option<Name>>, c: seq<Entry>, serv: seq<Option<Name>>, server: seq<Name>, i: nat, j: nat)
    requires Local(cli, c) && Remote(serv, server) && First(cli, serv, i, j)
    ensures i < |c| && c[i].usable && Choice(Usable(c), server) == Some(c[i].name)
  {
    var before := Usable(c[..i]);
    UsableAt(c, i);
    forall k | 0 <= k < |before| ensures Usable(c)[k] !in server {
      assert Usable(c)[k] == before[k];
      MissesBefore(cli, c, serv, server, i, before[k]);
    }
    assert server[j] == c[i].name;
    NegotiatedAt(Usable(c), server, |before|);
  }

  lemma ServerChoice(cli: seq<Option<Name>>, client: seq<Name>, serv: seq<Option<Name>>, s: seq<Entry>, i: nat, j: nat)
    requires Remote(cli, client) && Local(serv, s) && First(cli, serv, i, j)
    ensures j < |s| && s[j].usable && Choice(client, Usable(s)) == Some(s[j].name)
  {
    UsableIn(s);
    forall k | 0 <= k < i ensures client[k] !in Usable(s) {
      MissesTable(cli, client, serv, s, k);
    }
    NegotiatedAt(client, Usable(s), i);
  }

  predicate FirstUsable(t: seq<Entry>)
  {
    |t| > 0 && t[0].usable
  }

  /** The guess is good: each side counts positions in its own table and in the list it received. */
  predicate ClientGood(c: seq<Entry>, server: seq<Name>, kexguess2: bool)
  {
    FirstUsable(c) && c[0].name in server && (kexguess2 || c[0].name == server[0])
  }

  predicate ServerGood(client: seq<Name>, s: seq<Entry>, kexguess2: bool)
  {
    client != [] && client[0] in Usable(s) && (kexguess2 || (FirstUsable(s) && s[0].name == client[0]))
  }

  predicate Good(r: Option<Match>)
  {
    r.Some? && r.value.good
  }

  lemma ClientFinds(cli: seq<Option<Name>>, c: seq<Entry>, serv: seq<Option<Name>>, server: seq<Name>,
                    kexguess2: bool, r: Option<Match>)
    requires Local(cli, c) && Remote(serv, server) && Searched(cli, serv, kexguess2, r)
    ensures r.Some? <==> Choice(Usable(c), server).Some?
    ensures r.Some? ==> r.value.i < |c| && c[r.value.i].usable && Choice(Usable(c), server) == Some(c[r.value.i].name)
    ensures Good(r) <==> ClientGood(c, server, kexguess2)
  {
    UsableIn(c);
    if r.Some? {
      ClientChoice(cli, c, serv, server, r.value.i, r.value.j);
    } else {
      forall i | 0 <= i < |c| && c[i].usable ensures c[i].name !in server {
        MissesList(cli, c, serv, server, i);
      }
    }
    ClientJudges(cli, c, serv, server, kexguess2, r);
  }

  lemma ClientJudges(cli: seq<Option<Name>>, c: seq<Entry>, serv: seq<Option<Name>>, server: seq<Name>,
                     kexguess2: bool, r: Option<Match>)
    requires Local(cli, c) && Remote(serv, server) && Searched(cli, serv, kexguess2, r)
    ensures Good(r) <==> ClientGood(c, server, kexguess2)
  {
    if FirstUsable(c) && c[0].name in server {
      var j :| 0 <= j < |server| && server[j] == c[0].name;
      assert Hit(cli, serv, 0, j);
      assert r.value.i == 0;
      assert Hit(cli, serv, 0, 0) <==> server[0] == c[0].name;
    }
  }

  lemma ServerFinds(cli: seq<Option<Name>>, client: seq<Name>, serv: seq<Option<Name>>, s: seq<Entry>,
                    kexguess2: bool, r: Option<Match>)
    requires Remote(cli, client) && Local(serv, s) && Searched(cli, serv, kexguess2, r)
    ensures r.Some? <==> Choice(client, Usable(s)).Some?
    ensures r.Some? ==> r.value.j < |s| && s[r.value.j].usable && Choice(client, Usable(s)) == Some(s[r.value.j].name)
    ensures Good(r) <==> ServerGood(client, s, kexguess2)
  {
    if r.Some? {
      ServerChoice(cli, client, serv, s, r.value.i, r.value.j);
    } else {
      forall i | 0 <= i < |client| ensures client[i] !in Usable(s) {
        MissesTable(cli, client, serv, s, i);
      }
    }
    ServerJudges(cli, client, serv, s, kexguess2, r);
  }

  lemma ServerJudges(cli: seq<Option<Name>>, client: seq<Name>, serv: seq<Option<Name>>, s: seq<Entry>,
                     kexguess2: bool, r: Option<Match>)
    requires Remote(cli, client) && Local(serv, s) && Searched(cli, serv, kexguess2, r)
    ensures Good(r) <==> ServerGood(client, s, kexguess2)
  {
    UsableIn(s);
    if client != [] && client[0] in Usable(s) {
      var j :| 0 <= j < |s| && s[j].usable && s[j].name == client[0];
      assert Hit(cli, serv, 0, j);
      assert r.value.i == 0;
      assert Hit(cli, serv, 0, 0) <==> s[0].usable && s[0].name == client[0];
    }
  }

  /** The algorithm that a side with table t has to find in a list of its peer. */
  function Agreed(isServer: bool, b: seq<u8>, t: seq<Entry>): Option<Name>
  {
    if isServer then Choice(NamesIn(b), Usable(t)) else Choice(Usable(t), NamesIn(b))
  }

  predicate GoodGuess(isServer: bool, b: seq<u8>, t: seq<Entry>, kexguess2: bool)
  {
    if isServer then ServerGood(NamesIn(b), t, kexguess2) else ClientGood(t, NamesIn(b), kexguess2)
  }

  /** buf_match_algo finds the entry of the algorithm that RFC 4253 asks for, in any list. */
  method BufMatchAlgo(isServer: bool, b: seq<u8>, t: seq<Entry>, kexguess2: bool)
    returns (exit: bool, r: Option<nat>, good: bool)
    ensures exit <==> Exits(b)
    ensures !exit ==> (good <==> GoodGuess(isServer, b, t, kexguess2)) && (r.Some? <==> Agreed(isServer, b, t).Some?)
    ensures !exit && r.Some? ==> r.value < |t| && t[r.value].usable && Agreed(isServer, b, t) == Some(t[r.value].name)
  {
    exit, r, good := false, None, false;
    if |b| > MAX_STRING_LEN { exit := true; return; }
    var p := GetAlgolist(b, MAX_PROPOSED_ALGO);
    if p.TooMany? { exit := true; return; }
    var names := if p.Names? then p.ns else [];
    var remotenames := Present(names);
    var localnames := LocalNames(t);
    var clinames, servnames := if isServer then remotenames else localnames,
                               if isServer then localnames else remotenames;
    var found := MatchAlgo(clinames, servnames, kexguess2);
    if isServer {
      ServerFinds(clinames, names, servnames, t, kexguess2, found);
    } else {
      ClientFinds(clinames, t, servnames, names, kexguess2, found);
    }
    if found.Some? {
      good, r := found.value.good, Some(if isServer then found.value.j else found.value.i);
    }
  }

  // ------------------------------------------------------------------ two tables

  /** The list that reaches the peer. */
  function Received(t: seq<Entry>): seq<Name>
  {
    if Usable(t) == [] then [[]] else Usable(t)
  }

  /** The empty name that stands for an empty list matches no table: both sides find the same. */
  lemma SameChoice(c: seq<Entry>, s: seq<Entry>)
    requires Table(c) && Table(s)
    ensures Agreed(false, Join(Usable(s)), c) == Agreed(true, Join(Usable(c)), s) == Choice(Usable(c), Usable(s))
  {
    ListTravels(c);
    ListTravels(s);
    UsableIn(c);
    UsableIn(s);
    assert [] !in Usable(s) && [] !in Usable(c);
    ChoiceOfEmpty(Usable(c), Usable(s));
  }

  lemma ChoiceOfEmpty(client: seq<Name>, server: seq<Name>)
    requires [] !in client && [] !in server
    ensures Choice([[]], server) == None && Choice(client, [[]]) == None
  {}

  /** The client's first choice suits the server; without kexguess2 it has to be the server's first too. */
  predicate Suits(c: seq<Entry>, s: seq<Entry>, kexguess2: bool)
  {
    Usable(c) != [] && Usable(c)[0] in Usable(s) && (kexguess2 || Usable(c)[0] == Usable(s)[0])
  }

  lemma FirstOf(t: seq<Entry>)
    requires FirstUsable(t)
    ensures Usable(t) != [] && Usable(t)[0] == t[0].name
  {
    UsableAt(t, 0);
  }

  /** When the guess suits both, the client thinks it good only if the first entry of its table is
      usable, and without kexguess2 the server only if the first entry of its own is. */
  lemma Judgements(c: seq<Entry>, s: seq<Entry>, kexguess2: bool)
    requires Table(c) && Table(s)
    ensures GoodGuess(false, Join(Usable(s)), c, kexguess2) <==> Suits(c, s, kexguess2) && FirstUsable(c)
    ensures GoodGuess(true, Join(Usable(c)), s, kexguess2) <==> Suits(c, s, kexguess2) && (kexguess2 || FirstUsable(s))
  {
    ListTravels(c);
    ListTravels(s);
    UsableIn(c);
    UsableIn(s);
    assert [] !in Usable(s) && [] !in Usable(c);
    if FirstUsable(c) { FirstOf(c); }
    if FirstUsable(s) { FirstOf(s); }
  }

  /** A guess that suits is the algorithm both choose. */
  lemma SuitedIsChosen(c: seq<Entry>, s: seq<Entry>, kexguess2: bool)
    requires Suits(c, s, kexguess2)
    ensures Choice(Usable(c), Usable(s)) == Some(Usable(c)[0])
  {
    NegotiatedAt(Usable(c), Usable(s), 0);
  }
}
