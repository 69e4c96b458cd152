/** A client's and a server's session object joined by two wires: every run of the code in KexSession
    is a run of KexProtocol, so that its results hold of the objects. */
module KexPair {
  import opened Common
  import opened KexSpec
  import opened KexSession
  import opened KexProtocol

  class SessionPair {
    const client: TransportSession
    const server: TransportSession
    var clientExit: Option<Exit>
    var serverExit: Option<Exit>
    /** What each side has put on its wire. */
    var fromClient: seq<Packet>
    var fromServer: seq<Packet>
    /** The sessions, as they were before the exit if the program has ended. */
    ghost var clientState: Session
    ghost var serverState: Session

    ghost predicate ClientOk()
      reads this, client
    {
      && client.role == Client && (clientExit.None? ==> client.State() == clientState)
      && fromClient == clientState.out
    }

    ghost predicate ServerOk()
      reads this, server
    {
      && server.role == Server && (serverExit.None? ==> server.State() == serverState)
      && fromServer == serverState.out
    }

    ghost predicate Valid()
      reads this, client, server
    {
      client != server && ClientOk() && ServerOk()
    }

    ghost function View(): Link
      reads this
    {
      Link(clientState, serverState, clientExit, serverExit)
    }

    /** Both sides have sent their first KEXINIT. */
    constructor (clientEnv: Env, serverEnv: Env)
      ensures Valid() && View() == Start(clientEnv, serverEnv) && fresh(client) && fresh(server)
    {
      var c := new TransportSession(Client);
      var s := new TransportSession(Server);
      c.SendMsgKexinit(clientEnv);
      s.SendMsgKexinit(serverEnv);
      client, server, clientExit, serverExit := c, s, None, None;
      fromClient, fromServer := c.writequeue, s.writequeue;
      clientState, serverState := c.State(), s.State();
    }

    method ClientReceives(neg: Negotiation, env: Env)
      requires Valid() && Enabled(View(), Deliver(Client, env))
      modifies this`clientExit, this`fromClient, this`clientState, client
      ensures Valid() && View() == Apply(neg, old(View()), Deliver(Client, env))
    {
      clientExit := client.ReceivePacket(neg, fromServer[client.got], env);
      if clientExit.None? { fromClient, clientState := client.writequeue, client.State(); }
    }

    method ServerReceives(neg: Negotiation, env: Env)
      requires Valid() && Enabled(View(), Deliver(Server, env))
      modifies this`serverExit, this`fromServer, this`serverState, server
      ensures Valid() && View() == Apply(neg, old(View()), Deliver(Server, env))
    {
      serverExit := server.ReceivePacket(neg, fromClient[server.got], env);
      if serverExit.None? { fromServer, serverState := server.writequeue, server.State(); }
    }

    method Pass(ghost neg: Negotiation, at: Role, rekey: bool, env: Env)
      requires Valid() && Enabled(View(), Wake(at, rekey, env))
      modifies this, client, server
      ensures Valid() && View() == Apply(neg, old(View()), Wake(at, rekey, env))
    {
      if at.Client? {
        client.PassWithoutPacket(rekey, env);
        fromClient, clientState := client.writequeue, client.State();
      } else {
        server.PassWithoutPacket(rekey, env);
        fromServer, serverState := server.writequeue, server.State();
      }
    }

    method Submit(ghost neg: Negotiation, at: Role, m: Message)
      requires Valid() && Enabled(View(), Send(at, m))
      modifies this, client, server
      ensures Valid() && View() == Apply(neg, old(View()), Send(at, m))
    {
      if at.Client? {
        client.SubmitMessage(m);
        fromClient, clientState := client.writequeue, client.State();
      } else {
        server.SubmitMessage(m);
        fromServer, serverState := server.writequeue, server.State();
      }
    }

    method Take(neg: Negotiation, ev: Event)
      requires Valid() && Enabled(View(), ev)
      modifies this, client, server
      ensures Valid() && View() == Apply(neg, old(View()), ev)
    {
      match ev
      case Deliver(at, env) => if at.Client? { ClientReceives(neg, env); } else { ServerReceives(neg, env); }
      case Wake(at, rekey, env) => Pass(neg, at, rekey, env);
      case Send(at, m) => Submit(neg, at, m);
    }

    /** A run of the two programs from their first KEXINIT: neither takes an exit that a correct peer
        cannot cause, the keys agree round by round, and what was submitted has left once and in order
        or is held back. */
    method Run(neg: Negotiation, clientEnv: Env, serverEnv: Env, evs: seq<Event>)
      requires Valid() && View() == Start(clientEnv, serverEnv) && Runs(neg, View(), evs)
      modifies this, client, server
      ensures Valid() && View() == After(neg, old(View()), evs)
      ensures (clientExit.Some? ==> Harmless(neg, clientExit.value))
              && (serverExit.Some? ==> Harmless(neg, serverExit.value))
      ensures clientExit.None? && serverExit.None? ==>
        && client.keys <= server.keys && |server.keys| <= |client.keys| + 1
        && Holdable(client.writequeue) + client.replyQueue == client.submitted
        && Holdable(server.writequeue) + server.replyQueue == server.submitted
    {
      for i := 0 to |evs|
        invariant Valid() && Runs(neg, View(), evs[i..])
        invariant After(neg, View(), evs[i..]) == After(neg, old(View()), evs)
      {
        assert evs[i..][0] == evs[i] && evs[i..][1..] == evs[i + 1..];
        Take(neg, evs[i]);
      }
      RunSafe(neg, clientEnv, serverEnv, evs, Client);
      RunSafe(neg, clientEnv, serverEnv, evs, Server);
      HeldLeaveInOrder(neg, clientEnv, serverEnv, evs, Client);
      HeldLeaveInOrder(neg, clientEnv, serverEnv, evs, Server);
    }
  }
}
