/** A client and a server joined by FIFO channels run to the end. */
module Handshake {
  import opened Common
  import opened HandshakeScript
  import opened HandshakeEndpoint
  import Client = HandshakeClient
  import Server = HandshakeServer
  import opened HandshakeFlow

  /** The world as the script sees it. */
  ghost function WorldOf(c: Endpoint, s: Endpoint): World
    reads c, s
  {
    World(c.V(), s.V())
  }

  /** The first n messages that one side has sent reach the other. */
  method Deliver(from: Endpoint, to: Endpoint, n: nat)
    requires from != to && from.Valid() && to.Valid() && from.flags == to.flags && from.client == !to.client
    requires Ahead(from.flags, from.client, from.V(), to.V()) || Ahead(from.flags, to.client, to.V(), from.V())
    requires n <= |from.sent|
    modifies from`sent, to`inbox, to`arrived
    ensures from.Valid() && to.Valid()
    ensures from.sent == old(from.sent)[n..] && to.inbox == old(to.inbox) + old(from.sent)[..n]
    ensures Arrives(from.flags, old(from.V()), old(to.V()), from.V(), to.V())
  {
    hide MsgAt, FromClient, Segment, Hashed;
    ghost var v, u := from.V(), to.V();
    assert v.out[..n] == from.sent[..n] && v.out[n..] == from.sent[n..] + from.pending;
    EitherCanDeliver(from.flags, from.client, v, u, n);
    ghost var c: nat :| Delivers(from.flags, v, u, v.(out := v.out[n..]), u.(arrived := c), n, c);
    DeliveryKeeps(from.flags, from.client, v, u, v.(out := v.out[n..]), u.(arrived := c));
    to.inbox := to.inbox + from.sent[..n];
    from.sent := from.sent[n..];
    to.arrived := c;
  }

  lemma EitherCanDeliver(f: Flags, client: bool, from: View, to: View, n: nat)
    requires InStep(f, client, from) && InStep(f, !client, to) && n <= |from.out|
    requires Ahead(f, client, from, to) || Ahead(f, !client, to, from)
    ensures exists c: nat :: Delivers(f, from, to, from.(out := from.out[n..]), to.(arrived := c), n, c)
  {
    hide MsgAt, FromClient, Segment;
    if Ahead(f, client, from, to) {
      CanDeliver(f, client, from, to, n);
    } else {
      SegmentEmpty(f, to.arrived, to.arrived);
      assert from.out == [] && n == 0;
      assert Delivers(f, from, to, from.(out := from.out[n..]), to.(arrived := to.arrived), n, to.arrived);
    }
  }

  /** Two valid ends of one connection, in lockstep. */
  ghost predicate Joined(client: Client.ClientHandshake, server: Server.ServerHandshake)
    reads client, server, client.t, server.t
  {
    && client.Valid() && server.Valid() && client.t != server.t && client.t.flags == server.t.flags
    && Lockstep(client.t.flags, WorldOf(client.t, server.t))
  }

  lemma Ends(client: Client.ClientHandshake, server: Server.ServerHandshake)
    requires Joined(client, server)
    ensures client.t.client && !server.t.client
  {
  }

  /** The client runs until it rests, and what it has sent arrives. */
  method ClientTurn(client: Client.ClientHandshake, server: Server.ServerHandshake)
    requires Joined(client, server)
    modifies client, client.t, server.t`inbox, server.t`arrived
    ensures Joined(client, server) && Resting(client.t.flags, true, client.t.V())
    ensures client.t.pending == [] && client.t.sent == [] && server.t.stage == old(server.t.stage)
    ensures client.t.stage >= old(client.t.stage)
    ensures old(client.t.inbox) != [] || old(client.t.stage) == 0 ==> client.t.stage > old(client.t.stage)
    ensures client.t.stage == End(client.t.flags) ==> client.state == Client.Done
  {
    hide MsgAt, FromClient, Segment, Hashed, OnlyFrom, Follows, Arrives, Ahead, InStep, NeedsPeer, FirstAt;
    hide Client.ClientHandshake.Settled, Server.ServerHandshake.Settled;
    var c, s := client.t, server.t;
    ghost var f := c.flags;
    Ends(client, server);
    ghost var w0 := WorldOf(c, s);
    client.Run();
    ghost var w1 := WorldOf(c, s);
    NextKeeps(f, w0, w1);
    StartsWithClient(f, c.stage);
    Deliver(c, s, |c.sent|);
    NextKeeps(f, w1, WorldOf(c, s));
  }

  /** The server runs until it rests, and what it has sent arrives. */
  method ServerTurn(client: Client.ClientHandshake, server: Server.ServerHandshake)
    requires Joined(client, server)
    modifies server, server.t, client.t`inbox, client.t`arrived
    ensures Joined(client, server) && Resting(server.t.flags, false, server.t.V())
    ensures server.t.pending == [] && server.t.sent == [] && client.t.stage == old(client.t.stage)
    ensures server.t.stage == End(server.t.flags) ==> server.state == Server.Done
    ensures client.t.pending == old(client.t.pending) && client.t.sent == old(client.t.sent) && client.state == old(client.state)
  {
    hide MsgAt, FromClient, Segment, Hashed, OnlyFrom, Follows, Arrives, Ahead, InStep, NeedsPeer, FirstAt;
    hide Client.ClientHandshake.Settled, Server.ServerHandshake.Settled;
    var c, s := client.t, server.t;
    ghost var f := c.flags;
    Ends(client, server);
    ghost var w0 := WorldOf(c, s);
    server.Run();
    ghost var w1 := WorldOf(c, s);
    NextKeeps(f, w0, w1);
    Deliver(s, c, |s.sent|);
    NextKeeps(f, w1, WorldOf(c, s));
  }

  /** The first message is the client's, so it never rests before that. */
  lemma StartsWithClient(f: Flags, k: nat)
    ensures NeedsPeer(f, true, k) ==> k > 0
  {
    hide Hashed;
    forall j: nat | FirstAt(f, 0, j) ensures FromClient(f, j) {
      assert MsgAt(f, 0).Some?;
    }
  }

  lemma BothAtEnd(client: Client.ClientHandshake, server: Server.ServerHandshake)
    requires client.Valid() && server.Valid() && client.t.flags == server.t.flags
    requires client.state == Client.Done && server.state == Server.Done
    ensures client.finishedSent == client.finishedVerified == client.readKeyChanges == client.writeKeyChanges == 1
    ensures server.finishedSent == server.finishedVerified == server.readKeyChanges == server.writeKeyChanges == 1
    ensures client.t.transcript == server.t.transcript == Flow(client.t.flags)
    ensures !client.t.flags.resumed ==> ClientKeyExchange in client.t.transcript
  {
    ClientStages(client);
    ServerStages(server);
    hide MsgAt, Hashed, Flow, Client.ClientHandshake.Settled, Server.ServerHandshake.Settled;
    ClientFacts(client);
    ServerFacts(server);
    if !client.t.flags.resumed { InFull(client.t.flags, ClientKeyExchange); }
  }

  /**
   Whatever was negotiated, the two sides take turns until both are done, and
   then each has sent one Finished, verified one, and changed its read keys and
   its write keys once.
   */
  method Connect(client: Client.ClientHandshake, server: Server.ServerHandshake)
    requires client.Valid() && server.Valid() && client.t != server.t && client.t.flags == server.t.flags
    requires client.t.V() == View(0, 0, []) && server.t.V() == View(0, 0, [])
    modifies client, server, client.t, server.t
    ensures client.Valid() && server.Valid()
    ensures client.state == Client.Done && server.state == Server.Done
    ensures client.finishedSent == client.finishedVerified == client.readKeyChanges == client.writeKeyChanges == 1
    ensures server.finishedSent == server.finishedVerified == server.readKeyChanges == server.writeKeyChanges == 1
    ensures client.t.transcript == server.t.transcript == Flow(client.t.flags)
    ensures !client.t.flags.resumed ==> ClientKeyExchange in client.t.transcript
  {
    hide MsgAt, FromClient, Segment, Hashed, OnlyFrom, Lockstep, Next, NeedsPeer, Flow;
    hide Client.ClientHandshake.Settled, Server.ServerHandshake.Settled;
    ghost var f := client.t.flags;
    StartsInStep(f);
    while client.state != Client.Done || server.state != Server.Done
      invariant Joined(client, server)
      invariant client.t.inbox != [] || client.t.stage == 0 || (client.state == Client.Done && server.state == Server.Done)
      decreases End(f) - client.t.stage
    {
      ClientTurn(client, server);
      ServerTurn(client, server);
      if client.t.inbox == [] {
        assert Resting(f, true, client.t.V());
        NoDeadlock(f, WorldOf(client.t, server.t));
      }
    }
    BothAtEnd(client, server);
  }
}
