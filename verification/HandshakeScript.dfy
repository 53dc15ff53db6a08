/**
 The TLS 1.0 to 1.2 handshake as one list of messages that both sides work
 through (sections 7.3 and 7.4 of RFC 5246): which message stands at each
 stage, who sends it, and what it means for a side to follow the list. Two
 sides that follow it stay in step over FIFO channels and cannot get stuck.
 */
module HandshakeScript {
  import opened Common

  /** What the hello messages settle, and whether the client has a certificate. */
  datatype Flags = Flags(
    resumed: bool,      // an earlier session is resumed
    certAuth: bool,     // the cipher authenticates the server by certificate; otherwise by PSK
    ecdhe: bool,        // the key exchange is ephemeral
    status: bool,       // CertificateStatus was promised
    statusSent: bool,   // and is sent
    hint: bool,         // the server has a PSK identity hint
    certRequest: bool,  // the server asks for a certificate
    clientCert: bool,   // the client has one
    ticket: bool,       // NewSessionTicket was promised
    emptyTicket: bool,  // and turns out empty
    nextProto: bool,
    channelId: bool
  )

  predicate Agreed(f: Flags) {
    && (f.statusSent ==> f.status) && (f.status ==> f.certAuth)
    && (f.certRequest ==> f.certAuth)
  }

  datatype Msg =
    | ClientHello
    | ServerHello(flags: Flags)
    | Certificate(nonempty: bool)
    | CertificateStatus
    | ServerKeyExchange
    | CertificateRequest
    | ServerHelloDone
    | ClientKeyExchange
    | CertificateVerify
    | ChangeCipherSpec
    | NextProto
    | ChannelId
    | NewSessionTicket(empty: bool)
    | Finished(byServer: bool, over: seq<Msg>)

  function End(f: Flags): nat {
    if f.resumed then 9 else 17
  }

  function Optional(present: bool, m: Msg): Option<Msg> {
    if present then Some(m) else None
  }

  function FromClient(f: Flags, k: nat): bool {
    if f.resumed then k == 0 || k >= 5 else k == 0 || 7 <= k <= 13
  }

  /** The message at stage k; Finished carries the transcript it vouches for. */
  function MsgAt(f: Flags, k: nat): Option<Msg>
    decreases k, 1
  {
    if k == 0 then Some(ClientHello)
    else if k == 1 then Some(ServerHello(f))
    else if f.resumed then
      if k == 2 then Optional(f.ticket, NewSessionTicket(f.emptyTicket))
      else if k == 3 || k == 5 then Some(ChangeCipherSpec)
      else if k == 4 || k == 8 then Some(Finished(k == 4, Hashed(f, k)))
      else if k == 6 then Optional(f.nextProto, NextProto)
      else if k == 7 then Optional(f.channelId, ChannelId)
      else None
    else if k == 2 then Optional(f.certAuth, Certificate(true))
    else if k == 3 then Optional(f.statusSent, CertificateStatus)
    else if k == 4 then Optional(f.ecdhe || (!f.certAuth && f.hint), ServerKeyExchange)
    else if k == 5 then Optional(f.certRequest, CertificateRequest)
    else if k == 6 then Some(ServerHelloDone)
    else if k == 7 then Optional(f.certRequest, Certificate(f.clientCert))
    else if k == 8 then Some(ClientKeyExchange)
    else if k == 9 then Optional(f.certRequest && f.clientCert, CertificateVerify)
    else if k == 10 || k == 15 then Some(ChangeCipherSpec)
    else if k == 11 then Optional(f.nextProto, NextProto)
    else if k == 12 then Optional(f.channelId, ChannelId)
    else if k == 13 || k == 16 then Some(Finished(k == 16, Hashed(f, k)))
    else if k == 14 then Optional(f.ticket, NewSessionTicket(f.emptyTicket))
    else None
  }

  /** The handshake messages before stage k, which is what both sides hash. */
  function Hashed(f: Flags, k: nat): seq<Msg>
    decreases k, 0
  {
    if k == 0 then []
    else
      match MsgAt(f, k - 1)
      case None => Hashed(f, k - 1)
      case Some(m) => if m.ChangeCipherSpec? then Hashed(f, k - 1) else Hashed(f, k - 1) + [m]
  }

  /** The messages at stages a to b - 1. */
  function Segment(f: Flags, a: nat, b: nat): seq<Msg>
    decreases b
  {
    if a >= b then []
    else
      match MsgAt(f, b - 1)
      case None => Segment(f, a, b - 1)
      case Some(m) => Segment(f, a, b - 1) + [m]
  }

  /** Everything present at stages a to b - 1 is sent by the one side. */
  ghost predicate OnlyFrom(f: Flags, client: bool, a: nat, b: nat) {
    forall k: nat | a <= k < b && MsgAt(f, k).Some? :: FromClient(f, k) == client
  }

  lemma {:induction false} SegmentJoin(f: Flags, a: nat, b: nat, c: nat)
    requires a <= b <= c
    ensures Segment(f, a, c) == Segment(f, a, b) + Segment(f, b, c)
    decreases c
  {
    if b < c { SegmentJoin(f, a, b, c - 1); }
  }

  lemma SegmentOne(f: Flags, k: nat)
    ensures Segment(f, k, k + 1) == match MsgAt(f, k) case None => [] case Some(m) => [m]
  {
    assert Segment(f, k, k) == [];
  }

  /** The front of what is in flight belongs to the first stage that has a message. */
  lemma SegmentFront(f: Flags, a: nat, b: nat)
    requires a < b
    ensures Segment(f, a, b) == (match MsgAt(f, a) case None => [] case Some(m) => [m]) + Segment(f, a + 1, b)
  {
    SegmentJoin(f, a, a + 1, b);
    SegmentOne(f, a);
  }

  lemma {:induction false} SegmentEmpty(f: Flags, a: nat, b: nat)
    ensures Segment(f, a, b) == [] <==> forall k: nat | a <= k < b :: MsgAt(f, k).None?
    decreases b
  {
    hide MsgAt;
    if a < b {
      SegmentEmpty(f, a, b - 1);
      if MsgAt(f, b - 1).None? {
        assert Segment(f, a, b) == Segment(f, a, b - 1);
      } else {
        assert |Segment(f, a, b)| == |Segment(f, a, b - 1)| + 1;
        assert a <= b - 1 < b && !MsgAt(f, b - 1).None?;
      }
    }
  }

  /** Any first part of a segment is itself a segment. */
  lemma {:induction false} SegmentCut(f: Flags, a: nat, b: nat, n: nat) returns (c: nat)
    requires a <= b && n <= |Segment(f, a, b)|
    ensures a <= c <= b && Segment(f, a, c) == Segment(f, a, b)[..n] && Segment(f, c, b) == Segment(f, a, b)[n..]
    decreases b
  {
    hide MsgAt;
    if n == |Segment(f, a, b)| {
      c := b;
    } else {
      var s, t := Segment(f, a, b - 1), Segment(f, b - 1, b);
      SegmentJoin(f, a, b - 1, b);
      SegmentOne(f, b - 1);
      c := SegmentCut(f, a, b - 1, n);
      SegmentJoin(f, c, b - 1, b);
      CutJoin(s, t, n);
    }
  }

  lemma CutJoin(s: seq<Msg>, t: seq<Msg>, n: nat)
    requires n <= |s|
    ensures (s + t)[..n] == s[..n] && (s + t)[n..] == s[n..] + t
  {
  }

  // ---------- following the script ----------

  /** A side has dealt with the stages below `stage`; everything below `arrived` it has sent or received; `out` is under way. */
  datatype View = View(stage: nat, arrived: nat, out: seq<Msg>)

  ghost predicate InStep(f: Flags, client: bool, v: View) {
    v.stage <= v.arrived <= End(f) && OnlyFrom(f, !client, v.stage, v.arrived)
  }

  /** What has been received and not yet dealt with. */
  function Inbox(f: Flags, v: View): seq<Msg> {
    Segment(f, v.stage, v.arrived)
  }

  /** The side moves on through the script, sending exactly its own messages of it, in order. */
  ghost predicate Follows(f: Flags, client: bool, v: View, v': View) {
    && InStep(f, client, v')
    && v.stage <= v'.stage && v.arrived <= v'.arrived
    && OnlyFrom(f, client, v.arrived, v'.arrived)
    && v'.out == v.out + Segment(f, v.arrived, v'.arrived)
    && (v'.arrived > v.arrived ==> v'.stage == v'.arrived)
  }

  lemma FollowsTransitive(f: Flags, client: bool, u: View, v: View, w: View)
    requires InStep(f, client, u) && Follows(f, client, u, v) && Follows(f, client, v, w)
    ensures Follows(f, client, u, w)
  {
    hide MsgAt, FromClient, Segment;
    SegmentJoin(f, u.arrived, v.arrived, w.arrived);
  }

  lemma FollowsItself(f: Flags, client: bool, v: View)
    requires InStep(f, client, v)
    ensures Follows(f, client, v, v)
  {
    hide MsgAt, FromClient;
    assert Segment(f, v.arrived, v.arrived) == [];
  }

  /** An inbox is only emptied by moving on in the script. */
  lemma InboxConsumed(f: Flags, client: bool, v: View, v': View)
    requires InStep(f, client, v) && Follows(f, client, v, v') && Inbox(f, v) != [] && Inbox(f, v') == []
    ensures v'.stage > v.stage
  {
    hide MsgAt, FromClient;
    SegmentEmpty(f, v.stage, v.arrived);
  }

  lemma EndReached(f: Flags, client: bool, v: View, v': View)
    requires InStep(f, client, v) && Follows(f, client, v, v') && Inbox(f, v) != [] && v'.stage == End(f)
    ensures v'.stage > v.stage
  {
    hide MsgAt, FromClient;
    SegmentEmpty(f, v.stage, v.arrived);
  }

  /** The next message of the script is the peer's to send. */
  ghost predicate NeedsPeer(f: Flags, client: bool, stage: nat) {
    exists j: nat :: FirstAt(f, stage, j) && FromClient(f, j) == !client
  }

  ghost predicate FirstAt(f: Flags, stage: nat, j: nat) {
    stage <= j && MsgAt(f, j).Some? && forall k: nat | stage <= k < j :: MsgAt(f, k).None?
  }

  /** Nothing more to do until the peer sends, or at the end. */
  ghost predicate Resting(f: Flags, client: bool, v: View) {
    v.stage == End(f) || (Inbox(f, v) == [] && NeedsPeer(f, client, v.stage))
  }

  // ---------- the two sides together ----------

  datatype World = World(client: View, server: View)

  /** One side is ahead; the difference is its own messages, and exactly those are under way. */
  ghost predicate Ahead(f: Flags, client: bool, ahead: View, behind: View) {
    && behind.arrived <= ahead.arrived && OnlyFrom(f, client, behind.arrived, ahead.arrived)
    && ahead.out == Segment(f, behind.arrived, ahead.arrived) && behind.out == []
  }

  ghost predicate Lockstep(f: Flags, w: World) {
    && InStep(f, true, w.client) && InStep(f, false, w.server)
    && (Ahead(f, true, w.client, w.server) || Ahead(f, false, w.server, w.client))
  }

  /** The first n messages under way reach the other side, which then has everything up to stage c. */
  ghost predicate Delivers(f: Flags, from: View, to: View, from': View, to': View, n: nat, c: nat) {
    && n <= |from.out| && from' == from.(out := from.out[n..])
    && to.arrived <= c && (c == to.arrived || c <= from.arrived) && to' == to.(arrived := c)
    && Inbox(f, to') == Inbox(f, to) + from.out[..n]
  }

  ghost predicate Arrives(f: Flags, from: View, to: View, from': View, to': View) {
    exists n: nat, c: nat :: Delivers(f, from, to, from', to', n, c)
  }

  ghost predicate Next(f: Flags, w: World, w': World) {
    || (Follows(f, true, w.client, w'.client) && w'.server == w.server)
    || (Follows(f, false, w.server, w'.server) && w'.client == w.client)
    || Arrives(f, w.client, w.server, w'.client, w'.server)
    || Arrives(f, w.server, w.client, w'.server, w'.client)
  }

  lemma MoveKeeps(f: Flags, client: bool, me: View, peer: View, me': View)
    requires InStep(f, client, me) && InStep(f, !client, peer) && Follows(f, client, me, me')
    requires Ahead(f, client, me, peer) || Ahead(f, !client, peer, me)
    ensures Ahead(f, client, me', peer) || Ahead(f, !client, peer, me')
  {
    hide MsgAt, FromClient, Segment;
    if Ahead(f, client, me, peer) {
      SegmentJoin(f, peer.arrived, me.arrived, me'.arrived);
    } else {
      var low := if me'.arrived <= peer.arrived then me'.arrived else peer.arrived;
      SegmentEmpty(f, me.arrived, low);
      SegmentJoin(f, me.arrived, low, peer.arrived);
      SegmentJoin(f, me.arrived, low, me'.arrived);
      SegmentEmpty(f, low, low);
    }
  }

  /** The network can deliver any number of the messages under way. */
  lemma CanDeliver(f: Flags, client: bool, from: View, to: View, n: nat)
    requires InStep(f, client, from) && InStep(f, !client, to) && Ahead(f, client, from, to) && n <= |from.out|
    ensures exists c: nat :: Delivers(f, from, to, from.(out := from.out[n..]), to.(arrived := c), n, c)
  {
    hide MsgAt, FromClient, Segment;
    var c := SegmentCut(f, to.arrived, from.arrived, n);
    SegmentJoin(f, to.stage, to.arrived, c);
    assert Delivers(f, from, to, from.(out := from.out[n..]), to.(arrived := c), n, c);
  }

  lemma DeliveryKeeps(f: Flags, client: bool, from: View, to: View, from': View, to': View)
    requires InStep(f, client, from) && InStep(f, !client, to) && Arrives(f, from, to, from', to')
    requires Ahead(f, client, from, to) || Ahead(f, !client, to, from)
    ensures InStep(f, client, from') && InStep(f, !client, to')
    ensures Ahead(f, client, from', to') || Ahead(f, !client, to', from')
  {
    hide MsgAt, FromClient, Segment;
    var n: nat, c: nat :| Delivers(f, from, to, from', to', n, c);
    SegmentJoin(f, to.stage, to.arrived, c);
    if Ahead(f, client, from, to) {
      SegmentJoin(f, to.arrived, c, from.arrived);
      assert Segment(f, to.arrived, c) == from.out[..n];
    } else {
      assert c == to.arrived && n == 0;
      assert from' == from && to' == to;
    }
  }

  lemma NextKeeps(f: Flags, w: World, w': World)
    requires Lockstep(f, w) && Next(f, w, w')
    ensures Lockstep(f, w')
  {
    hide MsgAt, FromClient, Segment, Ahead, InStep;
    if Follows(f, true, w.client, w'.client) && w'.server == w.server {
      MoveKeeps(f, true, w.client, w.server, w'.client);
    } else if Follows(f, false, w.server, w'.server) && w'.client == w.client {
      MoveKeeps(f, false, w.server, w.client, w'.server);
    } else if Arrives(f, w.client, w.server, w'.client, w'.server) {
      DeliveryKeeps(f, true, w.client, w.server, w'.client, w'.server);
    } else {
      DeliveryKeeps(f, false, w.server, w.client, w'.server, w'.client);
    }
  }

  // ---------- whole runs ----------

  function Start(): World {
    World(View(0, 0, []), View(0, 0, []))
  }

  ghost predicate IsRun(f: Flags, run: seq<World>) {
    && |run| > 0 && run[0] == Start()
    && forall i | 0 < i < |run| :: Next(f, run[i - 1], run[i])
  }

  lemma StartsInStep(f: Flags)
    ensures Lockstep(f, Start())
  {
    hide MsgAt, FromClient, Hashed, Segment;
    var v := View(0, 0, []);
    SegmentEmpty(f, v.stage, v.arrived);
    assert InStep(f, true, v) && InStep(f, false, v) && Ahead(f, true, v, v);
  }

  /** In every run the two sides stay in step. */
  lemma {:induction false} RunInLockstep(f: Flags, run: seq<World>)
    requires IsRun(f, run)
    ensures Lockstep(f, run[|run| - 1])
    decreases |run|
  {
    hide Lockstep, Next;
    if |run| == 1 {
      StartsInStep(f);
    } else {
      RunInLockstep(f, run[..|run| - 1]);
      NextKeeps(f, run[|run| - 2], run[|run| - 1]);
    }
  }

  /** What waits in an inbox is what the script has next, and it comes from the peer. */
  lemma InboxIsExpected(f: Flags, client: bool, v: View, j: nat)
    requires InStep(f, client, v) && FirstAt(f, v.stage, j) && Inbox(f, v) != []
    ensures Inbox(f, v)[0] == MsgAt(f, j).value && FromClient(f, j) == !client
  {
    hide MsgAt, FromClient;
    SegmentEmpty(f, v.stage, v.arrived);
    assert j < v.arrived;
    SegmentJoin(f, v.stage, j, v.arrived);
    SegmentEmpty(f, v.stage, j);
    SegmentFront(f, j, v.arrived);
  }

  /** The two sides never wait for each other: once nothing is under way and both rest, both are at the end. */
  lemma NoDeadlock(f: Flags, w: World)
    requires Lockstep(f, w) && w.client.out == [] && w.server.out == []
    requires Resting(f, true, w.client) && Resting(f, false, w.server)
    ensures w.client.stage == w.server.stage == End(f)
  {
    hide MsgAt, FromClient, Segment;
    if Ahead(f, true, w.client, w.server) {
      RestTogether(f, true, w.client, w.server);
    } else {
      RestTogether(f, false, w.server, w.client);
    }
  }

  lemma PastEmpty(f: Flags, a: nat, b: nat, j: nat)
    requires MsgAt(f, j).Some? && a <= j && Segment(f, a, b) == []
    ensures j >= b
  {
    hide MsgAt, Segment;
    SegmentEmpty(f, a, b);
  }

  lemma RestTogether(f: Flags, client: bool, ahead: View, behind: View)
    requires InStep(f, client, ahead) && InStep(f, !client, behind) && Ahead(f, client, ahead, behind)
    requires ahead.out == [] && Resting(f, client, ahead) && Resting(f, !client, behind)
    ensures ahead.stage == behind.stage == End(f)
  {
    hide MsgAt, FromClient, Segment;
    NothingAfterEnd(f);
    if behind.stage < End(f) {
      var j: nat :| FirstAt(f, behind.stage, j) && FromClient(f, j) == client;
      PastEmpty(f, behind.stage, behind.arrived, j);
      PastEmpty(f, behind.arrived, ahead.arrived, j);
      if ahead.stage < End(f) {
        var i: nat :| FirstAt(f, ahead.stage, i) && FromClient(f, i) == !client;
        PastEmpty(f, ahead.stage, ahead.arrived, i);
      }
    } else if ahead.stage < End(f) {
      var i: nat :| FirstAt(f, ahead.stage, i) && FromClient(f, i) == !client;
      PastEmpty(f, ahead.stage, ahead.arrived, i);
    }
  }

  lemma PeerMeansMore(f: Flags, client: bool, k: nat)
    requires NeedsPeer(f, client, k)
    ensures k < End(f)
  {
    hide MsgAt, FromClient;
    NothingAfterEnd(f);
  }

  lemma NothingAfterEnd(f: Flags)
    ensures forall k: nat | k >= End(f) :: MsgAt(f, k).None?
  {
    hide Hashed;
  }
}
