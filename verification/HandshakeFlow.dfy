/**
 The two flows of RFC 5246 (figures 1 and 2 of section 7.3) as plain lists, and
 that the transcripts and keys of both sides go by them at every moment.
 */
module HandshakeFlow {
  import opened Common
  import opened HandshakeScript
  import opened HandshakeEndpoint
  import Client = HandshakeClient
  import Server = HandshakeServer

  function If(present: bool, m: Msg): seq<Msg> {
    if present then [m] else []
  }

  /** Both hellos and what the server sends with its own, in a full handshake. */
  function ServerFlight(f: Flags): seq<Msg> {
    [ClientHello, ServerHello(f)] + If(f.certAuth, Certificate(true)) + If(f.statusSent, CertificateStatus) +
    If(f.ecdhe || (!f.certAuth && f.hint), ServerKeyExchange) + If(f.certRequest, CertificateRequest) + [ServerHelloDone]
  }

  /** And what the client answers before it changes keys. */
  function BeforeKeys(f: Flags): seq<Msg> {
    ServerFlight(f) + If(f.certRequest, Certificate(f.clientCert)) + [ClientKeyExchange] +
    If(f.certRequest && f.clientCert, CertificateVerify)
  }

  /** What is negotiated to come between a client's key change and its Finished. */
  function Negotiated(f: Flags): seq<Msg> {
    If(f.nextProto, NextProto) + If(f.channelId, ChannelId)
  }

  function WithFinished(ms: seq<Msg>, byServer: bool): seq<Msg> {
    ms + [Finished(byServer, ms)]
  }

  function ClientDone(f: Flags): seq<Msg> {
    WithFinished(BeforeKeys(f) + Negotiated(f), false)
  }

  function Ticket(f: Flags): seq<Msg> {
    If(f.ticket, NewSessionTicket(f.emptyTicket))
  }

  /** The hellos of a resumed handshake, and the ticket before the server's key change. */
  function ShortHello(f: Flags): seq<Msg> {
    [ClientHello, ServerHello(f)] + Ticket(f)
  }

  /** All handshake messages, in order: each Finished vouches for all before it. */
  function Flow(f: Flags): seq<Msg> {
    if f.resumed then WithFinished(WithFinished(ShortHello(f), true) + Negotiated(f), false)
    else WithFinished(ClientDone(f) + Ticket(f), true)
  }

  // ---------- the list is the flow ----------

  lemma {:induction false} Longer(f: Flags, a: nat, b: nat)
    requires a <= b
    ensures Hashed(f, a) <= Hashed(f, b)
    decreases b
  {
    hide MsgAt;
    if a < b {
      Longer(f, a, b - 1);
      HashedStep(f, b - 1);
    }
  }

  lemma Steps(f: Flags, k: nat, ms: seq<Msg>, m: Msg, present: bool)
    requires Hashed(f, k) == ms && MsgAt(f, k) == Optional(present, m) && !m.ChangeCipherSpec?
    ensures Hashed(f, k + 1) == ms + If(present, m)
  {
    hide MsgAt;
    HashedStep(f, k);
  }

  lemma StepsOver(f: Flags, k: nat)
    requires MsgAt(f, k) == Some(ChangeCipherSpec)
    ensures Hashed(f, k + 1) == Hashed(f, k)
  {
    hide MsgAt;
    HashedStep(f, k);
  }

  lemma FullHello(f: Flags)
    requires !f.resumed
    ensures Hashed(f, 7) == ServerFlight(f)
  {
    hide Hashed;
    var s: nat := 0;
    assert Hashed(f, s) == [] by { NoneYet(f); }
    Steps(f, 0, [], ClientHello, true);
    Steps(f, 1, [ClientHello], ServerHello(f), true);
    var a := [ClientHello, ServerHello(f)];
    assert [ClientHello] + [ServerHello(f)] == a;
    Steps(f, 2, a, Certificate(true), f.certAuth);
    Steps(f, 3, a + If(f.certAuth, Certificate(true)), CertificateStatus, f.statusSent);
    Steps(f, 4, a + If(f.certAuth, Certificate(true)) + If(f.statusSent, CertificateStatus), ServerKeyExchange,
      f.ecdhe || (!f.certAuth && f.hint));
    Steps(f, 5, Hashed(f, 5), CertificateRequest, f.certRequest);
    Steps(f, 6, Hashed(f, 6), ServerHelloDone, true);
  }

  lemma NoneYet(f: Flags)
    ensures Hashed(f, 0) == []
  {
  }

  lemma FullExchange(f: Flags)
    requires !f.resumed
    ensures Hashed(f, 10) == BeforeKeys(f)
  {
    hide Hashed;
    FullHello(f);
    Steps(f, 7, Hashed(f, 7), Certificate(f.clientCert), f.certRequest);
    Steps(f, 8, Hashed(f, 8), ClientKeyExchange, true);
    Steps(f, 9, Hashed(f, 9), CertificateVerify, f.certRequest && f.clientCert);
  }

  lemma FullEnd(f: Flags)
    requires !f.resumed
    ensures Hashed(f, 13) == BeforeKeys(f) + Negotiated(f) && Hashed(f, 14) == ClientDone(f)
    ensures Hashed(f, 15) == ClientDone(f) + Ticket(f) && Hashed(f, 17) == Flow(f)
  {
    hide Hashed;
    FullExchange(f);
    StepsOver(f, 10);
    Steps(f, 11, Hashed(f, 11), NextProto, f.nextProto);
    Steps(f, 12, Hashed(f, 12), ChannelId, f.channelId);
    assert Hashed(f, 13) == BeforeKeys(f) + Negotiated(f);
    Steps(f, 13, Hashed(f, 13), Finished(false, Hashed(f, 13)), true);
    Steps(f, 14, Hashed(f, 14), NewSessionTicket(f.emptyTicket), f.ticket);
    StepsOver(f, 15);
    Steps(f, 16, Hashed(f, 16), Finished(true, Hashed(f, 16)), true);
  }

  lemma ShortFlow(f: Flags)
    requires f.resumed
    ensures Hashed(f, 3) == ShortHello(f) && Hashed(f, 5) == WithFinished(ShortHello(f), true)
    ensures Hashed(f, 8) == WithFinished(ShortHello(f), true) + Negotiated(f) && Hashed(f, 9) == Flow(f)
  {
    hide Hashed;
    NoneYet(f);
    Steps(f, 0, [], ClientHello, true);
    Steps(f, 1, [ClientHello], ServerHello(f), true);
    assert [ClientHello] + [ServerHello(f)] == [ClientHello, ServerHello(f)];
    Steps(f, 2, [ClientHello, ServerHello(f)], NewSessionTicket(f.emptyTicket), f.ticket);
    StepsOver(f, 3);
    Steps(f, 4, Hashed(f, 4), Finished(true, Hashed(f, 4)), true);
    StepsOver(f, 5);
    Steps(f, 6, Hashed(f, 6), NextProto, f.nextProto);
    Steps(f, 7, Hashed(f, 7), ChannelId, f.channelId);
    assert Hashed(f, 8) == WithFinished(ShortHello(f), true) + Negotiated(f);
    Steps(f, 8, Hashed(f, 8), Finished(false, Hashed(f, 8)), true);
  }

  /** The handshake messages of the list, from the start to the end, are those of the flow. */
  lemma ListIsFlow(f: Flags, k: nat)
    requires k <= End(f)
    ensures Hashed(f, k) <= Flow(f) && (k == End(f) ==> Hashed(f, k) == Flow(f))
  {
    hide Hashed, MsgAt;
    if f.resumed { ShortFlow(f); } else { FullEnd(f); }
    Longer(f, k, End(f));
  }

  // ---------- what is in it ----------

  ghost predicate Behind(ms: seq<Msg>, a: Msg, b: Msg) {
    exists i, j :: 0 <= i < j < |ms| && ms[i] == a && ms[j] == b
  }

  lemma InServerFlight(f: Flags, m: Msg)
    ensures m in ServerFlight(f) <==>
      || m == ClientHello || m == ServerHello(f) || (f.certAuth && m == Certificate(true)) || (f.statusSent && m == CertificateStatus)
      || ((f.ecdhe || (!f.certAuth && f.hint)) && m == ServerKeyExchange) || (f.certRequest && m == CertificateRequest)
      || m == ServerHelloDone
  {
    var a, b, c, d := If(f.certAuth, Certificate(true)), If(f.statusSent, CertificateStatus),
      If(f.ecdhe || (!f.certAuth && f.hint), ServerKeyExchange), If(f.certRequest, CertificateRequest);
    InMore([ClientHello, ServerHello(f)], a, m);
    InMore([ClientHello, ServerHello(f)] + a, b, m);
    InMore([ClientHello, ServerHello(f)] + a + b, c, m);
    InMore([ClientHello, ServerHello(f)] + a + b + c, d, m);
  }

  lemma InMore(a: seq<Msg>, b: seq<Msg>, m: Msg)
    ensures m in a + b <==> m in a || m in b
  {
  }

  lemma InBeforeKeys(f: Flags, m: Msg)
    ensures m in BeforeKeys(f) <==>
      || m in ServerFlight(f) || (f.certRequest && m == Certificate(f.clientCert)) || m == ClientKeyExchange
      || (f.certRequest && f.clientCert && m == CertificateVerify)
  {
    hide ServerFlight;
    var a := ServerFlight(f);
    var b := If(f.certRequest, Certificate(f.clientCert));
    InMore(a, b, m);
    InMore(a + b, [ClientKeyExchange], m);
  }

  lemma InNegotiated(f: Flags, m: Msg)
    ensures m in Negotiated(f) <==> (f.nextProto && m == NextProto) || (f.channelId && m == ChannelId)
    ensures m in Ticket(f) <==> f.ticket && m == NewSessionTicket(f.emptyTicket)
  {
  }

  lemma InFinished(ms: seq<Msg>, byServer: bool, m: Msg)
    requires !m.Finished?
    ensures m in WithFinished(ms, byServer) <==> m in ms
  {
    InMore(ms, [Finished(byServer, ms)], m);
  }

  lemma InFlow(f: Flags, m: Msg)
    requires !m.Finished?
    ensures m in Flow(f) <==>
      || (if f.resumed then m == ClientHello || m == ServerHello(f) else m in BeforeKeys(f))
      || m in Negotiated(f) || m in Ticket(f)
  {
    hide BeforeKeys, Negotiated, Ticket, WithFinished;
    if f.resumed {
      var a := WithFinished(ShortHello(f), true);
      InFinished(a + Negotiated(f), false, m);
      InMore(a, Negotiated(f), m);
      InFinished(ShortHello(f), true, m);
      InMore([ClientHello, ServerHello(f)], Ticket(f), m);
    } else {
      InFinished(ClientDone(f) + Ticket(f), true, m);
      InMore(ClientDone(f), Ticket(f), m);
      InFinished(BeforeKeys(f) + Negotiated(f), false, m);
      InMore(BeforeKeys(f), Negotiated(f), m);
    }
  }

  /** Where a full handshake has a message, apart from Finished. */
  lemma InFull(f: Flags, m: Msg)
    requires !f.resumed && !m.Finished?
    ensures m in Flow(f) <==>
      || m == ClientHello || m == ServerHello(f) || m == ServerHelloDone || m == ClientKeyExchange
      || (f.certAuth && m == Certificate(true)) || (f.certRequest && m == Certificate(f.clientCert))
      || (f.statusSent && m == CertificateStatus) || ((f.ecdhe || (!f.certAuth && f.hint)) && m == ServerKeyExchange)
      || (f.certRequest && m == CertificateRequest) || (f.certRequest && f.clientCert && m == CertificateVerify)
      || (f.nextProto && m == NextProto) || (f.channelId && m == ChannelId) || (f.ticket && m == NewSessionTicket(f.emptyTicket))
  {
    hide Flow, BeforeKeys, ServerFlight, Negotiated, Ticket;
    InFlow(f, m);
    InBeforeKeys(f, m);
    InServerFlight(f, m);
    InNegotiated(f, m);
  }

  /** Which messages a full handshake has, and that the client's key exchange comes after the server has said all it has to. */
  lemma FullFlow(f: Flags)
    requires !f.resumed
    ensures ClientKeyExchange in BeforeKeys(f) && Behind(BeforeKeys(f), ServerHelloDone, ClientKeyExchange)
    ensures f.certRequest ==> Behind(BeforeKeys(f), Certificate(f.clientCert), ClientKeyExchange)
    ensures (exists nonempty :: Certificate(nonempty) in ServerFlight(f)) <==> f.certAuth
    ensures CertificateStatus in Flow(f) <==> f.statusSent
    ensures ServerKeyExchange in Flow(f) <==> f.ecdhe || (!f.certAuth && f.hint)
    ensures CertificateRequest in Flow(f) <==> f.certRequest
    ensures CertificateVerify in Flow(f) <==> f.certRequest && f.clientCert
    ensures CertificateVerify in Flow(f) ==> CertificateVerify in BeforeKeys(f)
    ensures NextProto in Flow(f) <==> f.nextProto
    ensures ChannelId in Flow(f) <==> f.channelId
    ensures forall empty :: NewSessionTicket(empty) in Flow(f) <==> f.ticket && empty == f.emptyTicket
  {
    KeyExchangeBehind(f);
    hide Flow, BeforeKeys, ServerFlight, Behind;
    InBeforeKeys(f, ClientKeyExchange);
    InBeforeKeys(f, CertificateVerify);
    forall nonempty ensures Certificate(nonempty) in ServerFlight(f) <==> f.certAuth && nonempty { InServerFlight(f, Certificate(nonempty)); }
    assert f.certAuth ==> Certificate(true) in ServerFlight(f);
    InFull(f, CertificateStatus);
    InFull(f, ServerKeyExchange);
    InFull(f, CertificateRequest);
    InFull(f, CertificateVerify);
    InFull(f, NextProto);
    InFull(f, ChannelId);
    forall empty ensures NewSessionTicket(empty) in Flow(f) <==> f.ticket && empty == f.emptyTicket { InFull(f, NewSessionTicket(empty)); }
  }

  lemma KeyExchangeBehind(f: Flags)
    ensures Behind(BeforeKeys(f), ServerHelloDone, ClientKeyExchange)
    ensures f.certRequest ==> Behind(BeforeKeys(f), Certificate(f.clientCert), ClientKeyExchange)
  {
    var a, c := ServerFlight(f), If(f.certRequest, Certificate(f.clientCert));
    assert a[|a| - 1] == ServerHelloDone;
    hide ServerFlight;
    var b := BeforeKeys(f);
    assert b[|a| - 1] == ServerHelloDone && b[|a| + |c|] == ClientKeyExchange;
    if f.certRequest { assert b[|a|] == Certificate(f.clientCert); }
  }

  /** And a resumed one: only the hellos, what was negotiated, a ticket, and both Finished. */
  lemma ResumedFlow(f: Flags, m: Msg)
    requires f.resumed && !m.Finished?
    ensures m in Flow(f) <==>
      || m == ClientHello || m == ServerHello(f)
      || (f.nextProto && m == NextProto) || (f.channelId && m == ChannelId) || (f.ticket && m == NewSessionTicket(f.emptyTicket))
  {
    hide Flow, Negotiated, Ticket;
    InFlow(f, m);
    InNegotiated(f, m);
  }

  // ---------- who sends what ----------

  /** The side that a message belongs to; a certificate is the server's until it has said ServerHelloDone. */
  predicate OfClient(m: Msg, before: seq<Msg>) {
    match m
    case ClientHello | ClientKeyExchange | CertificateVerify | NextProto | ChannelId => true
    case ServerHello(_) | CertificateStatus | ServerKeyExchange | CertificateRequest | ServerHelloDone | NewSessionTicket(_) => false
    case Certificate(_) => ServerHelloDone in before
    case Finished(byServer, _) => !byServer
    case ChangeCipherSpec => false
  }

  /** Each message is sent by the side it belongs to. */
  lemma Senders(f: Flags, k: nat)
    requires MsgAt(f, k).Some? && !MsgAt(f, k).value.ChangeCipherSpec?
    ensures FromClient(f, k) <==> OfClient(MsgAt(f, k).value, Hashed(f, k))
  {
    hide Hashed;
    if MsgAt(f, k).value.Certificate? { CertificateSender(f, k); }
  }

  lemma CertificateSender(f: Flags, k: nat)
    requires MsgAt(f, k).Some? && MsgAt(f, k).value.Certificate?
    ensures FromClient(f, k) <==> ServerHelloDone in Hashed(f, k)
  {
    hide Hashed;
    assert !f.resumed && (k == 2 || k == 7);
    hide MsgAt;
    FullHello(f);
    InServerFlight(f, ServerHelloDone);
    HelloHasNoDone(f);
  }

  /** Each Finished comes right under the key change of the side that sends it. */
  lemma FinishedUnderNewKeys(f: Flags, k: nat)
    requires MsgAt(f, k).Some? && MsgAt(f, k).value.Finished?
    ensures exists j: nat :: j < k && UnderKeysOf(f, j, k)
  {
    hide Hashed;
    var j: nat := if f.resumed then if k == 4 then 3 else 5 else if k == 13 then 10 else 15;
    assert UnderKeysOf(f, j, k);
  }

  /** From the ChangeCipherSpec at stage j up to stage k only one side speaks, and changes keys once. */
  ghost predicate UnderKeysOf(f: Flags, j: nat, k: nat) {
    && MsgAt(f, j) == Some(ChangeCipherSpec)
    && forall i: nat | j <= i <= k && MsgAt(f, i).Some? ::
         FromClient(f, i) == FromClient(f, k) && (i > j ==> !MsgAt(f, i).value.ChangeCipherSpec?)
  }

  lemma HelloHasNoDone(f: Flags)
    ensures ServerHelloDone !in Hashed(f, 2)
  {
    hide Hashed;
    var zero: nat := 0;
    NoneYet(f);
    Steps(f, zero, [], ClientHello, true);
    Steps(f, 1, [ClientHello], ServerHello(f), true);
  }

  // ---------- both sides, at every moment ----------

  /**
   The client at any moment. Its transcript is a part of the flow from the start;
   its keys change, and Finished goes out and is believed, in the one order.
   */
  lemma ClientFacts(c: Client.ClientHandshake)
    requires c.Valid()
    ensures var f, tr := c.t.flags, c.t.transcript;
      && tr <= Flow(f) && (c.state == Client.Done ==> tr == Flow(f))
      && c.finishedSent == c.writeKeyChanges && (c.finishedVerified > 0 ==> c.readKeyChanges > 0)
      && (!f.resumed && c.writeKeyChanges > 0 ==> BeforeKeys(f) <= tr && ClientDone(f) <= tr)
      && (!f.resumed && c.readKeyChanges > 0 ==> c.finishedSent > 0 && ClientDone(f) + Ticket(f) <= tr)
      && (!f.resumed && c.finishedVerified > 0 ==> tr == Flow(f))
      && (f.resumed && c.readKeyChanges > 0 ==> ShortHello(f) <= tr)
      && (f.resumed && c.finishedVerified > 0 ==> WithFinished(ShortHello(f), true) <= tr)
      && (f.resumed && c.finishedSent > 0 ==> c.finishedVerified > 0 && tr == Flow(f))
  {
    var f, k := c.t.flags, c.t.stage;
    hide Hashed, MsgAt, Client.StageOf;
    ListIsFlow(f, k);
    if f.resumed { ShortFlow(f); } else { FullEnd(f); FullExchange(f); }
    Upto(f, k);
    ClientStages(c);
  }

  lemma ClientStages(c: Client.ClientHandshake)
    requires c.Valid()
    ensures c.t.transcript == Hashed(c.t.flags, c.t.stage) && c.t.stage <= End(c.t.flags) && c.Counted()
    ensures c.state == Client.Done ==> c.t.stage == End(c.t.flags)
  {
    hide Hashed, MsgAt;
  }

  /** A side past a stage has all that comes before it. */
  lemma Upto(f: Flags, k: nat)
    ensures if f.resumed
      then (k >= 3 ==> Hashed(f, 3) <= Hashed(f, k)) && (k >= 4 ==> Hashed(f, 4) <= Hashed(f, k)) && (k >= 5 ==> Hashed(f, 5) <= Hashed(f, k))
      else && (k >= 10 ==> Hashed(f, 10) <= Hashed(f, k)) && (k >= 14 ==> Hashed(f, 14) <= Hashed(f, k))
           && (k >= 15 ==> Hashed(f, 15) <= Hashed(f, k))
    ensures f.resumed ==> Hashed(f, 4) == Hashed(f, 3)
    ensures !f.resumed ==> Hashed(f, 11) == Hashed(f, 10) && Hashed(f, 16) == Hashed(f, 15)
  {
    if f.resumed {
      StepsOver(f, 3);
      hide Hashed, MsgAt;
      if k >= 3 { Longer(f, 3, k); }
      if k >= 4 { Longer(f, 4, k); }
      if k >= 5 { Longer(f, 5, k); }
    } else {
      StepsOver(f, 10);
      StepsOver(f, 15);
      hide Hashed, MsgAt;
      if k >= 10 { Longer(f, 10, k); }
      if k >= 14 { Longer(f, 14, k); }
      if k >= 15 { Longer(f, 15, k); }
    }
  }

  /** The server at any moment. */
  lemma ServerFacts(s: Server.ServerHandshake)
    requires s.Valid()
    ensures var f, tr := s.t.flags, s.t.transcript;
      && tr <= Flow(f) && (s.state == Server.Done ==> tr == Flow(f))
      && s.finishedSent == s.writeKeyChanges && (s.finishedVerified > 0 ==> s.readKeyChanges > 0)
      && (!f.resumed && s.readKeyChanges > 0 ==> BeforeKeys(f) <= tr)
      && (!f.resumed && s.finishedVerified > 0 ==> ClientDone(f) <= tr)
      && (!f.resumed && s.finishedSent > 0 ==> s.finishedVerified > 0 && tr == Flow(f))
      && (f.resumed && s.finishedSent > 0 ==> WithFinished(ShortHello(f), true) <= tr)
      && (f.resumed && s.readKeyChanges > 0 ==> s.finishedSent > 0)
      && (f.resumed && s.finishedVerified > 0 ==> tr == Flow(f))
  {
    var f, k := s.t.flags, s.t.stage;
    hide Hashed, MsgAt, Server.StageOf;
    ListIsFlow(f, k);
    if f.resumed { ShortFlow(f); } else { FullEnd(f); FullExchange(f); }
    Upto(f, k);
    ServerStages(s);
  }

  lemma ServerStages(s: Server.ServerHandshake)
    requires s.Valid()
    ensures s.t.transcript == Hashed(s.t.flags, s.t.stage) && s.t.stage <= End(s.t.flags) && s.Counted()
    ensures s.state == Server.Done ==> s.t.stage == End(s.t.flags)
  {
    hide Hashed, MsgAt;
  }

  /** What the server asks for and takes, by how it is set up and what the client offered. */
  lemma ServerPolicy(s: Server.ServerHandshake)
    requires s.Valid()
    ensures var f, c := s.t.flags, s.config;
      && (CertificateRequest in Flow(f) <==>
            !f.resumed && c.verifyPeer && f.certAuth && !(c.ifNoChannelId && c.channelIdOffered))
      && (ChannelId in Flow(f) <==> c.channelIdOffered && f.ecdhe && (!f.resumed || c.hashRecorded))
      && (CertificateRequest in Flow(f) && c.requireCert ==> CertificateVerify in Flow(f))
  {
    var f := s.t.flags;
    assert Server.Consistent(s.config) && s.config.flags == f;
    hide Flow;
    if f.resumed {
      ResumedFlow(f, CertificateRequest);
      ResumedFlow(f, ChannelId);
      ResumedFlow(f, CertificateVerify);
    } else {
      FullFlow(f);
    }
  }
}
