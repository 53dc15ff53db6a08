/**
 Messages that do not belong: each side refuses a message, whatever it is,
 exactly when no honest peer could send it next, given what both hellos settled.
 */
module HandshakeRefusal {
  import opened Common
  import opened HandshakeScript
  import opened HandshakeEndpoint
  import Client = HandshakeClient
  import Server = HandshakeServer

  /** The next message of the list from stage k on is this one. */
  ghost predicate NextIs(f: Flags, k: nat, m: Msg) {
    exists j: nat :: FirstAt(f, k, j) && MsgAt(f, j) == Some(m)
  }

  lemma NextAt(f: Flags, k: nat, j: nat, m: Msg)
    requires FirstAt(f, k, j)
    ensures NextIs(f, k, m) <==> MsgAt(f, j) == Some(m)
  {
    hide MsgAt;
    if NextIs(f, k, m) {
      var i: nat :| FirstAt(f, k, i) && MsgAt(f, i) == Some(m);
      assert i == j;
    }
  }

  // ---------- the client ----------

  /** What the client knows from the hellos; the rest of the flags is the server's to decide as it goes. */
  predicate SameHello(f: Flags, g: Flags) {
    g == f.(statusSent := g.statusSent, hint := g.hint, certRequest := g.certRequest, clientCert := g.clientCert, emptyTicket := g.emptyTicket)
  }

  /** An honest server could send this next. */
  ghost predicate ServerCouldSend(f: Flags, k: nat, m: Msg) {
    exists g: Flags :: Agreed(g) && SameHello(f, g) && NextIs(g, k, m)
  }

  predicate ReadsHello(s: Client.ClientState) {
    s.ReadServerCertificate? || s.ReadCertificateStatus? || s.ReadServerKeyExchange? || s.ReadCertificateRequest? || s.ReadServerHelloDone?
  }

  /** Whether the message is taken by this state or by one that it is left to. */
  predicate ClientTakes(s: Client.ClientState, f: Flags, transcript: seq<Msg>, m: Msg)
    requires ReadsHello(s)
    decreases Client.Rank(s)
  {
    if s.ReadServerCertificate? && !f.certAuth then ClientTakes(Client.ReadCertificateStatus, f, transcript, m)
    else if s.ReadCertificateStatus? && !f.status then ClientTakes(Client.ReadServerKeyExchange, f, transcript, m)
    else if s.ReadCertificateRequest? && !f.certAuth then ClientTakes(Client.ReadServerHelloDone, f, transcript, m)
    else
      match Client.Reply(s, f, transcript, m)
      case Take => true
      case Refuse => false
      case Leave =>
        if s.ReadCertificateStatus? then ClientTakes(Client.ReadServerKeyExchange, f, transcript, m)
        else if s.ReadServerKeyExchange? then ClientTakes(Client.ReadCertificateRequest, f, transcript, m)
        else if s.ReadCertificateRequest? then ClientTakes(Client.ReadServerHelloDone, f, transcript, m)
        else false
  }

  lemma ServerSends(f: Flags, g: Flags, k: nat, m: Msg)
    requires Agreed(g) && SameHello(f, g) && !f.resumed && 2 <= k <= 6
    ensures NextIs(g, k, m) <==> MsgAt(g, Client.ReadAt(g, k)) == Some(m)
  {
    hide MsgAt;
    Client.NextToRead(g, k);
    NextAt(g, k, Client.ReadAt(g, k), m);
  }

  lemma CouldSend(f: Flags, g: Flags, k: nat, m: Msg)
    requires Agreed(g) && SameHello(f, g) && NextIs(g, k, m)
    ensures ServerCouldSend(f, k, m)
  {
  }

  /** The flags with the server's decisions made so that this message comes next. */
  function Deciding(f: Flags, m: Msg): Flags {
    f.(statusSent := m.CertificateStatus?, hint := m.ServerKeyExchange?, certRequest := m.CertificateRequest?)
  }

  lemma TakenIsSent(f: Flags, s: Client.ClientState, transcript: seq<Msg>, m: Msg)
    requires Agreed(f) && !f.resumed && ReadsHello(s) && ClientTakes(s, f, transcript, m)
    ensures Agreed(Deciding(f, m)) && MsgAt(Deciding(f, m), Client.ReadAt(Deciding(f, m), Client.StageOf(f, s, Ok))) == Some(m)
  {
    hide Hashed;
  }

  lemma SentIsTaken(f: Flags, g: Flags, s: Client.ClientState, transcript: seq<Msg>, m: Msg)
    requires Agreed(f) && Agreed(g) && SameHello(f, g) && !f.resumed && ReadsHello(s)
    requires MsgAt(g, Client.ReadAt(g, Client.StageOf(f, s, Ok))) == Some(m)
    ensures ClientTakes(s, f, transcript, m)
  {
    hide Hashed;
  }

  /** From the certificate to ServerHelloDone, the client takes exactly what an honest server could send next. */
  lemma ClientRefuses(f: Flags, s: Client.ClientState, transcript: seq<Msg>, m: Msg)
    requires Agreed(f) && !f.resumed && ReadsHello(s)
    ensures ClientTakes(s, f, transcript, m) <==> ServerCouldSend(f, Client.StageOf(f, s, Ok), m)
  {
    hide MsgAt, ClientTakes, NextIs, Client.ReadAt;
    var k := Client.StageOf(f, s, Ok);
    if ClientTakes(s, f, transcript, m) {
      TakenIsSent(f, s, transcript, m);
      ServerSends(f, Deciding(f, m), k, m);
      CouldSend(f, Deciding(f, m), k, m);
    }
    if ServerCouldSend(f, k, m) {
      var g: Flags :| Agreed(g) && SameHello(f, g) && NextIs(g, k, m);
      ServerSends(f, g, k, m);
      SentIsTaken(f, g, s, transcript, m);
    }
  }

  lemma TicketNext(g: Flags, k: nat, m: Msg)
    requires Agreed(g) && g.ticket && k == if g.resumed then 2 else 14
    ensures NextIs(g, k, m) <==> m == NewSessionTicket(g.emptyTicket)
  {
    Client.NextToRead(g, k);
    Client.TicketAt(g, k);
    hide MsgAt, Client.ReadAt;
    NextAt(g, k, k, m);
  }

  lemma FinishedNext(f: Flags, k: nat, m: Msg)
    requires Agreed(f) && k == if f.resumed then 4 else 16
    ensures NextIs(f, k, m) <==> m == Finished(true, Hashed(f, k))
  {
    Client.NextToRead(f, k);
    Client.ServerFinishedAt(f, k);
    hide MsgAt, Hashed, Client.ReadAt;
    NextAt(f, k, k, m);
  }

  lemma LaterReplies(f: Flags, transcript: seq<Msg>, m: Msg)
    ensures Client.Reply(Client.ReadSessionTicket, f, transcript, m) == Take <==> m.NewSessionTicket?
    ensures Client.Reply(Client.ReadServerFinished, f, transcript, m) == Take <==> m == Finished(true, transcript)
    ensures Client.StageOf(f, Client.ReadSessionTicket, Ok) == if f.resumed then 2 else 14
    ensures Client.StageOf(f, Client.ReadServerFinished, Ok) == if f.resumed then 4 else 16
  {
  }

  /** The same of a ticket that was promised. */
  lemma ClientRefusesTicket(f: Flags, transcript: seq<Msg>, m: Msg)
    requires Agreed(f) && f.ticket
    ensures Client.Reply(Client.ReadSessionTicket, f, transcript, m) == Take <==>
      ServerCouldSend(f, Client.StageOf(f, Client.ReadSessionTicket, Ok), m)
  {
    hide Hashed, MsgAt, NextIs, Client.Reply, Client.StageOf, ServerCouldSend;
    LaterReplies(f, transcript, m);
    var k := Client.StageOf(f, Client.ReadSessionTicket, Ok);
    if m.NewSessionTicket? {
      var g := f.(emptyTicket := m.empty);
      TicketNext(g, k, m);
      CouldSend(f, g, k, m);
    }
    if ServerCouldSend(f, k, m) {
      var g := Sender(f, k, m);
      TicketNext(g, k, m);
    }
  }

  lemma Sender(f: Flags, k: nat, m: Msg) returns (g: Flags)
    requires ServerCouldSend(f, k, m)
    ensures Agreed(g) && SameHello(f, g) && NextIs(g, k, m)
  {
    hide NextIs;
    g :| Agreed(g) && SameHello(f, g) && NextIs(g, k, m);
  }

  /** And of the server's Finished, which must be over this side's transcript. */
  lemma ClientRefusesFinished(f: Flags, transcript: seq<Msg>, m: Msg)
    requires Agreed(f) && transcript == Hashed(f, Client.StageOf(f, Client.ReadServerFinished, Ok))
    ensures Client.Reply(Client.ReadServerFinished, f, transcript, m) == Take <==>
      NextIs(f, Client.StageOf(f, Client.ReadServerFinished, Ok), m)
  {
    hide Hashed, MsgAt, NextIs, Client.Reply, Client.StageOf;
    LaterReplies(f, transcript, m);
    FinishedNext(f, Client.StageOf(f, Client.ReadServerFinished, Ok), m);
  }

  // ---------- the server ----------

  /** The client's certificate is all that the server does not know, until it has come. */
  ghost predicate ClientCouldSend(c: Server.Config, k: nat, m: Msg) {
    exists g: Flags :: g == c.flags.(clientCert := g.clientCert) && Server.Consistent(c.(flags := g)) && NextIs(g, k, m)
  }

  lemma CertificateNext(g: Flags, m: Msg)
    requires Agreed(g) && !g.resumed && g.certRequest
    ensures NextIs(g, 7, m) <==> m == Certificate(g.clientCert)
  {
    Server.NextToRead(g, 7);
    Server.CertificateAt(g, 7);
    assert Server.ReadAt(g, 7) == 7;
    hide MsgAt, Server.ReadAt;
    NextAt(g, 7, 7, m);
  }

  lemma ClientCould(c: Server.Config, g: Flags, k: nat, m: Msg)
    requires g == c.flags.(clientCert := g.clientCert) && Server.Consistent(c.(flags := g)) && NextIs(g, k, m)
    ensures ClientCouldSend(c, k, m)
  {
  }

  lemma CertificateReply(requireCert: bool, transcript: seq<Msg>, m: Msg)
    ensures Server.Reply(Server.ReadClientCertificate, requireCert, transcript, m) == Take <==>
      m.Certificate? && (m.nonempty || !requireCert)
  {
  }

  lemma TakenCertificate(c: Server.Config, m: Msg)
    requires Server.Consistent(c) && !c.flags.resumed && c.flags.certRequest && m.Certificate? && (m.nonempty || !c.requireCert)
    ensures ClientCouldSend(c, 7, m)
  {
    hide NextIs;
    var g := c.flags.(clientCert := m.nonempty);
    MayHave(c, m.nonempty);
    CertificateNext(g, m);
    ClientCould(c, g, 7, m);
  }

  lemma SentCertificate(c: Server.Config, m: Msg)
    requires Server.Consistent(c) && !c.flags.resumed && c.flags.certRequest && ClientCouldSend(c, 7, m)
    ensures m.Certificate? && (m.nonempty || !c.requireCert)
  {
    hide NextIs, Server.Consistent;
    var g := CertificateSender(c, 7, m);
    MustHave(c, g);
    CertificateNext(g, m);
  }

  /** The certificate asked for: the server takes exactly what an honest client could send, an empty list only if it does not insist. */
  lemma ServerRefusesCertificate(c: Server.Config, transcript: seq<Msg>, m: Msg)
    requires Server.Consistent(c) && !c.flags.resumed && c.flags.certRequest
    ensures Server.Reply(Server.ReadClientCertificate, c.requireCert, transcript, m) == Take <==> ClientCouldSend(c, 7, m)
  {
    hide Server.Reply, ClientCouldSend;
    CertificateReply(c.requireCert, transcript, m);
    if m.Certificate? && (m.nonempty || !c.requireCert) { TakenCertificate(c, m); }
    if ClientCouldSend(c, 7, m) { SentCertificate(c, m); }
  }

  lemma MayHave(c: Server.Config, has: bool)
    requires Server.Consistent(c) && (has || !c.requireCert)
    ensures Server.Consistent(c.(flags := c.flags.(clientCert := has)))
  {
  }

  lemma MustHave(c: Server.Config, g: Flags)
    requires g == c.flags.(clientCert := g.clientCert) && Server.Consistent(c.(flags := g)) && c.flags.certRequest
    ensures Agreed(g) && (c.requireCert ==> g.clientCert)
  {
  }

  lemma CertificateSender(c: Server.Config, k: nat, m: Msg) returns (g: Flags)
    requires ClientCouldSend(c, k, m)
    ensures g == c.flags.(clientCert := g.clientCert) && Server.Consistent(c.(flags := g)) && NextIs(g, k, m)
  {
    hide NextIs;
    g :| g == c.flags.(clientCert := g.clientCert) && Server.Consistent(c.(flags := g)) && NextIs(g, k, m);
  }

  predicate ReadsClient(f: Flags, s: Server.ServerState) {
    || s.ReadClientHello? || s.ReadClientFinished? || (s.ReadNextProto? && f.nextProto) || (s.ReadChannelId? && f.channelId)
    || (!f.resumed && (s.ReadClientKeyExchange? || (s.ReadClientCertificateVerify? && f.certRequest && f.clientCert)))
  }

  /** Wherever else the server reads, it takes exactly the next message of the list. */
  lemma ServerRefuses(f: Flags, s: Server.ServerState, requireCert: bool, transcript: seq<Msg>, m: Msg)
    requires Agreed(f) && ReadsClient(f, s) && transcript == Hashed(f, Server.StageOf(f, s, Ok))
    ensures Server.Reply(s, requireCert, transcript, m) == Take <==> NextIs(f, Server.StageOf(f, s, Ok), m)
  {
    hide Hashed;
    var k := Server.StageOf(f, s, Ok);
    assert FirstAt(f, k, k);
    NextAt(f, k, k, m);
  }
}
