/**
 The TLS 1.0 to 1.2 server: the states of the handshake, one method for what is
 done in each, and the loops that drive them. Whatever has arrived is what the
 current state expects, so no step fails.
 */
module HandshakeServer {
  import opened Common
  import opened HandshakeScript
  import opened HandshakeEndpoint

  datatype ServerState =
    | StartAccept
    | ReadClientHello
    | SelectCertificate
    | SelectParameters
    | SendServerHello
    | SendServerCertificate
    | SendServerKeyExchange
    | SendServerHelloDone
    | ReadClientCertificate
    | VerifyClientCertificate
    | ReadClientKeyExchange
    | ReadClientCertificateVerify
    | ReadClientChangeCipherSpec
    | ProcessChangeCipherSpec
    | ReadNextProto
    | ReadChannelId
    | ReadClientFinished
    | SendServerFinished
    | FinishServerHandshake
    | Done

  /** Where in the script each state stands, by itself or with the ChangeCipherSpec still to be read. */
  function StageOf(f: Flags, s: ServerState, w: Wait): nat {
    match s
    case StartAccept => 0
    case ReadClientHello => 0
    case SelectCertificate => 0
    case SelectParameters => 0
    case SendServerHello => 1
    case SendServerCertificate => 2
    case SendServerKeyExchange => 4
    case SendServerHelloDone => 5
    case ReadClientCertificate => 7
    case VerifyClientCertificate => 8
    case ReadClientKeyExchange => 8
    case ReadClientCertificateVerify => 9
    case ReadClientChangeCipherSpec => if f.resumed then 5 else 10
    case ProcessChangeCipherSpec => (if f.resumed then 5 else 10) + if w == ReadChangeCipherSpec then 0 else 1
    case ReadNextProto => if f.resumed then 6 else 11
    case ReadChannelId => if f.resumed then 7 else 12
    case ReadClientFinished => if f.resumed then 8 else 13
    case SendServerFinished => if f.resumed then 2 else 14
    case FinishServerHandshake => if f.resumed then 9 else 17
    case Done => if f.resumed then 9 else 17
  }

  /** The states of a full handshake only. */
  predicate FullOnly(s: ServerState) {
    s.SendServerCertificate? || s.SendServerKeyExchange? || s.SendServerHelloDone? || s.ReadClientCertificate? ||
    s.VerifyClientCertificate? || s.ReadClientKeyExchange? || s.ReadClientCertificateVerify?
  }

  /** The states that may find messages of their own flight not yet flushed. */
  predicate Buffering(s: ServerState) {
    s.SendServerCertificate? || s.SendServerKeyExchange? || s.SendServerHelloDone? || s.SendServerFinished?
  }

  /** How far down the list of states, which settles the order of steps that do not move in the script. */
  function Rank(s: ServerState): nat {
    match s
    case StartAccept => 19
    case ReadClientHello => 18
    case SelectCertificate => 17
    case SelectParameters => 16
    case SendServerHello => 15
    case SendServerCertificate => 14
    case SendServerKeyExchange => 13
    case SendServerHelloDone => 12
    case ReadClientCertificate => 11
    case VerifyClientCertificate => 10
    case ReadClientKeyExchange => 9
    case ReadClientCertificateVerify => 8
    case ReadClientChangeCipherSpec => 7
    case ProcessChangeCipherSpec => 6
    case ReadNextProto => 5
    case ReadChannelId => 4
    case ReadClientFinished => 3
    case SendServerFinished => 2
    case FinishServerHandshake => 1
    case Done => 0
  }

  /** What the server is set up to do, and what the ClientHello offered. */
  datatype Config = Config(
    flags: Flags,            // cipher, session and extensions chosen
    verifyPeer: bool,        // ask for a client certificate
    ifNoChannelId: bool,     // but not when Channel ID is offered
    requireCert: bool,       // and insist on one
    channelIdOffered: bool,
    hashRecorded: bool       // the resumed session has the hash that Channel ID needs
  )

  /** The flags say what the code below derives from the configuration; a certificate that is insisted on is there. */
  predicate Consistent(c: Config) {
    var f := c.flags;
    && Agreed(f) && f.status == f.statusSent
    && (!f.resumed ==> f.certRequest == (c.verifyPeer && !(c.ifNoChannelId && c.channelIdOffered) && f.certAuth))
    && f.channelId == (c.channelIdOffered && f.ecdhe && (f.resumed ==> c.hashRecorded))
    && (c.requireCert && f.certRequest ==> f.clientCert)
  }

  /** The stage of the next message the server reads, from each stage at which it reads. */
  function ReadAt(f: Flags, k: nat): nat {
    var base := if f.resumed then 6 else 11;
    if k == 7 && !f.resumed && !f.certRequest then 8
    else if k == 9 && !(f.certRequest && f.clientCert) then 10
    else if k == base && f.nextProto then k
    else if (k == base || k == base + 1) && f.channelId then base + 1
    else if k == base || k == base + 1 then base + 2
    else k
  }

  predicate ReadsAt(f: Flags, k: nat) {
    if f.resumed then k == 0 || 5 <= k <= 8 else k == 0 || 7 <= k <= 13
  }

  lemma NextToRead(f: Flags, k: nat)
    requires Agreed(f) && ReadsAt(f, k)
    ensures FirstAt(f, k, ReadAt(f, k)) && FromClient(f, ReadAt(f, k)) && NeedsPeer(f, false, k)
  {
    hide Hashed;
    assert FirstAt(f, k, ReadAt(f, k));
  }

  lemma ClientFinishedAt(f: Flags, k: nat)
    requires k == if f.resumed then 8 else 13
    ensures MsgAt(f, k) == Some(Finished(false, Hashed(f, k))) && ReadAt(f, k) == k
  {
    hide Hashed;
  }

  lemma SendAt(f: Flags, k: nat)
    requires k == if f.resumed then 2 else 14
    ensures MsgAt(f, k) == Optional(f.ticket, NewSessionTicket(f.emptyTicket)) && !FromClient(f, k)
    ensures MsgAt(f, k + 1) == Some(ChangeCipherSpec) && !FromClient(f, k + 1)
    ensures MsgAt(f, k + 2) == Some(Finished(true, Hashed(f, k + 2))) && !FromClient(f, k + 2)
  {
    hide Hashed;
  }

  lemma NegotiatedAt(f: Flags, k: nat)
    requires k == if f.resumed then 6 else 11
    ensures MsgAt(f, k) == Optional(f.nextProto, NextProto) && (f.nextProto ==> ReadAt(f, k) == k)
    ensures MsgAt(f, k + 1) == Optional(f.channelId, ChannelId) && (f.channelId ==> ReadAt(f, k + 1) == k + 1)
  {
    hide Hashed;
  }

  lemma CertificateAt(f: Flags, k: nat)
    requires k == 7 && !f.resumed && f.certRequest
    ensures MsgAt(f, k) == Some(Certificate(f.clientCert))
  {
  }

  lemma VerifyAt(f: Flags, k: nat)
    requires k == 9 && !f.resumed
    ensures MsgAt(f, k) == Optional(f.certRequest && f.clientCert, CertificateVerify)
    ensures f.certRequest && f.clientCert ==> ReadAt(f, k) == k
  {
  }

  /** Where the states between which the next steps go stand. */
  lemma HelloStages(f: Flags)
    ensures StageOf(f, SelectParameters, Ok) == 0 && StageOf(f, SendServerHello, Ok) == 1
    ensures !FullOnly(SendServerHello) && !Buffering(SelectParameters) && !Buffering(SendServerHello)
  {
  }

  lemma KeyExchangeStages(f: Flags)
    ensures forall w: Wait {:trigger StageOf(f, ReadClientKeyExchange, w)} :: StageOf(f, ReadClientKeyExchange, w) == 8
    ensures StageOf(f, ReadClientCertificateVerify, Ok) == 9 && FullOnly(ReadClientKeyExchange) && FullOnly(ReadClientCertificateVerify)
    ensures !Buffering(ReadClientKeyExchange) && !Buffering(ReadClientCertificateVerify)
  {
  }

  lemma NegotiatedStages(f: Flags)
    ensures forall w: Wait {:trigger StageOf(f, ReadNextProto, w)} :: StageOf(f, ReadNextProto, w) == if f.resumed then 6 else 11
    ensures forall w: Wait {:trigger StageOf(f, ReadChannelId, w)} :: StageOf(f, ReadChannelId, w) == if f.resumed then 7 else 12
    ensures StageOf(f, ReadClientFinished, Ok) == if f.resumed then 8 else 13
    ensures !FullOnly(ReadNextProto) && !FullOnly(ReadChannelId) && !FullOnly(ReadClientFinished)
    ensures !Buffering(ReadNextProto) && !Buffering(ReadChannelId) && !Buffering(ReadClientFinished)
  {
  }

  lemma ClientHelloAt(f: Flags, k: nat)
    requires k == 0
    ensures MsgAt(f, k) == Some(ClientHello)
  {
  }

  lemma SameStage(f: Flags, s: ServerState)
    ensures StageOf(f, s, ReadMessage) == StageOf(f, s, Ok)
  {
  }

  /** What a state makes of a message, whatever it is, by whether a certificate is insisted on and the transcript so far. */
  function Reply(s: ServerState, requireCert: bool, transcript: seq<Msg>, m: Msg): Answer {
    match s
    case ReadClientHello => if m.ClientHello? then Take else Refuse
    case ReadClientCertificate => if m.Certificate? && (m.nonempty || !requireCert) then Take else Refuse
    case ReadClientKeyExchange => if m.ClientKeyExchange? then Take else Refuse
    case ReadClientCertificateVerify => if m.CertificateVerify? then Take else Refuse
    case ReadNextProto => if m.NextProto? then Take else Refuse
    case ReadChannelId => if m.ChannelId? then Take else Refuse
    case ReadClientFinished => if m == Finished(false, transcript) then Take else Refuse
    case _ => Refuse
  }

  lemma Replies(requireCert: bool, transcript: seq<Msg>, m: Msg)
    ensures Reply(ReadNextProto, requireCert, transcript, m) == Take <==> m.NextProto?
    ensures Reply(ReadChannelId, requireCert, transcript, m) == Take <==> m.ChannelId?
    ensures Reply(ReadClientFinished, requireCert, transcript, m) == Take <==> m == Finished(false, transcript)
    ensures Reply(ReadClientCertificateVerify, requireCert, transcript, m) == Take <==> m.CertificateVerify?
    ensures Reply(ReadClientKeyExchange, requireCert, transcript, m) == Take <==> m.ClientKeyExchange?
  {
  }

  class ServerHandshake {
    const t: Endpoint
    const config: Config
    var state: ServerState
    var wait: Wait
    var session: bool        // ssl->session is set: an old session is resumed
    var certRequest: bool
    var ticketExpected: bool
    var channelIdValid: bool
    var serverParams: bool   // there is a ServerKeyExchange to send
    var peerCertificate: bool
    var readKeyChanges: nat
    var writeKeyChanges: nat
    var finishedSent: nat
    var finishedVerified: nat

    ghost predicate Valid()
      reads this, t
    {
      t.Valid() && Settled()
    }

    /** The fields say what the script has settled up to where the side stands. */
    ghost predicate Settled()
      reads this, t`stage, t`pending
    {
      && !t.client && config.flags == t.flags && Consistent(config)
      && wait != Error && (wait == ReadChangeCipherSpec ==> state == ProcessChangeCipherSpec)
      && t.stage == StageOf(t.flags, state, wait)
      && (t.flags.resumed ==> !FullOnly(state))
      && (t.stage == 0 ==> !session && !certRequest)
      && (t.stage >= 1 ==> session == t.flags.resumed && certRequest == (!t.flags.resumed && t.flags.certRequest))
      && (1 <= t.stage <= (if t.flags.resumed then 2 else 14) ==> ticketExpected == t.flags.ticket)
      && channelIdValid == (if t.stage <= 1 then config.channelIdOffered else t.flags.channelId)
      && (state == SendServerKeyExchange ==> serverParams == (t.flags.ecdhe || (!t.flags.certAuth && t.flags.hint)))
      && peerCertificate == (!t.flags.resumed && t.stage >= 8 && t.flags.certRequest && t.flags.clientCert)
      && (t.pending != [] ==> wait == Flush || Buffering(state))
      && (wait == ReadMessage || wait == ReadChangeCipherSpec ==> NeedsPeer(t.flags, false, t.stage) && !Buffering(state))
      && (wait == ReadChangeCipherSpec ==> MsgAt(t.flags, t.stage) == Some(ChangeCipherSpec))
      && Counted()
    }

    /** The keys and Finished messages of this side, by where it stands. */
    ghost predicate Counted()
      reads `state, `readKeyChanges, `writeKeyChanges, `finishedSent, `finishedVerified, t`stage
    {
      var (keys, verified, sent) := if t.flags.resumed then (6, 9, 5) else (11, 14, 17);
      && readKeyChanges == Count(t.stage > keys || (t.stage == keys && state == ReadNextProto))
      && finishedVerified == Count(t.stage >= verified)
      && writeKeyChanges == Count(t.stage >= sent)
      && finishedSent == Count(t.stage >= sent)
    }

    /** What one step does: it moves on in the script or down the states, or it waits for the peer. */
    twostate predicate Stepped()
      reads this, t
    {
      && Valid() && Follows(t.flags, false, old(t.V()), t.V()) && t.stage >= old(t.stage)
      && (wait == ReadMessage ==> state == old(state) && t.inbox == [])
      && (wait != ReadMessage ==> t.stage > old(t.stage) || Rank(state) < Rank(old(state)))
    }

    constructor (config: Config)
      requires Consistent(config)
      ensures Valid() && fresh(t) && state == StartAccept && wait == Ok && t.flags == config.flags && t.V() == View(0, 0, [])
    {
      hide MsgAt;
      t := new Endpoint(false, config.flags);
      this.config := config;
      state, wait, session := StartAccept, Ok, false;
      channelIdValid := config.channelIdOffered;
      certRequest, ticketExpected, serverParams, peerCertificate := false, false, false, false;
      readKeyChanges, writeKeyChanges, finishedSent, finishedVerified := 0, 0, 0, 0;
    }

    lemma Stay()
      requires Valid()
      ensures Follows(t.flags, false, t.V(), t.V())
    {
      FollowsItself(t.flags, false, t.V());
    }

    /** At a reading stage: what is there to be read, or that the client must send. */
    lemma Expect()
      requires Valid() && ReadsAt(t.flags, t.stage)
      ensures Follows(t.flags, false, t.V(), t.V()) && NeedsPeer(t.flags, false, t.stage)
      ensures t.transcript == Hashed(t.flags, t.stage)
      ensures t.inbox != [] ==> Some(t.inbox[0]) == MsgAt(t.flags, ReadAt(t.flags, t.stage))
    {
      hide MsgAt, FromClient;
      FollowsItself(t.flags, false, t.V());
      NextToRead(t.flags, t.stage);
      if t.inbox != [] { InboxIsExpected(t.flags, false, t.V(), ReadAt(t.flags, t.stage)); }
    }

    /** The Certificate and CertificateStatus of do_send_server_certificate. */
    method SendCertificates()
      requires t.Valid() && !t.client && t.stage == 2 && !t.flags.resumed && config.flags == t.flags && Consistent(config)
      modifies t
      ensures t.Valid() && t.stage == 4 && Follows(t.flags, false, old(t.V()), t.V())
    {
      hide Hashed, Segment, OnlyFrom;
      ghost var v0 := t.V();
      if config.flags.certAuth { t.Add(Certificate(true)); } else { t.Pass(); }
      ghost var v1 := t.V();
      if config.flags.certAuth && config.flags.status { t.Add(CertificateStatus); } else { t.Pass(); }
      FollowsTransitive(t.flags, false, v0, v1, t.V());
    }

    /** The CertificateRequest and ServerHelloDone of do_send_server_hello_done. */
    method FinishHello()
      requires t.Valid() && !t.client && t.stage == 5 && !t.flags.resumed && certRequest == t.flags.certRequest
      modifies t
      ensures t.Valid() && t.stage == 7 && Follows(t.flags, false, old(t.V()), t.V())
    {
      hide Hashed, Segment, OnlyFrom;
      ghost var v0 := t.V();
      if certRequest { t.Add(CertificateRequest); } else { t.Pass(); }
      ghost var v1 := t.V();
      t.Add(ServerHelloDone);
      FollowsTransitive(t.flags, false, v0, v1, t.V());
    }

    /** The records of do_send_server_finished: a ticket if one was promised, the key change and Finished. */
    method SendFinalFlight()
      requires t.Valid() && !t.client && t.stage == (if t.flags.resumed then 2 else 14)
      requires config.flags == t.flags && ticketExpected == t.flags.ticket
      modifies `writeKeyChanges, `finishedSent, t
      ensures t.Valid() && t.stage == old(t.stage) + 3 && Follows(t.flags, false, old(t.V()), t.V())
      ensures writeKeyChanges == old(writeKeyChanges) + 1 && finishedSent == old(finishedSent) + 1
    {
      hide Hashed, Segment, OnlyFrom, MsgAt, FromClient;
      SendAt(t.flags, t.stage);
      ghost var v0 := t.V();
      if ticketExpected { t.Add(NewSessionTicket(config.flags.emptyTicket)); } else { t.Pass(); }
      ghost var v1 := t.V();
      t.Add(ChangeCipherSpec);
      ghost var v2 := t.V();
      FollowsTransitive(t.flags, false, v0, v1, v2);
      writeKeyChanges := writeKeyChanges + 1;
      t.Add(Finished(true, t.transcript));
      FollowsTransitive(t.flags, false, v0, v2, t.V());
      finishedSent := finishedSent + 1;
    }

    /** do_start_accept */
    method DoStartAccept()
      requires Valid() && wait == Ok && state == StartAccept
      modifies this, t
      ensures Stepped()
    {
      hide Hashed, Segment, Follows, OnlyFrom, FirstAt, NeedsPeer, Endpoint.Valid, Endpoint.V;
      Stay();
      state := ReadClientHello;
    }

    /** do_read_client_hello: the message is looked at and kept */
    method DoReadClientHello()
      requires Valid() && wait == Ok && state == ReadClientHello
      modifies this, t
      ensures Stepped()
    {
      hide Consistent, Agreed, Hashed, Segment, Follows, OnlyFrom, FirstAt, NeedsPeer, Endpoint.Valid, Endpoint.V;
      Expect();
      var m := t.GetMessage();
      if m.None? { wait := ReadMessage; return; }
      wait := Verdict(Reply(state, config.requireCert, t.transcript, m.value) == Take);
      if wait == Ok {
        state := SelectCertificate;
      }
    }

    /** do_select_certificate, the cipher being chosen here */
    method DoSelectCertificate()
      requires Valid() && wait == Ok && state == SelectCertificate
      modifies this, t
      ensures Stepped()
    {
      hide Consistent, Agreed, Hashed, Segment, Follows, OnlyFrom, FirstAt, NeedsPeer, Endpoint.Valid, Endpoint.V;
      Expect();
      var m := t.GetMessage();
      if m.None? { wait := ReadMessage; return; }
      state := SelectParameters;
    }

    /** do_select_parameters */
    method DoSelectParameters()
      requires Valid() && wait == Ok && state == SelectParameters
      modifies this, t
      ensures Stepped()
    {
      hide Hashed, Segment, Follows, OnlyFrom, FirstAt, NeedsPeer, Endpoint.Valid, Endpoint.V;
      Expect();
      var m := t.GetMessage();
      if m.None? { wait := ReadMessage; return; }
      TakeClientHello();
    }

    /** Whether a session is resumed, whether to ask for a certificate and whether to send a ticket. */
    method TakeClientHello()
      requires Valid() && wait == Ok && state == SelectParameters && t.inbox != [] && t.inbox[0] == ClientHello
      modifies this, t
      ensures Stepped()
    {
      hide Hashed, Segment, Follows, OnlyFrom, FirstAt, NeedsPeer, Endpoint.Valid, Endpoint.V, MsgAt, Rank, Agreed, StageOf, FullOnly, Buffering;
      HelloStages(t.flags);
      ClientHelloAt(t.flags, t.stage);
      t.Accept();
      session, ticketExpected := config.flags.resumed, config.flags.ticket;
      if !session {
        certRequest := config.verifyPeer && !(config.ifNoChannelId && channelIdValid) && config.flags.certAuth;
      }
      state := SendServerHello;
    }

    /** do_send_server_hello: Channel ID needs ECDHE and, on resumption, the recorded hash */
    method DoSendServerHello()
      requires Valid() && wait == Ok && state == SendServerHello
      modifies this, t
      ensures Stepped()
    {
      hide Hashed, Segment, Follows, OnlyFrom, FirstAt, NeedsPeer, Endpoint.Valid, Endpoint.V;
      if channelIdValid && !config.flags.ecdhe {
        channelIdValid := false;
      }
      if session && !config.hashRecorded {
        channelIdValid := false;
      }
      t.Add(ServerHello(config.flags));
      state := if session then SendServerFinished else SendServerCertificate;
    }

    /** do_send_server_certificate */
    method DoSendServerCertificate()
      requires Valid() && wait == Ok && state == SendServerCertificate
      modifies this, t
      ensures Stepped()
    {
      hide Hashed, Segment, Follows, OnlyFrom, FirstAt, NeedsPeer, Endpoint.Valid, Endpoint.V, MsgAt;
      SendCertificates();
      serverParams := config.flags.ecdhe || (!config.flags.certAuth && config.flags.hint);
      state := SendServerKeyExchange;
    }

    /** do_send_server_key_exchange */
    method DoSendServerKeyExchange()
      requires Valid() && wait == Ok && state == SendServerKeyExchange
      modifies this, t
      ensures Stepped()
    {
      hide Hashed, Segment, Follows, OnlyFrom, FirstAt, NeedsPeer, Endpoint.Valid, Endpoint.V;
      if serverParams {
        t.Add(ServerKeyExchange);
      } else {
        t.Pass();
      }
      state := SendServerHelloDone;
    }

    /** do_send_server_hello_done */
    method DoSendServerHelloDone()
      requires Valid() && wait == Ok && state == SendServerHelloDone
      modifies this, t
      ensures Stepped()
    {
      hide Hashed, Segment, Follows, OnlyFrom, FirstAt, NeedsPeer, Endpoint.Valid, Endpoint.V, MsgAt;
      FinishHello();
      state, wait := ReadClientCertificate, Flush;
    }

    /** do_read_client_certificate: an empty list is an error only if a certificate is insisted on */
    method DoReadClientCertificate()
      requires Valid() && wait == Ok && state == ReadClientCertificate
      modifies this, t
      ensures Stepped()
    {
      hide Rank, Hashed, Segment, Follows, OnlyFrom, FirstAt, NeedsPeer, Endpoint.Valid, Endpoint.V;
      if !certRequest {
        t.Pass();
        state := VerifyClientCertificate;
        return;
      }
      Expect();
      var m := t.GetMessage();
      if m.None? { wait := ReadMessage; return; }
      wait := Verdict(Reply(state, config.requireCert, t.transcript, m.value) == Take);
      if wait == Ok {
        TakeClientCertificate(m.value.nonempty);
      }
    }

    /** The client has a certificate exactly if its list is not empty. */
    method TakeClientCertificate(nonempty: bool)
      requires Valid() && wait == Ok && state == ReadClientCertificate && certRequest
      requires t.inbox != [] && t.inbox[0] == Certificate(nonempty)
      modifies this, t
      ensures Stepped()
    {
      hide Rank, Hashed, Segment, Follows, OnlyFrom, FirstAt, NeedsPeer, Endpoint.V, MsgAt, ReadAt, Agreed, Consistent;
      CertificateAt(t.flags, t.stage);
      t.Front();
      t.Accept();
      peerCertificate := nonempty;
      state := VerifyClientCertificate;
    }

    /** do_verify_client_certificate, for a certificate that verifies */
    method DoVerifyClientCertificate()
      requires Valid() && wait == Ok && state == VerifyClientCertificate
      modifies this, t
      ensures Stepped()
    {
      hide Hashed, Segment, Follows, OnlyFrom, FirstAt, NeedsPeer, Endpoint.Valid, Endpoint.V;
      Stay();
      state := ReadClientKeyExchange;
    }

    /** do_read_client_key_exchange */
    method DoReadClientKeyExchange()
      requires Valid() && wait == Ok && state == ReadClientKeyExchange
      modifies this, t
      ensures Stepped()
    {
      hide Reply, Consistent, Agreed, Hashed, Segment, Follows, OnlyFrom, FirstAt, NeedsPeer, Endpoint.Valid, Endpoint.V, StageOf, FullOnly, Buffering, Rank;
      KeyExchangeStages(t.flags);
      Expect();
      var m := t.GetMessage();
      if m.None? { wait := ReadMessage; return; }
      Replies(config.requireCert, t.transcript, m.value);
      wait := Verdict(Reply(state, config.requireCert, t.transcript, m.value) == Take);
      if wait == Ok {
        t.Accept();
        state := ReadClientCertificateVerify;
      }
    }

    /** do_read_client_certificate_verify: there is one exactly if there was a certificate */
    method DoReadClientCertificateVerify()
      requires Valid() && wait == Ok && state == ReadClientCertificateVerify
      modifies this, t
      ensures Stepped()
    {
      hide Reply, Rank, MsgAt, ReadAt, Consistent, Agreed, Hashed, Segment, Follows, OnlyFrom, FirstAt, NeedsPeer, Endpoint.Valid, Endpoint.V;
      VerifyAt(t.flags, t.stage);
      if !peerCertificate {
        t.Pass();
        state := ReadClientChangeCipherSpec;
        return;
      }
      Expect();
      var m := t.GetMessage();
      if m.None? { wait := ReadMessage; return; }
      Replies(config.requireCert, t.transcript, m.value);
      wait := Verdict(Reply(state, config.requireCert, t.transcript, m.value) == Take);
      if wait == Ok {
        t.Accept();
        state := ReadClientChangeCipherSpec;
      }
    }

    /** do_read_change_cipher_spec */
    method DoReadChangeCipherSpec()
      requires Valid() && wait == Ok && state == ReadClientChangeCipherSpec
      modifies this, t
      ensures Stepped()
    {
      hide Hashed, Segment, Follows, OnlyFrom, FirstAt, NeedsPeer, Endpoint.Valid, Endpoint.V;
      Expect();
      state, wait := ProcessChangeCipherSpec, ReadChangeCipherSpec;
    }

    /** do_process_change_cipher_spec */
    method DoProcessChangeCipherSpec()
      requires Valid() && wait == Ok && state == ProcessChangeCipherSpec
      modifies this, t
      ensures Stepped()
    {
      hide Hashed, Segment, Follows, OnlyFrom, FirstAt, NeedsPeer, Endpoint.Valid, Endpoint.V;
      Stay();
      readKeyChanges := readKeyChanges + 1;
      state := ReadNextProto;
    }

    /** do_read_next_proto */
    method DoReadNextProto()
      requires Valid() && wait == Ok && state == ReadNextProto
      modifies this, t
      ensures Stepped()
    {
      hide Reply, Rank, MsgAt, ReadAt, Consistent, Agreed, Hashed, Segment, Follows, OnlyFrom, FirstAt, NeedsPeer, Endpoint.Valid, Endpoint.V, StageOf, FullOnly, Buffering;
      NegotiatedStages(t.flags);
      NegotiatedAt(t.flags, t.stage);
      if !config.flags.nextProto {
        t.Pass();
        state := ReadChannelId;
        return;
      }
      Expect();
      var m := t.GetMessage();
      if m.None? { wait := ReadMessage; return; }
      Replies(config.requireCert, t.transcript, m.value);
      wait := Verdict(Reply(state, config.requireCert, t.transcript, m.value) == Take);
      if wait == Ok {
        t.Accept();
        state := ReadChannelId;
        assert Counted();
        hide Counted;
      }
    }

    /** do_read_channel_id */
    method DoReadChannelId()
      requires Valid() && wait == Ok && state == ReadChannelId
      modifies this, t
      ensures Stepped()
    {
      hide Reply, MsgAt, ReadAt, Consistent, Agreed, Hashed, Segment, Follows, OnlyFrom, FirstAt, NeedsPeer, Endpoint.Valid, Endpoint.V, StageOf, FullOnly, Buffering, Rank;
      NegotiatedStages(t.flags);
      NegotiatedAt(t.flags, t.stage - 1);
      if !channelIdValid {
        t.Pass();
        state := ReadClientFinished;
        return;
      }
      Expect();
      var m := t.GetMessage();
      if m.None? { wait := ReadMessage; return; }
      Replies(config.requireCert, t.transcript, m.value);
      wait := Verdict(Reply(state, config.requireCert, t.transcript, m.value) == Take);
      if wait == Ok {
        t.Accept();
        state := ReadClientFinished;
        assert Counted();
        hide Counted;
      }
    }

    /** do_read_client_finished: the Finished must vouch for this side's transcript */
    method DoReadClientFinished()
      requires Valid() && wait == Ok && state == ReadClientFinished
      modifies this, t
      ensures Stepped()
    {
      hide Reply, Rank, Consistent, Agreed, Hashed, Segment, Follows, OnlyFrom, FirstAt, NeedsPeer, Endpoint.Valid, Endpoint.V, MsgAt, ReadAt;
      ClientFinishedAt(t.flags, t.stage);
      Expect();
      var m := t.GetMessage();
      if m.None? { wait := ReadMessage; return; }
      Replies(config.requireCert, t.transcript, m.value);
      wait := Verdict(Reply(state, config.requireCert, t.transcript, m.value) == Take);
      if wait == Ok {
        TakeClientFinished();
      }
    }

    /** The client's Finished is right; in a full handshake the server's own is still to come. */
    method TakeClientFinished()
      requires Valid() && wait == Ok && state == ReadClientFinished && t.inbox != [] && t.inbox[0].Finished?
      modifies this, t
      ensures Stepped()
    {
      hide Rank, Hashed, Segment, Follows, OnlyFrom, FirstAt, NeedsPeer, Endpoint.Valid, Endpoint.V, MsgAt, ReadAt, Agreed, Consistent;
      ClientFinishedAt(t.flags, t.stage);
      t.Accept();
      finishedVerified := finishedVerified + 1;
      state := if session then FinishServerHandshake else SendServerFinished;
    }

    /** do_send_server_finished */
    method DoSendServerFinished()
      requires Valid() && wait == Ok && state == SendServerFinished
      modifies this, t
      ensures Stepped()
    {
      hide Hashed, Segment, Follows, OnlyFrom, FirstAt, NeedsPeer, Endpoint.Valid, Endpoint.V, MsgAt;
      SendFinalFlight();
      state, wait := if session then ReadClientChangeCipherSpec else FinishServerHandshake, Flush;
    }

    /** do_finish_server_handshake */
    method DoFinishServerHandshake()
      requires Valid() && wait == Ok && state == FinishServerHandshake
      modifies this, t
      ensures Stepped()
    {
      hide Hashed, Segment, Follows, OnlyFrom, FirstAt, NeedsPeer, Endpoint.Valid, Endpoint.V;
      Stay();
      state := Done;
    }

    /** One turn of the loop below. */
    method Step()
      requires Valid() && wait == Ok && state != Done
      modifies this, t
      ensures Stepped()
    {
      match state
      case StartAccept => DoStartAccept();
      case ReadClientHello => DoReadClientHello();
      case SelectCertificate => DoSelectCertificate();
      case SelectParameters => DoSelectParameters();
      case SendServerHello => DoSendServerHello();
      case SendServerCertificate => DoSendServerCertificate();
      case SendServerKeyExchange => DoSendServerKeyExchange();
      case SendServerHelloDone => DoSendServerHelloDone();
      case ReadClientCertificate => DoReadClientCertificate();
      case VerifyClientCertificate => DoVerifyClientCertificate();
      case ReadClientKeyExchange => DoReadClientKeyExchange();
      case ReadClientCertificateVerify => DoReadClientCertificateVerify();
      case ReadClientChangeCipherSpec => DoReadChangeCipherSpec();
      case ProcessChangeCipherSpec => DoProcessChangeCipherSpec();
      case ReadNextProto => DoReadNextProto();
      case ReadChannelId => DoReadChannelId();
      case ReadClientFinished => DoReadClientFinished();
      case SendServerFinished => DoSendServerFinished();
      case FinishServerHandshake => DoFinishServerHandshake();
    }

    /** ssl_server_handshake: on until something is wanted of the driver. */
    method Handshake()
      requires Valid() && wait == Ok
      modifies this, t
      ensures Valid() && Follows(t.flags, false, old(t.V()), t.V())
      ensures wait == Ok ==> state == Done
      ensures t.stage >= old(t.stage) && (wait == ReadMessage ==> t.inbox == [])
      ensures old(t.inbox) != [] && wait == ReadMessage ==> t.stage > old(t.stage)
      ensures t.stage > old(t.stage) || Rank(state) < Rank(old(state)) || (state == old(state) && (wait == Ok || wait == ReadMessage))
    {
      hide Hashed, Segment, Follows, OnlyFrom, FirstAt, NeedsPeer, MsgAt, ReadAt, Counted, Agreed, FullOnly, Buffering, StageOf;
      Stay();
      ghost var v0 := t.V();
      while state != Done && wait == Ok
        invariant Valid() && Follows(t.flags, false, v0, t.V()) && t.stage >= old(t.stage)
        invariant wait == ReadMessage ==> t.inbox == []
        invariant t.stage > old(t.stage) || Rank(state) < Rank(old(state)) || (state == old(state) && (wait == Ok || wait == ReadMessage))
        decreases End(t.flags) - t.stage, Rank(state), wait == Ok
      {
        ghost var v1 := t.V();
        Step();
        FollowsTransitive(t.flags, false, v0, v1, t.V());
      }
      if old(t.inbox) != [] && wait == ReadMessage { InboxConsumed(t.flags, false, v0, t.V()); }
    }

    /** The awaited ChangeCipherSpec has come. */
    method TakeChangeCipherSpec()
      requires Valid() && wait == ReadChangeCipherSpec && t.inbox != []
      modifies this, t
      ensures Valid() && Follows(t.flags, false, old(t.V()), t.V()) && state == old(state) && wait == Ok
      ensures t.stage == old(t.stage) + 1
    {
      hide Hashed, Segment, OnlyFrom, FirstAt, NeedsPeer, MsgAt, FromClient, ReadAt, FullOnly, Follows, Agreed, Consistent, Endpoint.Valid, Endpoint.V;
      t.AcceptChangeCipherSpec();
      wait := Ok;
    }

    /** The flight has been written. */
    method Flushed()
      requires Valid() && wait == Flush
      modifies this, t
      ensures Valid() && t.V() == old(t.V()) && state == old(state) && wait == Ok && t.stage == old(t.stage)
    {
      hide Hashed, Segment, OnlyFrom, FirstAt, NeedsPeer, MsgAt, FromClient, ReadAt, FullOnly, Follows, Agreed, Consistent, Endpoint.Valid, Endpoint.V;
      t.FlushFlight();
      wait := Ok;
    }

    /** Something to read has come. */
    method Resume()
      requires Valid() && wait == ReadMessage
      modifies `wait
      ensures Valid() && wait == Ok
    {
      hide Hashed, Segment, OnlyFrom, NeedsPeer, MsgAt, FullOnly, Agreed, Consistent, Endpoint.Valid, StageOf, Counted;
      SameStage(t.flags, state);
      wait := Ok;
    }

    lemma NoError()
      requires Valid()
      ensures wait != Error
    {
    }

    /** While it waits for the peer a side has flushed everything. */
    lemma Waits()
      requires Valid() && (wait == ReadMessage || wait == ReadChangeCipherSpec)
      ensures NeedsPeer(t.flags, false, t.stage) && t.pending == []
    {
    }

    /** What the driver does about the last wait; false when it has to come back later. */
    method Resolve() returns (go: bool)
      requires Valid()
      modifies this, t
      ensures Valid() && Follows(t.flags, false, old(t.V()), t.V()) && state == old(state)
      ensures t.stage >= old(t.stage) && (go ==> wait == Ok)
      ensures go && old(wait) == ReadChangeCipherSpec ==> t.stage > old(t.stage)
      ensures go && old(wait) == ReadMessage ==> t.inbox != []
      ensures !go ==> t.inbox == [] && NeedsPeer(t.flags, false, t.stage) && t.pending == []
    {
      hide Hashed, Segment, Follows, OnlyFrom, FirstAt, NeedsPeer, MsgAt, ServerHandshake.Valid, Endpoint.Valid, Endpoint.V;
      Stay();
      NoError();
      match wait {
        case Ok =>
        case Flush =>
          Flushed();
        case ReadMessage =>
          Waits();
          if |t.inbox| == 0 { return false; }
          Resume();
        case ReadChangeCipherSpec =>
          Waits();
          if |t.inbox| == 0 { return false; }
          TakeChangeCipherSpec();
      }
      return true;
    }

    /** ssl_run_handshake: flushes, reads what has come and goes on, until it is done or there is nothing left to read. */
    method Run()
      requires Valid()
      modifies this, t
      ensures Valid() && Follows(t.flags, false, old(t.V()), t.V()) && t.pending == []
      ensures Resting(t.flags, false, t.V()) && (t.stage == End(t.flags) ==> state == Done)
      ensures t.stage >= old(t.stage) && (old(t.inbox) != [] ==> t.stage > old(t.stage))
    {
      hide Hashed, Segment, Follows, OnlyFrom, FirstAt, NeedsPeer, MsgAt, FromClient, ReadAt, Counted, Agreed, FullOnly;
      Stay();
      ghost var v0 := t.V();
      while true
        invariant Valid() && t.stage >= old(t.stage) && Follows(t.flags, false, v0, t.V())
        decreases End(t.flags) - t.stage, Rank(state), if wait == ReadMessage then 0 else if wait == ReadChangeCipherSpec then 1 else 2
      {
        ghost var v1 := t.V();
        var go := Resolve();
        FollowsTransitive(t.flags, false, v0, v1, t.V());
        if !go {
          PeerMeansMore(t.flags, false, t.stage);
          if old(t.inbox) != [] { InboxConsumed(t.flags, false, v0, t.V()); }
          return;
        }
        ghost var v2 := t.V();
        Handshake();
        FollowsTransitive(t.flags, false, v0, v2, t.V());
        if wait == Ok {
          if old(t.inbox) != [] { EndReached(t.flags, false, v0, t.V()); }
          return;
        }
      }
    }
  }
}
