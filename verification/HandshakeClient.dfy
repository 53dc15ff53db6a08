/**
 The TLS 1.0 to 1.2 client: the states of the handshake, one method for what is
 done in each, and the loops that drive them. Whatever has arrived is what the
 current state expects, so no step fails.
 */
module HandshakeClient {
  import opened Common
  import opened HandshakeScript
  import opened HandshakeEndpoint

  datatype ClientState =
    | StartConnect
    | EnterEarlyData
    | ReadServerHello
    | ReadServerCertificate
    | ReadCertificateStatus
    | VerifyServerCertificate
    | ReadServerKeyExchange
    | ReadCertificateRequest
    | ReadServerHelloDone
    | SendClientCertificate
    | SendClientKeyExchange
    | SendClientCertificateVerify
    | SendClientFinished
    | FinishFlight
    | ReadSessionTicket
    | ProcessChangeCipherSpec
    | ReadServerFinished
    | FinishClientHandshake
    | Done

  /** Where in the script each state stands, by itself or with the ChangeCipherSpec still to be read. */
  function StageOf(f: Flags, s: ClientState, w: Wait): nat {
    match s
    case StartConnect => 0
    case EnterEarlyData => 1
    case ReadServerHello => 1
    case ReadServerCertificate => 2
    case ReadCertificateStatus => 3
    case VerifyServerCertificate => 4
    case ReadServerKeyExchange => 4
    case ReadCertificateRequest => 5
    case ReadServerHelloDone => 6
    case SendClientCertificate => 7
    case SendClientKeyExchange => 8
    case SendClientCertificateVerify => 9
    case SendClientFinished => if f.resumed then 5 else 10
    case FinishFlight => if f.resumed then 9 else 14
    case ReadSessionTicket => if f.resumed then 2 else 14
    case ProcessChangeCipherSpec => (if f.resumed then 3 else 15) + if w == ReadChangeCipherSpec then 0 else 1
    case ReadServerFinished => if f.resumed then 4 else 16
    case FinishClientHandshake => if f.resumed then 9 else 17
    case Done => if f.resumed then 9 else 17
  }

  /** The states of a full handshake only. */
  predicate FullOnly(s: ClientState) {
    s.ReadServerCertificate? || s.ReadCertificateStatus? || s.VerifyServerCertificate? || s.ReadServerKeyExchange? ||
    s.ReadCertificateRequest? || s.ReadServerHelloDone? || s.SendClientCertificate? || s.SendClientKeyExchange? ||
    s.SendClientCertificateVerify?
  }

  /** The states that may find messages of their own flight not yet flushed. */
  predicate Buffering(s: ClientState) {
    s.SendClientKeyExchange? || s.SendClientCertificateVerify? || s.SendClientFinished?
  }

  /** How far down the list of states, which settles the order of steps that do not move in the script. */
  function Rank(s: ClientState): nat {
    match s
    case StartConnect => 18
    case EnterEarlyData => 17
    case ReadServerHello => 16
    case ReadServerCertificate => 15
    case ReadCertificateStatus => 14
    case VerifyServerCertificate => 13
    case ReadServerKeyExchange => 12
    case ReadCertificateRequest => 11
    case ReadServerHelloDone => 10
    case SendClientCertificate => 9
    case SendClientKeyExchange => 8
    case SendClientCertificateVerify => 7
    case SendClientFinished => 6
    case FinishFlight => 5
    case ReadSessionTicket => 4
    case ProcessChangeCipherSpec => 3
    case ReadServerFinished => 2
    case FinishClientHandshake => 1
    case Done => 0
  }

  /** The stage of the next message the client reads, from each stage at which it reads. */
  function ReadAt(f: Flags, k: nat): nat {
    if f.resumed then
      if k == 2 && !f.ticket then 3 else k
    else if (k == 2 && f.certAuth) || (k == 3 && f.statusSent) then k
    else if 2 <= k <= 4 && (f.ecdhe || (!f.certAuth && f.hint)) then 4
    else if 2 <= k <= 5 && f.certRequest then 5
    else if 2 <= k <= 6 then 6
    else if k == 14 && !f.ticket then 15
    else k
  }

  lemma NextToRead(f: Flags, k: nat)
    requires Agreed(f) && if f.resumed then 1 <= k <= 4 else 1 <= k <= 6 || 14 <= k <= 16
    ensures FirstAt(f, k, ReadAt(f, k)) && !FromClient(f, ReadAt(f, k)) && NeedsPeer(f, true, k)
  {
    hide Hashed;
    assert FirstAt(f, k, ReadAt(f, k));
  }

  /** Where the ServerHello leads. */
  lemma AfterHello(f: Flags)
    ensures StageOf(f, ReadServerHello, Ok) == 1 && StageOf(f, ReadServerCertificate, Ok) == 2
    ensures f.resumed ==> StageOf(f, ReadSessionTicket, Ok) == 2
    ensures !FullOnly(ReadSessionTicket) && !Buffering(ReadServerHello) && !Buffering(ReadSessionTicket) && !Buffering(ReadServerCertificate)
  {
  }

  /** Where the next states stand, from a state that reads. */
  lemma RequestStages(f: Flags)
    ensures forall w: Wait {:trigger StageOf(f, ReadCertificateRequest, w)} :: StageOf(f, ReadCertificateRequest, w) == 5
    ensures StageOf(f, ReadServerHelloDone, Ok) == 6 && Rank(ReadServerHelloDone) < Rank(ReadCertificateRequest)
    ensures FullOnly(ReadCertificateRequest) && !Buffering(ReadCertificateRequest) && !Buffering(ReadServerHelloDone)
  {
  }

  lemma FinishedStages(f: Flags)
    ensures forall w: Wait {:trigger StageOf(f, ReadServerFinished, w)} :: StageOf(f, ReadServerFinished, w) == if f.resumed then 4 else 16
    ensures f.resumed ==> StageOf(f, SendClientFinished, Ok) == 5
    ensures !f.resumed ==> StageOf(f, FinishClientHandshake, Ok) == 17
    ensures !FullOnly(ReadServerFinished) && !FullOnly(SendClientFinished) && !Buffering(ReadServerFinished)
    ensures !Buffering(FinishClientHandshake) && Buffering(SendClientFinished)
  {
  }

  lemma HelloAt(f: Flags, k: nat)
    requires k == 1
    ensures MsgAt(f, k) == Some(ServerHello(f)) && ReadAt(f, k) == k
  {
  }

  lemma TicketAt(f: Flags, k: nat)
    requires k == if f.resumed then 2 else 14
    ensures MsgAt(f, k) == Optional(f.ticket, NewSessionTicket(f.emptyTicket)) && MsgAt(f, k + 1) == Some(ChangeCipherSpec)
    ensures f.ticket ==> ReadAt(f, k) == k
  {
    hide Hashed;
  }

  lemma ServerFinishedAt(f: Flags, k: nat)
    requires k == if f.resumed then 4 else 16
    ensures MsgAt(f, k) == Some(Finished(true, Hashed(f, k))) && ReadAt(f, k) == k
  {
    hide Hashed;
  }

  lemma SendAt(f: Flags, k: nat)
    requires k == if f.resumed then 5 else 10
    ensures MsgAt(f, k) == Some(ChangeCipherSpec) && FromClient(f, k)
    ensures MsgAt(f, k + 1) == Optional(f.nextProto, NextProto) && FromClient(f, k + 1)
    ensures MsgAt(f, k + 2) == Optional(f.channelId, ChannelId) && FromClient(f, k + 2)
    ensures MsgAt(f, k + 3) == Some(Finished(false, Hashed(f, k + 3))) && FromClient(f, k + 3)
  {
    hide Hashed;
  }

  lemma SameStage(f: Flags, s: ClientState)
    ensures StageOf(f, s, ReadMessage) == StageOf(f, s, Ok)
  {
  }

  /** What a state makes of a message, whatever it is, by what the hellos have settled and the transcript so far. */
  function Reply(s: ClientState, f: Flags, transcript: seq<Msg>, m: Msg): Answer {
    match s
    case ReadServerHello => if m.ServerHello? then Take else Refuse
    case ReadServerCertificate => if m.Certificate? && m.nonempty then Take else Refuse
    case ReadCertificateStatus => if m.CertificateStatus? then Take else Leave
    case ReadServerKeyExchange =>
      if m.ServerKeyExchange? then if f.ecdhe || !f.certAuth then Take else Refuse
      else if f.ecdhe then Refuse
      else Leave
    case ReadCertificateRequest => if m.ServerHelloDone? then Leave else if m.CertificateRequest? then Take else Refuse
    case ReadServerHelloDone => if m.ServerHelloDone? then Take else Refuse
    case ReadSessionTicket => if m.NewSessionTicket? then Take else Refuse
    case ReadServerFinished => if m == Finished(true, transcript) then Take else Refuse
    case _ => Refuse
  }

  lemma Replies(f: Flags, transcript: seq<Msg>, m: Msg)
    ensures Reply(ReadServerKeyExchange, f, transcript, m) ==
      if m.ServerKeyExchange? then if f.ecdhe || !f.certAuth then Take else Refuse
      else if f.ecdhe then Refuse
      else Leave
    ensures Reply(ReadServerFinished, f, transcript, m) == Take <==> m == Finished(true, transcript)
    ensures Reply(ReadServerHelloDone, f, transcript, m) == Take <==> m.ServerHelloDone?
  {
  }

  class ClientHandshake {
    const t: Endpoint
    const hasCertificate: bool
    var state: ClientState
    var wait: Wait
    var session: bool        // ssl->session is set: offered, then resumed
    var negotiated: Flags    // what the ServerHello settled
    var certRequest: bool
    var ticketExpected: bool
    var readKeyChanges: nat
    var writeKeyChanges: nat
    var finishedSent: nat
    var finishedVerified: nat

    ghost predicate Valid()
      reads this, t
    {
      t.Valid() && Settled()
    }

    /** The fields say what the script has settled up to where the side stands. */
    ghost predicate Settled()
      reads this, t`stage, t`pending
    {
      && t.client && Agreed(t.flags) && hasCertificate == t.flags.clientCert
      && wait != Error && (wait == ReadChangeCipherSpec ==> state == ProcessChangeCipherSpec)
      && t.stage == StageOf(t.flags, state, wait)
      && (t.flags.resumed ==> !FullOnly(state))
      && (if t.stage < 2 then t.flags.resumed ==> session else session == t.flags.resumed && negotiated == t.flags)
      && certRequest == (!t.flags.resumed && t.stage >= 6 && t.flags.certRequest)
      && (2 <= t.stage <= (if t.flags.resumed then 2 else 14) ==> ticketExpected == t.flags.ticket)
      && (t.pending != [] ==> wait == Flush || Buffering(state))
      && (wait == ReadMessage || wait == ReadChangeCipherSpec ==> NeedsPeer(t.flags, true, t.stage) && !Buffering(state))
      && (wait == ReadChangeCipherSpec ==> MsgAt(t.flags, t.stage) == Some(ChangeCipherSpec))
      && Counted()
    }

    /** The keys and Finished messages of this side, by where it stands. */
    ghost predicate Counted()
      reads `state, `readKeyChanges, `writeKeyChanges, `finishedSent, `finishedVerified, t`stage
    {
      var (read, sent) := if t.flags.resumed then (4, 9) else (16, 14);
      && readKeyChanges == Count(t.stage > read || (t.stage == read && state == ReadServerFinished))
      && finishedVerified == Count(t.stage > read)
      && writeKeyChanges == Count(t.stage >= sent)
      && finishedSent == Count(t.stage >= sent)
    }

    /** What one step does: it moves on in the script or down the states, or it waits for the peer. */
    twostate predicate Stepped()
      reads this, t
    {
      && Valid() && Follows(t.flags, true, old(t.V()), t.V()) && t.stage >= old(t.stage)
      && (wait == ReadMessage ==> state == old(state) && t.inbox == [])
      && (wait != ReadMessage ==> t.stage > old(t.stage) || Rank(state) < Rank(old(state)))
    }

    constructor (ghost flags: Flags, hasCertificate: bool, session: bool)
      requires Agreed(flags) && hasCertificate == flags.clientCert && (flags.resumed ==> session)
      ensures Valid() && fresh(t) && state == StartConnect && wait == Ok && t.flags == flags && t.V() == View(0, 0, [])
    {
      hide MsgAt;
      t := new Endpoint(true, flags);
      this.hasCertificate, this.session := hasCertificate, session;
      state, wait := StartConnect, Ok;
      negotiated := Flags(false, false, false, false, false, false, false, false, false, false, false, false);
      certRequest, ticketExpected := false, false;
      readKeyChanges, writeKeyChanges, finishedSent, finishedVerified := 0, 0, 0, 0;
    }

    lemma Stay()
      requires Valid()
      ensures Follows(t.flags, true, t.V(), t.V())
    {
      FollowsItself(t.flags, true, t.V());
    }

    /** At a reading stage: what is there to be read, or that the server must send. */
    lemma Expect()
      requires Valid() && if t.flags.resumed then 1 <= t.stage <= 4 else 1 <= t.stage <= 6 || 14 <= t.stage <= 16
      ensures Follows(t.flags, true, t.V(), t.V()) && NeedsPeer(t.flags, true, t.stage)
      ensures t.transcript == Hashed(t.flags, t.stage)
      ensures t.inbox != [] ==> Some(t.inbox[0]) == MsgAt(t.flags, ReadAt(t.flags, t.stage))
    {
      hide MsgAt, FromClient;
      FollowsItself(t.flags, true, t.V());
      NextToRead(t.flags, t.stage);
      if t.inbox != [] { InboxIsExpected(t.flags, true, t.V(), ReadAt(t.flags, t.stage)); }
    }

    /** do_start_connect */
    method DoStartConnect()
      requires Valid() && wait == Ok && state == StartConnect
      modifies this, t
      ensures Stepped()
    {
      hide Hashed, Segment, Follows, OnlyFrom, FirstAt, NeedsPeer, Endpoint.Valid, Endpoint.V;
      t.Add(ClientHello);
      state, wait := EnterEarlyData, Flush;
    }

    /** do_enter_early_data, over TLS and without early data */
    method DoEnterEarlyData()
      requires Valid() && wait == Ok && state == EnterEarlyData
      modifies this, t
      ensures Stepped()
    {
      hide Hashed, Segment, Follows, OnlyFrom, FirstAt, NeedsPeer, Endpoint.Valid, Endpoint.V;
      Stay();
      state := ReadServerHello;
    }

    /** do_read_server_hello */
    method DoReadServerHello()
      requires Valid() && wait == Ok && state == ReadServerHello
      modifies this, t
      ensures Stepped()
    {
      hide MsgAt, ReadAt, Hashed, Segment, Follows, OnlyFrom, FirstAt, NeedsPeer, Endpoint.Valid, Endpoint.V;
      HelloAt(t.flags, t.stage);
      hide Agreed;
      Expect();
      var m := t.GetMessage();
      if m.None? { wait := ReadMessage; return; }
      wait := Verdict(Reply(state, negotiated, t.transcript, m.value) == Take);
      if wait == Ok { TakeServerHello(m.value.flags); }
    }

    /** The session is kept only if the server resumes it. */
    method TakeServerHello(f: Flags)
      requires Valid() && wait == Ok && state == ReadServerHello && t.inbox != [] && t.inbox[0] == ServerHello(f)
      requires f == t.flags
      modifies this, t
      ensures Stepped()
    {
      hide Hashed, Segment, Follows, OnlyFrom, FirstAt, NeedsPeer, Endpoint.Valid, Endpoint.V, MsgAt, ReadAt, Rank, Agreed, StageOf, FullOnly, Buffering;
      AfterHello(t.flags);
      HelloAt(t.flags, t.stage);
      t.Accept();
      var kept := session && f.resumed;
      assert kept == t.flags.resumed && t.stage == 2 && t.inbox == old(t.inbox)[1..];
      negotiated, session, ticketExpected := f, kept, f.ticket;
      state := if kept then ReadSessionTicket else ReadServerCertificate;
    }

    /** do_read_server_certificate */
    method DoReadServerCertificate()
      requires Valid() && wait == Ok && state == ReadServerCertificate
      modifies this, t
      ensures Stepped()
    {
      hide Hashed, Segment, Follows, OnlyFrom, FirstAt, NeedsPeer, Endpoint.Valid, Endpoint.V;
      if !negotiated.certAuth {
        t.Pass();
        state := ReadCertificateStatus;
        return;
      }
      Expect();
      var m := t.GetMessage();
      if m.None? { wait := ReadMessage; return; }
      wait := Verdict(Reply(state, negotiated, t.transcript, m.value) == Take);
      if wait == Ok {
        t.Accept();
        state := ReadCertificateStatus;
      }
    }

    /** do_read_certificate_status: the server may have promised it and not send it */
    method DoReadCertificateStatus()
      requires Valid() && wait == Ok && state == ReadCertificateStatus
      modifies this, t
      ensures Stepped()
    {
      hide Hashed, Segment, Follows, OnlyFrom, FirstAt, NeedsPeer, Endpoint.Valid, Endpoint.V;
      if !negotiated.status {
        t.Pass();
        state := VerifyServerCertificate;
        return;
      }
      Expect();
      var m := t.GetMessage();
      if m.None? { wait := ReadMessage; return; }
      if Reply(state, negotiated, t.transcript, m.value) == Take {
        t.Accept();
      } else {
        t.Pass();
      }
      state := VerifyServerCertificate;
    }

    /** do_verify_server_certificate, for a certificate that verifies */
    method DoVerifyServerCertificate()
      requires Valid() && wait == Ok && state == VerifyServerCertificate
      modifies this, t
      ensures Stepped()
    {
      hide Hashed, Segment, Follows, OnlyFrom, FirstAt, NeedsPeer, Endpoint.Valid, Endpoint.V;
      Stay();
      state := ReadServerKeyExchange;
    }

    /** do_read_server_key_exchange */
    method DoReadServerKeyExchange()
      requires Valid() && wait == Ok && state == ReadServerKeyExchange
      modifies this, t
      ensures Stepped()
    {
      hide Reply, Hashed, Segment, Follows, OnlyFrom, FirstAt, NeedsPeer, Endpoint.Valid, Endpoint.V;
      Expect();
      var m := t.GetMessage();
      if m.None? { wait := ReadMessage; return; }
      Replies(negotiated, t.transcript, m.value);
      var reply := Reply(state, negotiated, t.transcript, m.value);
      wait := Verdict(reply != Refuse);
      if wait == Ok {
        if reply == Take { t.Accept(); } else { t.Pass(); }
        state := ReadCertificateRequest;
      }
    }

    /** do_read_certificate_request */
    method DoReadCertificateRequest()
      requires Valid() && wait == Ok && state == ReadCertificateRequest
      modifies this, t
      ensures Stepped()
    {
      hide Hashed, Segment, Follows, OnlyFrom, FirstAt, NeedsPeer, Endpoint.Valid, Endpoint.V, StageOf, FullOnly, Buffering, Rank;
      RequestStages(t.flags);
      if !negotiated.certAuth {
        t.Pass();
        state := ReadServerHelloDone;
        return;
      }
      Expect();
      var m := t.GetMessage();
      if m.None? { wait := ReadMessage; return; }
      var reply := Reply(state, negotiated, t.transcript, m.value);
      wait := Verdict(reply != Refuse);
      if reply == Take {
        certRequest := true;
        t.Accept();
        state := ReadServerHelloDone;
      } else if reply == Leave {
        t.Pass();
        state := ReadServerHelloDone;
      }
    }

    /** do_read_server_hello_done */
    method DoReadServerHelloDone()
      requires Valid() && wait == Ok && state == ReadServerHelloDone
      modifies this, t
      ensures Stepped()
    {
      hide Reply, Hashed, Segment, Follows, OnlyFrom, FirstAt, NeedsPeer, Endpoint.Valid, Endpoint.V;
      Expect();
      var m := t.GetMessage();
      if m.None? { wait := ReadMessage; return; }
      Replies(negotiated, t.transcript, m.value);
      wait := Verdict(Reply(state, negotiated, t.transcript, m.value) == Take);
      if wait == Ok {
        t.Accept();
        state := SendClientCertificate;
      }
    }

    /** do_send_client_certificate: without a certificate an empty list is sent */
    method DoSendClientCertificate()
      requires Valid() && wait == Ok && state == SendClientCertificate
      modifies this, t
      ensures Stepped()
    {
      hide Hashed, Segment, Follows, OnlyFrom, FirstAt, NeedsPeer, Endpoint.Valid, Endpoint.V;
      if certRequest {
        t.Add(Certificate(hasCertificate));
      } else {
        t.Pass();
      }
      state := SendClientKeyExchange;
    }

    /** do_send_client_key_exchange */
    method DoSendClientKeyExchange()
      requires Valid() && wait == Ok && state == SendClientKeyExchange
      modifies this, t
      ensures Stepped()
    {
      hide Hashed, Segment, Follows, OnlyFrom, FirstAt, NeedsPeer, Endpoint.Valid, Endpoint.V;
      t.Add(ClientKeyExchange);
      state := SendClientCertificateVerify;
    }

    /** do_send_client_certificate_verify */
    method DoSendClientCertificateVerify()
      requires Valid() && wait == Ok && state == SendClientCertificateVerify
      modifies this, t
      ensures Stepped()
    {
      hide Hashed, Segment, Follows, OnlyFrom, FirstAt, NeedsPeer, Endpoint.Valid, Endpoint.V;
      if certRequest && hasCertificate {
        t.Add(CertificateVerify);
      } else {
        t.Pass();
      }
      state := SendClientFinished;
    }

    /** The records of do_send_client_finished: the key change, what was negotiated to follow it, and Finished. */
    method SendFinalFlight()
      requires t.Valid() && t.client && t.stage == (if t.flags.resumed then 5 else 10) && negotiated == t.flags
      modifies `writeKeyChanges, `finishedSent, t
      ensures t.Valid() && t.stage == old(t.stage) + 4 && Follows(t.flags, true, old(t.V()), t.V())
      ensures writeKeyChanges == old(writeKeyChanges) + 1 && finishedSent == old(finishedSent) + 1
    {
      hide Hashed, Segment, OnlyFrom, MsgAt, FromClient;
      SendAt(t.flags, t.stage);
      ghost var v0 := t.V();
      t.Add(ChangeCipherSpec);
      ghost var v1 := t.V();
      writeKeyChanges := writeKeyChanges + 1;
      if negotiated.nextProto { t.Add(NextProto); } else { t.Pass(); }
      ghost var v2 := t.V();
      FollowsTransitive(t.flags, true, v0, v1, v2);
      if negotiated.channelId { t.Add(ChannelId); } else { t.Pass(); }
      ghost var v3 := t.V();
      FollowsTransitive(t.flags, true, v0, v2, v3);
      t.Add(Finished(false, t.transcript));
      FollowsTransitive(t.flags, true, v0, v3, t.V());
      finishedSent := finishedSent + 1;
    }

    /** do_send_client_finished */
    method DoSendClientFinished()
      requires Valid() && wait == Ok && state == SendClientFinished
      modifies this, t
      ensures Stepped()
    {
      hide Hashed, Segment, Follows, OnlyFrom, FirstAt, NeedsPeer, Endpoint.Valid, Endpoint.V, MsgAt;
      SendFinalFlight();
      state, wait := FinishFlight, Flush;
    }

    /** do_finish_flight, without False Start */
    method DoFinishFlight()
      requires Valid() && wait == Ok && state == FinishFlight
      modifies this, t
      ensures Stepped()
    {
      hide Hashed, Segment, Follows, OnlyFrom, FirstAt, NeedsPeer, Endpoint.Valid, Endpoint.V;
      Stay();
      state := if session then FinishClientHandshake else ReadSessionTicket;
    }

    /** do_read_session_ticket */
    method DoReadSessionTicket()
      requires Valid() && wait == Ok && state == ReadSessionTicket
      modifies this, t
      ensures Stepped()
    {
      hide Rank, MsgAt, ReadAt, Hashed, Segment, Follows, OnlyFrom, FirstAt, NeedsPeer, Endpoint.Valid, Endpoint.V;
      TicketAt(t.flags, t.stage);
      if !ticketExpected {
        NextToRead(t.flags, t.stage + 1);
        t.Pass();
        state, wait := ProcessChangeCipherSpec, ReadChangeCipherSpec;
        return;
      }
      Expect();
      var m := t.GetMessage();
      if m.None? { wait := ReadMessage; return; }
      wait := Verdict(Reply(state, negotiated, t.transcript, m.value) == Take);
      if wait == Ok { TakeSessionTicket(m.value.empty); }
    }

    /** An empty ticket means that the server has none to give after all. */
    method TakeSessionTicket(empty: bool)
      requires Valid() && wait == Ok && state == ReadSessionTicket && t.inbox != [] && t.inbox[0] == NewSessionTicket(empty)
      requires ReadAt(t.flags, t.stage) == t.stage && Some(t.inbox[0]) == MsgAt(t.flags, t.stage)
      modifies this, t
      ensures Stepped()
    {
      hide Rank, MsgAt, ReadAt, Hashed, Segment, Follows, OnlyFrom, FirstAt, NeedsPeer, Endpoint.Valid, Endpoint.V;
      TicketAt(t.flags, t.stage);
      NextToRead(t.flags, t.stage + 1);
      if empty { ticketExpected := false; }
      t.Accept();
      state, wait := ProcessChangeCipherSpec, ReadChangeCipherSpec;
    }

    /** do_process_change_cipher_spec */
    method DoProcessChangeCipherSpec()
      requires Valid() && wait == Ok && state == ProcessChangeCipherSpec
      modifies this, t
      ensures Stepped()
    {
      hide Hashed, Segment, Follows, OnlyFrom, FirstAt, NeedsPeer, Endpoint.Valid, Endpoint.V;
      Stay();
      readKeyChanges := readKeyChanges + 1;
      state := ReadServerFinished;
    }

    /** do_read_server_finished: the Finished must vouch for this side's transcript */
    method DoReadServerFinished()
      requires Valid() && wait == Ok && state == ReadServerFinished
      modifies this, t
      ensures Stepped()
    {
      hide Reply, Rank, MsgAt, ReadAt, Hashed, Segment, Follows, OnlyFrom, FirstAt, NeedsPeer, Endpoint.Valid, Endpoint.V, StageOf, FullOnly, Buffering;
      FinishedStages(t.flags);
      ServerFinishedAt(t.flags, t.stage);
      Expect();
      var m := t.GetMessage();
      if m.None? { wait := ReadMessage; return; }
      Replies(negotiated, t.transcript, m.value);
      wait := Verdict(Reply(state, negotiated, t.transcript, m.value) == Take);
      if wait == Ok {
        finishedVerified := finishedVerified + 1;
        t.Accept();
        state := if session then SendClientFinished else FinishClientHandshake;
      }
    }

    /** do_finish_client_handshake */
    method DoFinishClientHandshake()
      requires Valid() && wait == Ok && state == FinishClientHandshake
      modifies this, t
      ensures Stepped()
    {
      hide Hashed, Segment, Follows, OnlyFrom, FirstAt, NeedsPeer, Endpoint.Valid, Endpoint.V;
      Stay();
      state := Done;
    }

    /** One turn of the loop below. */
    method Step()
      requires Valid() && wait == Ok && state != Done
      modifies this, t
      ensures Stepped()
    {
      match state
      case StartConnect => DoStartConnect();
      case EnterEarlyData => DoEnterEarlyData();
      case ReadServerHello => DoReadServerHello();
      case ReadServerCertificate => DoReadServerCertificate();
      case ReadCertificateStatus => DoReadCertificateStatus();
      case VerifyServerCertificate => DoVerifyServerCertificate();
      case ReadServerKeyExchange => DoReadServerKeyExchange();
      case ReadCertificateRequest => DoReadCertificateRequest();
      case ReadServerHelloDone => DoReadServerHelloDone();
      case SendClientCertificate => DoSendClientCertificate();
      case SendClientKeyExchange => DoSendClientKeyExchange();
      case SendClientCertificateVerify => DoSendClientCertificateVerify();
      case SendClientFinished => DoSendClientFinished();
      case FinishFlight => DoFinishFlight();
      case ReadSessionTicket => DoReadSessionTicket();
      case ProcessChangeCipherSpec => DoProcessChangeCipherSpec();
      case ReadServerFinished => DoReadServerFinished();
      case FinishClientHandshake => DoFinishClientHandshake();
    }

    /** ssl_client_handshake: on until something is wanted of the driver. */
    method Handshake()
      requires Valid() && wait == Ok
      modifies this, t
      ensures Valid() && Follows(t.flags, true, old(t.V()), t.V())
      ensures wait == Ok ==> state == Done
      ensures t.stage >= old(t.stage) && (wait == ReadMessage ==> t.inbox == [])
      ensures old(t.inbox) != [] && wait == ReadMessage ==> t.stage > old(t.stage)
      ensures t.stage > old(t.stage) || Rank(state) < Rank(old(state)) || (state == old(state) && (wait == Ok || wait == ReadMessage))
    {
      hide Hashed, Segment, Follows, OnlyFrom, FirstAt, NeedsPeer, MsgAt, ReadAt, Counted, Agreed, FullOnly, Buffering, StageOf;
      Stay();
      ghost var v0 := t.V();
      while state != Done && wait == Ok
        invariant Valid() && Follows(t.flags, true, v0, t.V()) && t.stage >= old(t.stage)
        invariant wait == ReadMessage ==> t.inbox == []
        invariant t.stage > old(t.stage) || Rank(state) < Rank(old(state)) || (state == old(state) && (wait == Ok || wait == ReadMessage))
        decreases End(t.flags) - t.stage, Rank(state), wait == Ok
      {
        ghost var v1 := t.V();
        Step();
        FollowsTransitive(t.flags, true, v0, v1, t.V());
      }
      if old(t.inbox) != [] && wait == ReadMessage { InboxConsumed(t.flags, true, v0, t.V()); }
    }

    /** The awaited ChangeCipherSpec has come. */
    method TakeChangeCipherSpec()
      requires Valid() && wait == ReadChangeCipherSpec && t.inbox != []
      modifies this, t
      ensures Valid() && Follows(t.flags, true, old(t.V()), t.V()) && state == old(state) && wait == Ok
      ensures t.stage == old(t.stage) + 1
    {
      hide Hashed, Segment, OnlyFrom, FirstAt, NeedsPeer, MsgAt, FromClient, ReadAt, FullOnly, Follows, Agreed, Endpoint.Valid, Endpoint.V;
      t.AcceptChangeCipherSpec();
      wait := Ok;
    }

    /** The flight has been written. */
    method Flushed()
      requires Valid() && wait == Flush
      modifies this, t
      ensures Valid() && t.V() == old(t.V()) && state == old(state) && wait == Ok && t.stage == old(t.stage)
    {
      hide Hashed, Segment, OnlyFrom, FirstAt, NeedsPeer, MsgAt, FromClient, ReadAt, FullOnly, Follows, Agreed, Endpoint.Valid, Endpoint.V;
      t.FlushFlight();
      wait := Ok;
    }

    /** Something to read has come. */
    method Resume()
      requires Valid() && wait == ReadMessage
      modifies `wait
      ensures Valid() && wait == Ok
    {
      hide Hashed, Segment, OnlyFrom, NeedsPeer, MsgAt, FullOnly, Agreed, Endpoint.Valid, StageOf, Counted;
      SameStage(t.flags, state);
      wait := Ok;
    }

    lemma NoError()
      requires Valid()
      ensures wait != Error
    {
    }

    /** While it waits for the peer a side has flushed everything. */
    lemma Waits()
      requires Valid() && (wait == ReadMessage || wait == ReadChangeCipherSpec)
      ensures NeedsPeer(t.flags, true, t.stage) && t.pending == []
    {
    }

    /** What the driver does about the last wait; false when it has to come back later. */
    method Resolve() returns (go: bool)
      requires Valid()
      modifies this, t
      ensures Valid() && Follows(t.flags, true, old(t.V()), t.V()) && state == old(state)
      ensures t.stage >= old(t.stage) && (go ==> wait == Ok)
      ensures go && old(wait) == ReadChangeCipherSpec ==> t.stage > old(t.stage)
      ensures go && old(wait) == ReadMessage ==> t.inbox != []
      ensures !go ==> t.inbox == [] && NeedsPeer(t.flags, true, t.stage) && t.pending == []
    {
      hide Hashed, Segment, Follows, OnlyFrom, FirstAt, NeedsPeer, MsgAt, ClientHandshake.Valid, Endpoint.Valid, Endpoint.V;
      Stay();
      NoError();
      match wait {
        case Ok =>
        case Flush =>
          Flushed();
        case ReadMessage =>
          Waits();
          if |t.inbox| == 0 { return false; }
          Resume();
        case ReadChangeCipherSpec =>
          Waits();
          if |t.inbox| == 0 { return false; }
          TakeChangeCipherSpec();
      }
      return true;
    }

    /** ssl_run_handshake: flushes, reads what has come and goes on, until it is done or there is nothing left to read. */
    method Run()
      requires Valid()
      modifies this, t
      ensures Valid() && Follows(t.flags, true, old(t.V()), t.V()) && t.pending == []
      ensures Resting(t.flags, true, t.V()) && (t.stage == End(t.flags) ==> state == Done)
      ensures t.stage >= old(t.stage) && (old(t.inbox) != [] ==> t.stage > old(t.stage))
    {
      hide Hashed, Segment, Follows, OnlyFrom, FirstAt, NeedsPeer, MsgAt, FromClient, ReadAt, Counted, Agreed, FullOnly;
      Stay();
      ghost var v0 := t.V();
      while true
        invariant Valid() && t.stage >= old(t.stage) && Follows(t.flags, true, v0, t.V())
        decreases End(t.flags) - t.stage, Rank(state), if wait == ReadMessage then 0 else if wait == ReadChangeCipherSpec then 1 else 2
      {
        ghost var v1 := t.V();
        var go := Resolve();
        FollowsTransitive(t.flags, true, v0, v1, t.V());
        if !go {
          PeerMeansMore(t.flags, true, t.stage);
          if old(t.inbox) != [] { InboxConsumed(t.flags, true, v0, t.V()); }
          return;
        }
        ghost var v2 := t.V();
        Handshake();
        FollowsTransitive(t.flags, true, v0, v2, t.V());
        if wait == Ok {
          if old(t.inbox) != [] { EndReached(t.flags, true, v0, t.V()); }
          return;
        }
      }
    }
  }
}
