/**
 What both handshake state machines stand on: messages waiting to be flushed,
 messages sent, messages received, and the running transcript. The ghost fields
 say where in the script the side stands.
 */
module HandshakeEndpoint {
  import opened Common
  import opened HandshakeScript

  /** What a step of the state machine wants from its driver. */
  datatype Wait = Ok | Flush | ReadMessage | ReadChangeCipherSpec | Error

  /** What is done about a message that has come: one that is left is looked at again by the next state. */
  datatype Answer = Take | Leave | Refuse

  function Verdict(ok: bool): Wait {
    if ok then Ok else Error
  }

  function Count(b: bool): nat {
    if b then 1 else 0
  }

  class Endpoint {
    const client: bool
    ghost const flags: Flags
    var transcript: seq<Msg>
    var pending: seq<Msg>
    var sent: seq<Msg>
    var inbox: seq<Msg>
    ghost var stage: nat
    ghost var arrived: nat

    ghost predicate Valid()
      reads this
    {
      && stage <= arrived <= End(flags) && OnlyFrom(flags, !client, stage, arrived)
      && inbox == Segment(flags, stage, arrived)
      && transcript == Hashed(flags, stage)
    }

    /** The side as seen from outside: flushed or not, what it has sent is under way. */
    ghost function V(): View
      reads this
    {
      View(stage, arrived, sent + pending)
    }

    constructor (client: bool, ghost flags: Flags)
      ensures Valid() && this.client == client && this.flags == flags
      ensures stage == 0 && arrived == 0 && pending == [] && sent == [] && inbox == []
    {
      this.client, this.flags := client, flags;
      transcript, pending, sent, inbox := [], [], [], [];
      stage, arrived := 0, 0;
      new;
      ghost var zero: nat := 0;
      assert Segment(flags, zero, zero) == [] && Hashed(flags, zero) == [];
    }

    /** add_message and add_change_cipher_spec; handshake messages enter the transcript. */
    method Add(m: Msg)
      requires Valid() && stage < End(flags) && MsgAt(flags, stage) == Some(m) && FromClient(flags, stage) == client
      modifies `transcript, `pending, `stage, `arrived
      ensures Valid() && stage == old(stage) + 1 && stage == arrived && pending == old(pending) + [m] && inbox == []
      ensures Follows(flags, client, old(V()), V())
    {
      hide MsgAt, FromClient, Segment;
      AddIsNext(flags, client, V());
      ghost var before := V();
      pending := pending + [m];
      HashedStep(flags, stage);
      if !m.ChangeCipherSpec? {
        transcript := transcript + [m];
      }
      stage, arrived := stage + 1, stage + 1;
      SegmentOne(flags, before.stage);
      SegmentEmpty(flags, before.stage, before.stage);
      SegmentEmpty(flags, stage, stage);
      assert V().out == before.out + [m];
    }

    /** Nothing stands at this stage. */
    ghost method Pass()
      requires Valid() && stage < End(flags) && MsgAt(flags, stage) == None
      modifies `stage, `arrived
      ensures Valid() && stage == old(stage) + 1
      ensures Follows(flags, client, old(V()), V())
    {
      hide MsgAt, FromClient, Segment;
      ghost var before := V();
      HashedStep(flags, stage);
      if stage < arrived {
        SegmentFront(flags, stage, arrived);
        SegmentEmpty(flags, arrived, arrived);
      } else {
        SegmentOne(flags, stage);
        SegmentEmpty(flags, stage, stage);
        SegmentEmpty(flags, stage + 1, stage + 1);
        arrived := stage + 1;
      }
      stage := stage + 1;
      assert V().out == before.out + [];
    }

    /** get_message: the next handshake message, if it has come. */
    method GetMessage() returns (out: Option<Msg>)
      ensures out == if inbox == [] || inbox[0].ChangeCipherSpec? then None else Some(inbox[0])
    {
      if |inbox| == 0 || inbox[0].ChangeCipherSpec? { return None; }
      return Some(inbox[0]);
    }

    /** ssl_hash_message and next_message. */
    method Accept()
      requires Valid() && inbox != [] && !inbox[0].ChangeCipherSpec? && MsgAt(flags, stage).Some?
      modifies `transcript, `inbox, `stage
      ensures Valid() && stage == old(stage) + 1 && inbox == old(inbox)[1..] && Follows(flags, client, old(V()), V())
    {
      hide MsgAt, FromClient, Segment;
      Front();
      transcript := transcript + [inbox[0]];
      inbox := inbox[1..];
      stage := stage + 1;
      SegmentEmpty(flags, arrived, arrived);
      assert V().out == old(V()).out + [];
    }

    /** Taking a ChangeCipherSpec off the wire. */
    method AcceptChangeCipherSpec()
      requires Valid() && inbox != [] && MsgAt(flags, stage) == Some(ChangeCipherSpec)
      modifies `inbox, `stage
      ensures Valid() && stage == old(stage) + 1 && inbox == old(inbox)[1..] && Follows(flags, client, old(V()), V())
    {
      hide MsgAt, FromClient, Segment;
      Front();
      inbox := inbox[1..];
      stage := stage + 1;
      SegmentEmpty(flags, arrived, arrived);
      assert V().out == old(V()).out + [];
    }

    /** What has arrived first is what the script has at this stage. */
    lemma Front()
      requires Valid() && inbox != [] && MsgAt(flags, stage).Some?
      ensures stage < arrived && inbox[0] == MsgAt(flags, stage).value && FromClient(flags, stage) == !client
      ensures inbox[1..] == Segment(flags, stage + 1, arrived)
      ensures Hashed(flags, stage + 1) == transcript + if inbox[0].ChangeCipherSpec? then [] else [inbox[0]]
    {
      hide MsgAt, FromClient, Segment;
      SegmentEmpty(flags, stage, arrived);
      SegmentFront(flags, stage, arrived);
      HashedStep(flags, stage);
    }

    /** flush_flight. */
    method FlushFlight()
      requires Valid()
      modifies `pending, `sent
      ensures Valid() && pending == [] && V() == old(V())
    {
      sent := sent + pending;
      pending := [];
    }
  }

  lemma HashedStep(f: Flags, k: nat)
    ensures Hashed(f, k + 1) == Hashed(f, k) +
      match MsgAt(f, k) case None => [] case Some(m) => if m.ChangeCipherSpec? then [] else [m]
  {
    hide MsgAt;
  }

  /** A side with a message to send has dealt with all it received. */
  lemma AddIsNext(f: Flags, client: bool, v: View)
    requires InStep(f, client, v) && MsgAt(f, v.stage).Some? && FromClient(f, v.stage) == client
    ensures v.stage == v.arrived
  {
    hide MsgAt, FromClient;
  }
}
