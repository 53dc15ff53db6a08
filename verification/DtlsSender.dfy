/** The sending side of the DTLS handshake transport, in place. */
module DtlsSender {
  import opened Common
  import opened Bits
  import opened DtlsFormat
  import opened DtlsReplay
  import opened DtlsSeal
  import opened DtlsReceive
  import opened DtlsSend
  import opened DtlsFlight

  // ---------- the messages a flight was made from ----------

  function Handshakes(flight: seq<Outgoing>): nat {
    if flight == [] then 0 else (if flight[0].isCcs then 0 else 1) + Handshakes(flight[1..])
  }

  /** The flight's handshake messages are the last ones of `sent`, numbered modulo 2^16. */
  ghost predicate MadeFrom(flight: seq<Outgoing>, sent: seq<Message>) {
    Handshakes(flight) <= |sent| &&
    forall i | 0 <= i < |flight| && !flight[i].isCcs :: IsMessage(flight, i, sent)
  }

  ghost predicate IsMessage(flight: seq<Outgoing>, i: nat, sent: seq<Message>)
    requires i < |flight| && Handshakes(flight) <= |sent|
  {
    var k := |sent| - Handshakes(flight[i..]);
    0 <= k < |sent| && MessageOf(flight[i].data) == Some(FragmentOf(sent[k], k))
  }

  function FragmentOf(m: Message, k: nat): Fragment {
    Fragment(m.typ, |m.body|, k % 0x1_0000, 0, m.body)
  }

  lemma {:induction false} HandshakesSplit(a: seq<Outgoing>, b: seq<Outgoing>)
    ensures Handshakes(a + b) == Handshakes(a) + Handshakes(b)
    decreases |a|
  {
    if a == [] {
      assert a + b == b;
    } else {
      assert (a + b)[1..] == a[1..] + b;
      HandshakesSplit(a[1..], b);
    }
  }

  lemma {:induction false} HandshakesAtMost(flight: seq<Outgoing>)
    ensures Handshakes(flight) <= |flight|
  {
    if flight != [] { HandshakesAtMost(flight[1..]); }
  }

  lemma CloseNumbersDiffer(a: nat, b: nat)
    requires a < b <= a + MAX_FLIGHT
    ensures a % 0x1_0000 != b % 0x1_0000
  {
  }

  lemma HandshakesBetween(flight: seq<Outgoing>, i: nat, j: nat)
    requires i < j < |flight| && !flight[i].isCcs
    ensures Handshakes(flight[j..]) < Handshakes(flight[i..]) <= |flight|
  {
    assert flight[i..] == flight[i..j] + flight[j..];
    HandshakesSplit(flight[i..j], flight[j..]);
    HandshakesAtMost(flight[i..]);
  }

  lemma NumbersDiffer(flight: seq<Outgoing>, sent: seq<Message>)
    requires MadeFrom(flight, sent) && |flight| <= MAX_FLIGHT
    ensures DistinctNumbers(flight)
  {
    hide MessageOf, Handshakes;
    forall i, j | 0 <= i < j < |flight| && !flight[i].isCcs && !flight[j].isCcs
      ensures NumberAt(flight, i) != NumberAt(flight, j)
    {
      assert IsMessage(flight, i, sent) && IsMessage(flight, j, sent);
      HandshakesBetween(flight, i, j);
      CloseNumbersDiffer(|sent| - Handshakes(flight[i..]), |sent| - Handshakes(flight[j..]));
    }
  }

  lemma MessageOfWhole(m: Message, k: nat)
    requires |m.body| < 0x100_0000
    ensures MessageOf(FragmentBytes(FragmentOf(m, k))) == Some(FragmentOf(m, k))
  {
    var data := FragmentBytes(FragmentOf(m, k));
    ParseRoundTrip(FragmentOf(m, k), []);
    assert data + [] == data;
  }

  lemma HandshakesAppend(flight: seq<Outgoing>, i: nat, o: Outgoing)
    requires i <= |flight|
    ensures Handshakes((flight + [o])[i..]) == Handshakes(flight[i..]) + if o.isCcs then 0 else 1
  {
    assert (flight + [o])[i..] == flight[i..] + [o];
    HandshakesSplit(flight[i..], [o]);
    assert [o][1..] == [];
  }

  lemma AddKeeps(flight: seq<Outgoing>, sent: seq<Message>, o: Outgoing, m: Message)
    requires MadeFrom(flight, sent) && |m.body| < 0x100_0000
    requires !o.isCcs && o.data == FragmentBytes(FragmentOf(m, |sent|))
    ensures MadeFrom(flight + [o], sent + [m])
  {
    hide MessageOf, Handshakes, FragmentBytes;
    var flight', sent' := flight + [o], sent + [m];
    var n := 0;
    HandshakesAppend(flight, n, o);
    assert flight'[n..] == flight' && flight[n..] == flight;
    forall i | 0 <= i < |flight'| && !flight'[i].isCcs ensures IsMessage(flight', i, sent') {
      HandshakesAppend(flight, i, o);
      if i < |flight| {
        assert IsMessage(flight, i, sent);
      } else {
        assert flight[i..] == [] && Handshakes(flight[i..]) == 0 by { HandshakesAtMost(flight[i..]); }
        MessageOfWhole(m, |sent|);
      }
    }
  }

  lemma AddCcsKeeps(flight: seq<Outgoing>, sent: seq<Message>, o: Outgoing)
    requires MadeFrom(flight, sent) && o.isCcs
    ensures MadeFrom(flight + [o], sent)
  {
    hide MessageOf, Handshakes;
    var flight' := flight + [o];
    var n := 0;
    HandshakesAppend(flight, n, o);
    assert flight'[n..] == flight' && flight[n..] == flight;
    forall i | 0 <= i < |flight'| && !flight'[i].isCcs ensures IsMessage(flight', i, sent) {
      HandshakesAppend(flight, i, o);
      assert IsMessage(flight, i, sent);
    }
  }

  lemma IsWholeMessage(flight: seq<Outgoing>, i: nat, sent: seq<Message>)
    requires MadeFrom(flight, sent) && i < |flight| && !flight[i].isCcs
    ensures MessageOf(flight[i].data).Some?
  {
    assert IsMessage(flight, i, sent);
  }

  class Sender {
    const outgoing: array<Outgoing>
    var count: nat
    var written: nat
    var offset: nat
    var complete: bool
    var writeSeq: nat
    const records: RecordWriter
    var cipher: Cipher
    var lastCipher: Cipher
    var version: nat  // that of the records of the cipher in use
    ghost var sent: seq<Message>

    ghost predicate Valid()
      reads this, outgoing, records, records.writeSequence, records.lastWriteSequence
    {
      && records.Valid() && Sound(cipher) && Sound(lastCipher) && version < 0x1_0000
      && outgoing.Length == MAX_FLIGHT && count <= MAX_FLIGHT
      && MadeFrom(outgoing[..count], sent) && writeSeq == |sent| % 0x1_0000
      && InFlight(outgoing[..count], Pos(written, offset))
    }

    ghost function Flight(): seq<Outgoing>
      requires outgoing.Length == MAX_FLIGHT && count <= MAX_FLIGHT
      reads this, outgoing
    {
      outgoing[..count]
    }

    ghost function At(): Pos
      reads this
    {
      Pos(written, offset)
    }

    /** The sender as its sending steps see it. */
    ghost function V(): Sending
      requires outgoing.Length == MAX_FLIGHT && count <= MAX_FLIGHT
      reads this, outgoing, records
    {
      Sending(Flight(), At(), records.view, cipher, lastCipher)
    }

    constructor (c: Cipher, version: nat)
      requires Sound(c) && version < 0x1_0000
      ensures Valid() && fresh(outgoing) && fresh(records) && fresh(records.writeSequence) && fresh(records.lastWriteSequence)
      ensures sent == [] && Flight() == []
    {
      outgoing := new Outgoing[7](_ => Outgoing(true, 0, []));
      records := new RecordWriter();
      count, written, offset, complete, writeSeq := 0, 0, 0, false, 0;
      cipher, lastCipher := c, c;
      this.version := version;
      sent := [];
    }

    /** dtls_clear_outgoing_messages. */
    method ClearOutgoing()
      requires Valid()
      modifies `count, `written, `offset, `complete
      ensures Valid() && Flight() == [] && At() == Pos(0, 0) && !complete
    {
      count, written, offset, complete := 0, 0, 0, false;
    }

    /** dtls1_init_message, dtls1_finish_message and dtls1_add_message. */
    method AddMessage(m: Message) returns (ok: bool)
      requires Valid()
      modifies `count, `written, `offset, `complete, `writeSeq, `sent, outgoing
      ensures Valid()
      ensures !ok <==> |m.body| >= 0x100_0000 || (!old(complete) && old(count) == MAX_FLIGHT)
      ensures sent == if ok then old(sent) + [m] else old(sent)
      ensures ok ==>
        && var data := FragmentBytes(FragmentOf(m, |old(sent)|));
        Flight() == (if old(complete) then [] else old(Flight())) + [Outgoing(false, records.epoch, data)]
    {
      hide MadeFrom, FragmentBytes, MessageOf;
      if |m.body| >= 0x100_0000 { return false; }  // does not fit the 24-bit length
      var data := FragmentBytes(Fragment(m.typ, |m.body|, writeSeq, 0, m.body));
      if complete { ClearOutgoing(); }
      if count >= MAX_FLIGHT { return false; }
      ghost var flight := outgoing[..count];
      var o := Outgoing(false, records.epoch, data);
      outgoing[count] := o;
      AddKeeps(flight, sent, o, m);
      assert outgoing[..count + 1] == flight + [o];
      writeSeq := (writeSeq + 1) % 0x1_0000;
      sent := sent + [m];
      count := count + 1;
      return true;
    }

    /** dtls1_add_change_cipher_spec. */
    method AddChangeCipherSpec() returns (ok: bool)
      requires Valid()
      modifies `count, `written, `offset, `complete, outgoing
      ensures Valid()
      ensures ok ==> Flight() == (if old(complete) then [] else old(Flight())) + [Outgoing(true, records.epoch, [])]
      ensures !ok <==> !old(complete) && old(count) == MAX_FLIGHT
    {
      hide MadeFrom, MessageOf;
      if complete { ClearOutgoing(); }
      if count >= MAX_FLIGHT { return false; }
      ghost var flight := outgoing[..count];
      var o := Outgoing(true, records.epoch, []);
      outgoing[count] := o;
      AddCcsKeeps(flight, sent, o);
      assert outgoing[..count + 1] == flight + [o];
      count := count + 1;
      return true;
    }

    /** seal_next_message. */
    method SealNextMessage(maxOut: nat, verdict: Option<nat>) returns (result: SealResult, wire: Wire)
      requires Valid() && written < count
      modifies `offset, records, records.writeSequence, records.lastWriteSequence
      ensures Valid() && (V(), result, wire) == NextRecord(old(V()), maxOut, verdict)
    {
      hide MadeFrom, MessageOf, FragmentBytes, BigEndian, Piece, SealOf;
      wire := NoWire();
      var msg := outgoing[written];
      var previous := records.epoch >= 1 && msg.epoch == records.epoch - 1;
      if !previous && msg.epoch != records.epoch { return SealError, wire; }
      var c := if previous then lastCipher else cipher;
      var overhead := RECORD_HEADER_LENGTH + c.maxOverhead;
      if msg.isCcs {
        if maxOut < 1 + overhead { return NoProgress, wire; }
        var sealed := SealPayload(maxOut, RT_CHANGE_CIPHER_SPEC, [1], c, previous, verdict);
        if sealed.None? { return SealError, wire; }
        return SealSuccess, sealed.value;
      }
      var parsed := MessageOf(msg.data);
      if parsed.None? { return SealError, wire; }
      var f := parsed.value;
      if maxOut < HEADER_LENGTH + 1 + overhead || maxOut < RECORD_HEADER_LENGTH + c.nonceLen { return NoProgress, wire; }
      var todo := |f.body| - offset;
      if todo > maxOut - HEADER_LENGTH - overhead {
        todo := maxOut - HEADER_LENGTH - overhead;
      }
      var payload := FragmentBytes(Piece(f, offset, todo));
      var sealed := SealPayload(maxOut, RT_HANDSHAKE, payload, c, previous, verdict);
      if sealed.None? { return SealError, wire; }
      wire := sealed.value;
      if todo == |f.body| - offset {
        offset := 0;
        return SealSuccess, wire;
      }
      offset := offset + todo;
      return SealPartial, wire;
    }

    /** dtls_seal_record under one of the two ciphers, with what the cipher makes of the record. */
    method SealPayload(maxOut: nat, typ: byte, payload: seq<byte>, c: Cipher, previous: bool, verdict: Option<nat>) returns (out: Option<Wire>)
      requires Valid() && MayUse(records.view, previous) && RECORD_HEADER_LENGTH <= maxOut
      modifies records, records.writeSequence, records.lastWriteSequence
      ensures Valid() && (V(), out) == SealOf(old(V()), typ, payload, c, previous, verdict)
    {
      hide MadeFrom, InFlight, BigEndian, NameOf, SealOnce;
      var len := None;
      if verdict.Some? {
        len := Some(|payload| + if verdict.value > c.maxOverhead then c.maxOverhead else verdict.value);
      }
      var header := records.SealRecord(maxOut, typ, version, len, previous);
      if header.None? { return None; }
      return Some(Wire(typ, header.value[3..11], payload, RECORD_HEADER_LENGTH + len.value));
    }

    /** seal_next_packet: as much of the flight as fits in `maxOut`; `seals` judges its records in order. */
    method SealNextPacket(maxOut: nat, seals: nat -> Option<nat>) returns (result: PacketResult, ws: seq<Wire>)
      requires Valid() && written < count
      modifies `written, `offset, records, records.writeSequence, records.lastWriteSequence
      ensures Valid() && (V(), result, ws) == PacketFrom(old(V()), maxOut, seals, [])
    {
      hide MadeFrom, NextRecord, BodyLen, BigEndian, PacketFrom;
      ws := [];
      var room: nat := maxOut;
      ghost var all := PacketFrom(V(), maxOut, seals, []);
      while written < count
        invariant Valid() && all == PacketFrom(V(), room, seals, ws)
        decreases count - written
      {
        PacketRound(V(), room, seals, ws);
        var sealed, wire := SealNextMessage(room, seals(|ws|));
        if sealed == SealError { return PacketError, ws; }
        if sealed == NoProgress { return if ws == [] then MtuTooSmall else Packed, ws; }
        ws := ws + [wire];
        if sealed == SealPartial { return Packed, ws; }
        room := room - wire.len;
        written := written + 1;
      }
      PacketEnds(V(), room, seals, ws);
      result := if ws == [] then MtuTooSmall else Packed;
    }

    /**
     send_flight. `accepts` says which packets the transport takes, `seals`
     what the cipher makes of each record of each packet. `packets` are those
     taken; `lost` are records sealed for a packet that was given up.
     */
    method SendFlight(mtu: nat, accepts: nat -> bool, flushes: bool, seals: nat -> nat -> Option<nat>)
      returns (result: FlightResult, packets: seq<seq<Wire>>, ghost lost: seq<Wire>)
      requires Valid() && mtu >= MIN_MTU
      modifies `written, `offset, records, records.writeSequence, records.lastWriteSequence
      ensures Valid() && (V(), Outcome(result, packets, lost)) == SendAll(old(V()), mtu, accepts, flushes, seals)
      ensures Sent(old(At()), mtu, accepts, result, packets, lost)
    {
      hide MadeFrom, PacketFrom, InFlight, Remaining, Total, After, Flat;
      packets, lost := [], [];
      FlightOutcome(V(), mtu, accepts, flushes, seals);
      ghost var s := V();
      while written < count
        invariant Valid() && V().flight == s.flight
        invariant SendAll(s, mtu, accepts, flushes, seals) == FlightFrom(V(), mtu, accepts, flushes, seals, packets)
        decreases count - written, Remaining(Flight(), At())
      {
        var oldWritten, oldOffset := written, offset;
        PacketMoves(V(), mtu, seals(|packets|));
        var packed, ws := SealNextPacket(mtu, seals(|packets|));
        if packed != Packed {
          lost := ws;
          return FlightError, packets, lost;
        }
        if !accepts(|packets|) {
          written, offset := oldWritten, oldOffset;
          return WriteFailed, packets, lost;
        }
        packets := packets + [ws];
      }
      return if flushes then FlightSent else FlushFailed, packets, lost;
    }

    /**
     Every packet was taken, fits, and continues the flight from `from`; a
     failed write leaves the flight at the last packet taken, and the position
     lies past the packets taken exactly when records were lost.
     */
    ghost predicate Sent(from: Pos, mtu: nat, accepts: nat -> bool, result: FlightResult, packets: seq<seq<Wire>>, lost: seq<Wire>)
      requires outgoing.Length == MAX_FLIGHT && count <= MAX_FLIGHT && InFlight(Flight(), from)
      reads this, outgoing
    {
      && GoodPackets(packets, mtu, accepts)
      && After(Flight(), from, Flat(packets) + lost) == Some(At())
      && (lost == [] <==> After(Flight(), from, Flat(packets)) == Some(At()))
      && (lost != [] ==> result == FlightError)
      && (result == FlightSent || result == FlushFailed ==> At() == Pos(count, 0))
      && (result == WriteFailed ==> written < count && !accepts(|packets|))
    }

    /** dtls1_flush_flight. */
    method FlushFlight(mtu: nat, accepts: nat -> bool, flushes: bool, seals: nat -> nat -> Option<nat>)
      returns (result: FlightResult, packets: seq<seq<Wire>>, ghost lost: seq<Wire>)
      requires Valid() && mtu >= MIN_MTU
      modifies `complete, `written, `offset, records, records.writeSequence, records.lastWriteSequence
      ensures Valid() && complete && (V(), Outcome(result, packets, lost)) == SendAll(old(V()), mtu, accepts, flushes, seals)
      ensures Sent(old(At()), mtu, accepts, result, packets, lost)
    {
      hide MadeFrom, SendAll;
      complete := true;
      result, packets, lost := SendFlight(mtu, accepts, flushes, seals);
    }

    /** dtls1_retransmit_outgoing_messages: the whole flight again, cut to the MTU of now. */
    method Retransmit(mtu: nat, accepts: nat -> bool, flushes: bool, seals: nat -> nat -> Option<nat>)
      returns (result: FlightResult, packets: seq<seq<Wire>>, ghost lost: seq<Wire>)
      requires Valid() && mtu >= MIN_MTU
      modifies `written, `offset, records, records.writeSequence, records.lastWriteSequence
      ensures Valid() && (V(), Outcome(result, packets, lost)) == SendAll(old(V()).(at := Pos(0, 0)), mtu, accepts, flushes, seals)
      ensures Sent(Pos(0, 0), mtu, accepts, result, packets, lost)
      ensures result == FlightSent ==> forall i: nat | i < count && !outgoing[i].isCcs ::
        Collected(Flat(packets), NumberAt(Flight(), i)) == BodyAt(Flight(), i)
    {
      hide MadeFrom, SendAll, MessageOf, After, Flat;
      written, offset := 0, 0;
      result, packets, lost := SendFlight(mtu, accepts, flushes, seals);
      if result == FlightSent {
        assert Flat(packets) + [] == Flat(packets);
        NumbersDiffer(Flight(), sent);
        forall i: nat | i < count && !outgoing[i].isCcs
          ensures Collected(Flat(packets), NumberAt(Flight(), i)) == BodyAt(Flight(), i)
        {
          IsWholeMessage(Flight(), i, sent);
          FragmentsJoin(Flight(), Flat(packets), i);
        }
      }
    }

    /** The epoch and the ciphers of dtls1_set_write_state. */
    method SetWriteState(c: Cipher, v: nat)
      requires Valid() && Sound(c) && v < 0x1_0000
      modifies `cipher, `lastCipher, `version, records, records.writeSequence, records.lastWriteSequence
      ensures Valid() && records.view == NewKeys(old(records.view)) && cipher == c && lastCipher == old(cipher) && version == v
    {
      hide MadeFrom;
      records.SetWriteState();
      lastCipher := cipher;
      cipher, version := c, v;
    }
  }
}
