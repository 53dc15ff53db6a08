/**
 Sending a flight, on values: the next record, as many records as fit a packet,
 packet after packet until the flight is through or something fails. What the
 cipher and the transport do is given, so every outcome is a function of it.
 */
module DtlsFlight {
  import opened Common
  import opened Bits
  import opened DtlsFormat
  import opened DtlsReplay
  import opened DtlsSeal
  import opened DtlsReceive
  import opened DtlsSend

  datatype SealResult = SealError | NoProgress | SealPartial | SealSuccess

  datatype PacketResult = Packed | MtuTooSmall | PacketError

  datatype FlightResult = FlightSent | WriteFailed | FlushFailed | FlightError

  /** The flight, how far it has come, the record layer's counters and the two ciphers. */
  datatype Sending = Sending(flight: seq<Outgoing>, at: Pos, w: Writer, cipher: Cipher, lastCipher: Cipher)

  predicate Ready(s: Sending) {
    && InFlight(s.flight, s.at) && Sound(s.cipher) && Sound(s.lastCipher)
    && s.w.next < TWO48 && s.w.last < TWO48
  }

  /** Only the position and the counters have changed, and the epoch has not. */
  predicate SameFlight(s: Sending, s': Sending) {
    s' == s.(at := s'.at, w := s'.w) && s'.w.changes == s.w.changes
  }

  /** The cipher of the epoch a message belongs to, and whether it is the previous one; None when it is neither. */
  function CipherFor(s: Sending, epoch: nat): (r: Option<(Cipher, bool)>)
    ensures r.Some? && r.value.1 ==> MayUse(s.w, true)
    ensures r.Some? && Ready(s) ==> Sound(r.value.0)
  {
    var e := EpochOf(s.w.changes);
    if e >= 1 && epoch == e - 1 then Some((s.lastCipher, true))
    else if epoch == e then Some((s.cipher, false))
    else None
  }

  /** dtls_seal_record; the verdict is what the cipher adds to the length, up to its overhead, or that it fails. */
  function SealOf(s: Sending, typ: nat, payload: seq<byte>, c: Cipher, previous: bool, verdict: Option<nat>): (r: (Sending, Option<Wire>))
    requires MayUse(s.w, previous)
    ensures SameFlight(s, r.0) && r.0.at == s.at
    ensures s.w.next < TWO48 && s.w.last < TWO48 ==> r.0.w.next < TWO48 && r.0.w.last < TWO48
    ensures r.1.Some? ==> r.1.value.len <= RECORD_HEADER_LENGTH + |payload| + c.maxOverhead
  {
    match verdict
    case None => (s, None)
    case Some(added) =>
      var len := |payload| + if added > c.maxOverhead then c.maxOverhead else added;
      var (e, n) := if previous then (EpochOf(s.w.changes) - 1, s.w.last) else (EpochOf(s.w.changes), s.w.next);
      var s' := s.(w := SealOnce(s.w, previous));
      if n + 1 >= TWO48 || len >= 0x1_0000 then (s', None)
      else (s', Some(Wire(typ, NameOf(e, n), payload, RECORD_HEADER_LENGTH + len)))
  }

  function NoWire(): Wire {
    Wire(0, [], [], 0)
  }

  /** How much of a message goes into a record. */
  function Todo(left: nat, maxOut: nat, overhead: nat): nat
    requires maxOut >= HEADER_LENGTH + overhead
  {
    if left > maxOut - HEADER_LENGTH - overhead then maxOut - HEADER_LENGTH - overhead else left
  }

  /** seal_next_message. The wire record means something only after progress. */
  function NextRecord(s: Sending, maxOut: nat, verdict: Option<nat>): (r: (Sending, SealResult, Wire))
    requires Ready(s) && s.at.written < |s.flight|
    ensures SameFlight(s, r.0) && Ready(r.0) && r.0.at.written == s.at.written
    ensures r.2.len <= maxOut
  {
    var msg := s.flight[s.at.written];
    match CipherFor(s, msg.epoch)
    case None => (s, SealError, NoWire())
    case Some((c, previous)) =>
      var overhead := RECORD_HEADER_LENGTH + c.maxOverhead;
      if msg.isCcs then
        if maxOut < 1 + overhead then (s, NoProgress, NoWire())
        else
          var (s', out) := SealOf(s, RT_CHANGE_CIPHER_SPEC, [1], c, previous, verdict);
          if out.None? then (s', SealError, NoWire()) else (s', SealSuccess, out.value)
      else
        match MessageOf(msg.data)
        case None => (s, SealError, NoWire())
        case Some(f) =>
          if maxOut < HEADER_LENGTH + 1 + overhead || maxOut < RECORD_HEADER_LENGTH + c.nonceLen then (s, NoProgress, NoWire())
          else
            var left := |f.body| - s.at.offset;
            var todo := Todo(left, maxOut, overhead);
            var (s', out) := SealOf(s, RT_HANDSHAKE, FragmentBytes(Piece(f, s.at.offset, todo)), c, previous, verdict);
            if out.None? then (s', SealError, NoWire())
            else if todo == left then (s'.(at := Pos(s.at.written, 0)), SealSuccess, out.value)
            else (s'.(at := Pos(s.at.written, s.at.offset + todo)), SealPartial, out.value)
  }

  function PacketEnd(ws: seq<Wire>): PacketResult {
    if ws == [] then MtuTooSmall else Packed
  }

  /** The loop of seal_next_packet with `room` left and the records `ws` in the packet; `seals` judges them in order. */
  function PacketFrom(s: Sending, room: nat, seals: nat -> Option<nat>, ws: seq<Wire>): (r: (Sending, PacketResult, seq<Wire>))
    requires Ready(s)
    ensures SameFlight(s, r.0) && Ready(r.0) && (r.1 == Packed ==> r.2 != []) && (r.1 == MtuTooSmall ==> r.2 == [])
    decreases |s.flight| - s.at.written
  {
    if s.at.written >= |s.flight| then (s, PacketEnd(ws), ws)
    else
      var (s', sealed, wire) := NextRecord(s, room, seals(|ws|));
      match sealed
      case SealError => (s', PacketError, ws)
      case NoProgress => (s', PacketEnd(ws), ws)
      case SealPartial => (s', Packed, ws + [wire])
      case SealSuccess => PacketFrom(s'.(at := Pos(s.at.written + 1, 0)), room - wire.len, seals, ws + [wire])
  }

  function Total(ws: seq<Wire>): nat {
    if ws == [] then 0 else Total(ws[..|ws| - 1]) + ws[|ws| - 1].len
  }

  function Flat(packets: seq<seq<Wire>>): seq<Wire> {
    if packets == [] then [] else Flat(packets[..|packets| - 1]) + packets[|packets| - 1]
  }

  lemma FlatAppend(packets: seq<seq<Wire>>, ws: seq<Wire>)
    ensures Flat(packets + [ws]) == Flat(packets) + ws
  {
    assert (packets + [ws])[..|packets|] == packets;
  }

  // ---------- what a record and a packet do ----------

  lemma AdvanceCcs(flight: seq<Outgoing>, p: Pos, w: Wire)
    requires InFlight(flight, p) && p.written < |flight| && flight[p.written].isCcs
    requires w.typ == RT_CHANGE_CIPHER_SPEC && w.payload == [1]
    ensures Advance(flight, p, w) == Some(Pos(p.written + 1, 0)) && p.offset == 0
  {
  }

  lemma AdvancePiece(flight: seq<Outgoing>, p: Pos, f: Fragment, n: nat, w: Wire)
    requires InFlight(flight, p) && p.written < |flight| && !flight[p.written].isCcs
    requires MessageOf(flight[p.written].data) == Some(f) && p.offset + n <= |f.body|
    requires w.typ == RT_HANDSHAKE && w.payload == FragmentBytes(Piece(f, p.offset, n))
    requires n == 0 ==> p.offset == |f.body|
    ensures Advance(flight, p, w) == Some(if p.offset + n == |f.body| then Pos(p.written + 1, 0) else Pos(p.written, p.offset + n))
  {
  }

  /**
   The record sealed is the next piece of the flight and fits; a partial one
   fills the packet as far as the cipher's overhead allows. Without progress
   not even one byte of body would have fitted.
   */
  lemma RecordGoesOn(s: Sending, maxOut: nat, verdict: Option<nat>)
    requires Ready(s) && s.at.written < |s.flight|
    ensures var (s', sealed, wire) := NextRecord(s, maxOut, verdict);
      && (sealed.SealError? || sealed.NoProgress? ==> s'.at == s.at)
      && (sealed.SealPartial? ==> Advance(s.flight, s.at, wire) == Some(s'.at))
      && (sealed.SealSuccess? ==> Advance(s.flight, s.at, wire) == Some(Pos(s.at.written + 1, 0)) && s'.at.offset == 0)
  {
    hide Advance, MessageOf, FragmentBytes, Piece, SealOnce, NameOf;
    var (s', sealed, wire) := NextRecord(s, maxOut, verdict);
    if sealed.SealPartial? || sealed.SealSuccess? {
      if s.flight[s.at.written].isCcs {
        AdvanceCcs(s.flight, s.at, wire);
      } else {
        var f := MessageOf(s.flight[s.at.written].data).value;
        var c := CipherFor(s, s.flight[s.at.written].epoch).value.0;
        var todo := Todo(|f.body| - s.at.offset, maxOut, RECORD_HEADER_LENGTH + c.maxOverhead);
        AdvancePiece(s.flight, s.at, f, todo, wire);
      }
    }
  }

  lemma EpochOfName(e: nat, n: nat)
    requires e < 0x1_0000 && n < TWO48
    ensures |NameOf(e, n)| == 8 && BigEndian(NameOf(e, n)) == e * TWO48 + n && BigEndian(NameOf(e, n)) / TWO48 == e
  {
    hide BigEndian, BigEndianBytes;
    var six := 6;
    PowersOf256(six);
    BigEndianOfBytes(n, six);
    RecordName(e, BigEndianBytes(n, six));
  }

  /** One round of the loop that fills a packet. */
  lemma PacketRound(s: Sending, room: nat, seals: nat -> Option<nat>, ws: seq<Wire>)
    requires Ready(s) && s.at.written < |s.flight|
    ensures var (s', sealed, wire) := NextRecord(s, room, seals(|ws|));
      && (sealed == SealError ==> PacketFrom(s, room, seals, ws) == (s', PacketError, ws))
      && (sealed == NoProgress ==> PacketFrom(s, room, seals, ws) == (s', PacketEnd(ws), ws))
      && (sealed == SealPartial ==> PacketFrom(s, room, seals, ws) == (s', Packed, ws + [wire]))
      && (sealed == SealSuccess ==>
            var next := s'.(at := Pos(s'.at.written + 1, s'.at.offset));
            Ready(next) && PacketFrom(s, room, seals, ws) == PacketFrom(next, room - wire.len, seals, ws + [wire]))
  {
    hide NextRecord, Ready;
    RecordGoesOn(s, room, seals(|ws|));
    NextIsReady(s, room, seals(|ws|));
  }

  lemma PacketEnds(s: Sending, room: nat, seals: nat -> Option<nat>, ws: seq<Wire>)
    requires Ready(s) && s.at.written >= |s.flight|
    ensures PacketFrom(s, room, seals, ws) == (s, PacketEnd(ws), ws)
  {
  }

  /**
   A record goes out under its message's epoch, a header longer than what the
   cipher makes of the payload; a partial one leaves no room. There is no
   progress exactly when not one byte of payload would have fitted.
   */
  lemma RecordFits(s: Sending, maxOut: nat, verdict: Option<nat>)
    requires Ready(s) && s.at.written < |s.flight|
    ensures var (s', sealed, wire) := NextRecord(s, maxOut, verdict);
      var msg := s.flight[s.at.written];
      var c := CipherFor(s, msg.epoch);
      && (sealed.SealPartial? || sealed.SealSuccess? ==>
            && |wire.name| == 8 && BigEndian(wire.name) / TWO48 == msg.epoch && c.Some? && verdict.Some?
            && wire.len == 13 + |wire.payload| + if verdict.value > c.value.0.maxOverhead then c.value.0.maxOverhead else verdict.value)
      && (sealed.SealPartial? ==> |wire.payload| + 13 + c.value.0.maxOverhead == maxOut)
      && (c.Some? ==> c.value == if msg.epoch == EpochOf(s.w.changes) then (s.cipher, false) else (s.lastCipher, true))
      && (sealed.NoProgress? ==> s' == s)
      && (sealed.NoProgress? <==>
            && c.Some? && (msg.isCcs || MessageOf(msg.data).Some?)
            && maxOut < 13 + c.value.0.maxOverhead + if msg.isCcs then 1 else 12 + 1)
  {
    hide Advance, MessageOf, Piece, NameOf, BigEndian;
    var c := CipherFor(s, s.flight[s.at.written].epoch);
    if c.Some? { EpochOfName(s.flight[s.at.written].epoch, if c.value.1 then s.w.last else s.w.next); }
  }

  /** The counter that the record for this epoch is named by. */
  function CounterFor(s: Sending, epoch: nat): nat {
    if epoch == EpochOf(s.w.changes) then s.w.next else s.w.last
  }

  /**
   When nothing can be sealed: the message is of neither of the two epochs, its
   data is not one whole message, the cipher fails, the counter is at its last
   number or the record would take 2^16 bytes or more, with room for the record.
   */
  lemma SealFailsExactly(s: Sending, maxOut: nat, verdict: Option<nat>)
    requires Ready(s) && s.at.written < |s.flight|
    ensures var (s', sealed, wire) := NextRecord(s, maxOut, verdict);
      var msg := s.flight[s.at.written];
      var c := CipherFor(s, msg.epoch);
      sealed.SealError? <==>
        || (msg.epoch != EpochOf(s.w.changes) && msg.epoch + 1 != EpochOf(s.w.changes))
        || (!msg.isCcs && MessageOf(msg.data).None?)
        || (!sealed.NoProgress? && c.Some? &&
             (verdict.None? || CounterFor(s, msg.epoch) == TWO48 - 1 || PayloadLength(s, maxOut) + Added(c.value.0, verdict) >= 0x1_0000))
  {
    hide Advance, Piece, NameOf, BigEndian, SealOnce, FragmentBytes;
  }

  function Added(c: Cipher, verdict: Option<nat>): nat {
    if verdict.None? then 0 else if verdict.value > c.maxOverhead then c.maxOverhead else verdict.value
  }

  /** The next payload: one byte for a ChangeCipherSpec, and otherwise a fragment header and as much of the message as there is room for. */
  function PayloadLength(s: Sending, maxOut: nat): int
    requires Ready(s) && s.at.written < |s.flight|
  {
    var msg := s.flight[s.at.written];
    var c := CipherFor(s, msg.epoch);
    if msg.isCcs || c.None? then 1
    else
      var left := BodyLen(msg) - s.at.offset;
      var room := maxOut - 13 - c.value.0.maxOverhead;
      if 12 + left <= room then 12 + left else room
  }

  lemma OneMore(flight: seq<Outgoing>, from: Pos, ws: seq<Wire>, w: Wire)
    requires InFlight(flight, from) && After(flight, from, ws).Some?
    ensures After(flight, from, ws + [w]) == Advance(flight, After(flight, from, ws).value, w)
    ensures Total(ws + [w]) == Total(ws) + w.len
  {
    hide Advance, InFlight;
    assert (ws + [w])[..|ws|] == ws;
  }

  /** The records of a packet continue the flight from `from`, and fit. */
  lemma {:induction false} PacketGoesOn(s: Sending, room: nat, seals: nat -> Option<nat>, ws: seq<Wire>, from: Pos)
    requires Ready(s) && InFlight(s.flight, from) && After(s.flight, from, ws) == Some(s.at)
    ensures var (s', result, ws') := PacketFrom(s, room, seals, ws);
      && After(s.flight, from, ws') == Some(s'.at) && Total(ws') <= Total(ws) + room && |ws| <= |ws'|
      && (result == MtuTooSmall ==> ws' == [] && s' == s)
    decreases |s.flight| - s.at.written
  {
    hide Advance, After, InFlight, NextRecord, PacketFrom, Total;
    if s.at.written < |s.flight| {
      RecordGoesOn(s, room, seals(|ws|));
      RecordFits(s, room, seals(|ws|));
      PacketRound(s, room, seals, ws);
      var (s1, sealed, wire) := NextRecord(s, room, seals(|ws|));
      OneMore(s.flight, from, ws, wire);
      if sealed == SealSuccess {
        PacketGoesOn(s1.(at := Pos(s.at.written + 1, 0)), room - wire.len, seals, ws + [wire], from);
      }
    } else {
      PacketEnds(s, room, seals, ws);
    }
  }

  predicate Ahead(q: Pos, p: Pos) {
    q.written > p.written || (q.written == p.written && q.offset > p.offset)
  }

  /** Records that were sealed have moved the position. */
  lemma {:induction false} MovesForward(flight: seq<Outgoing>, p: Pos, ws: seq<Wire>)
    requires InFlight(flight, p) && After(flight, p, ws).Some?
    ensures ws != [] ==> Ahead(After(flight, p, ws).value, p)
    decreases |ws|
  {
    if ws != [] {
      MovesForward(flight, p, ws[..|ws| - 1]);
    }
  }

  /** Bytes of the current message still to be sent. */
  function Remaining(flight: seq<Outgoing>, p: Pos): nat {
    if p.written < |flight| && p.offset <= BodyLen(flight[p.written]) then BodyLen(flight[p.written]) - p.offset else 0
  }

  /** Every packet leaves fewer messages, or as many with fewer bytes of the first. */
  lemma PacketMoves(s: Sending, mtu: nat, seals: nat -> Option<nat>)
    requires Ready(s)
    ensures var (s', result, _) := PacketFrom(s, mtu, seals, []);
      result == Packed ==>
        s'.at.written > s.at.written || (s'.at.written == s.at.written && Remaining(s.flight, s'.at) < Remaining(s.flight, s.at))
  {
    hide PacketFrom;
    PacketGoesOn(s, mtu, seals, [], s.at);
    MovesForward(s.flight, s.at, PacketFrom(s, mtu, seals, []).2);
  }

  // ---------- the whole flight ----------

  /** Packets written and, when a packet is given up halfway, the records already sealed for it. */
  datatype Outcome = Outcome(result: FlightResult, packets: seq<seq<Wire>>, lost: seq<Wire>)

  /**
   The loop of send_flight. `accepts` says which packets the transport takes,
   and `seals` judges the records of each.
   */
  function FlightFrom(s: Sending, mtu: nat, accepts: nat -> bool, flushes: bool, seals: nat -> nat -> Option<nat>, packets: seq<seq<Wire>>):
    (r: (Sending, Outcome))
    requires Ready(s)
    ensures SameFlight(s, r.0) && Ready(r.0)
    decreases |s.flight| - s.at.written, Remaining(s.flight, s.at)
  {
    if s.at.written >= |s.flight| then (s, Outcome(if flushes then FlightSent else FlushFailed, packets, []))
    else
      var (s', result, ws) := PacketFrom(s, mtu, seals(|packets|), []);
      if result != Packed then (s', Outcome(FlightError, packets, ws))
      else if !accepts(|packets|) then (s'.(at := s.at), Outcome(WriteFailed, packets, []))
      else
        PacketMoves(s, mtu, seals(|packets|));
        FlightFrom(s', mtu, accepts, flushes, seals, packets + [ws])
  }

  function SendAll(s: Sending, mtu: nat, accepts: nat -> bool, flushes: bool, seals: nat -> nat -> Option<nat>): (r: (Sending, Outcome))
    requires Ready(s)
    ensures SameFlight(s, r.0) && Ready(r.0)
  {
    FlightFrom(s, mtu, accepts, flushes, seals, [])
  }

  predicate GoodPackets(packets: seq<seq<Wire>>, mtu: nat, accepts: nat -> bool) {
    forall i | 0 <= i < |packets| :: packets[i] != [] && Total(packets[i]) <= mtu && accepts(i)
  }

  /** Every packet fits, was taken, and continues the flight; whatever is lost was sealed for the packet that failed. */
  lemma {:induction false} FlightGoesOn(
    s: Sending, mtu: nat, accepts: nat -> bool, flushes: bool, seals: nat -> nat -> Option<nat>, packets: seq<seq<Wire>>, from: Pos)
    requires Ready(s) && InFlight(s.flight, from) && After(s.flight, from, Flat(packets)) == Some(s.at)
    requires GoodPackets(packets, mtu, accepts)
    ensures var (s', o) := FlightFrom(s, mtu, accepts, flushes, seals, packets);
      && After(s.flight, from, Flat(o.packets) + o.lost) == Some(s'.at) && GoodPackets(o.packets, mtu, accepts)
      && (o.lost != [] ==> o.result == FlightError)
      && (o.result == FlightSent || o.result == FlushFailed ==> s'.at == Pos(|s.flight|, 0))
      && (o.result == FlightSent ==> flushes) && (o.result == FlushFailed ==> !flushes)
      && (o.result == WriteFailed ==> s'.at.written < |s.flight| && !accepts(|o.packets|))
    decreases |s.flight| - s.at.written, Remaining(s.flight, s.at)
  {
    hide After, Flat, PacketFrom, Remaining, Total;
    assert Flat(packets) + [] == Flat(packets);
    if s.at.written < |s.flight| {
      var k := |packets|;
      var (s1, result, ws) := PacketFrom(s, mtu, seals(k), []);
      NothingSent(s.flight, s.at);
      PacketGoesOn(s, mtu, seals(k), [], s.at);
      AfterSplit(s.flight, from, Flat(packets), ws);
      if result == Packed && accepts(k) {
        PacketMoves(s, mtu, seals(k));
        FlatAppend(packets, ws);
        FlightGoesOn(s1, mtu, accepts, flushes, seals, packets + [ws], from);
      }
    }
  }

  lemma NothingSent(flight: seq<Outgoing>, p: Pos)
    requires InFlight(flight, p)
    ensures Flat([]) == [] && After(flight, p, []) == Some(p) && Total([]) == 0
  {
  }

  /** The position is where the packets written have brought it exactly when nothing was lost. */
  lemma PositionKept(s: Sending, mtu: nat, accepts: nat -> bool, flushes: bool, seals: nat -> nat -> Option<nat>)
    requires Ready(s)
    ensures var (s', o) := SendAll(s, mtu, accepts, flushes, seals);
      o.lost == [] <==> After(s.flight, s.at, Flat(o.packets)) == Some(s'.at)
  {
    hide After, Flat, FlightFrom;
    NothingSent(s.flight, s.at);
    FlightGoesOn(s, mtu, accepts, flushes, seals, [], s.at);
    var (s', o) := SendAll(s, mtu, accepts, flushes, seals);
    var flat := Flat(o.packets);
    assert flat + [] == flat;
    AfterPrefix(s.flight, s.at, flat, o.lost);
    MovesForward(s.flight, After(s.flight, s.at, flat).value, o.lost);
  }

  lemma {:induction false} AfterPrefix(flight: seq<Outgoing>, p: Pos, a: seq<Wire>, b: seq<Wire>)
    requires InFlight(flight, p) && After(flight, p, a + b).Some?
    ensures After(flight, p, a).Some? && After(flight, After(flight, p, a).value, b) == After(flight, p, a + b)
    decreases |b|
  {
    if b == [] {
      assert a + b == a;
    } else {
      assert (a + b)[..|a + b| - 1] == a + b[..|b| - 1];
      AfterPrefix(flight, p, a, b[..|b| - 1]);
    }
  }

  lemma FlightOutcome(s: Sending, mtu: nat, accepts: nat -> bool, flushes: bool, seals: nat -> nat -> Option<nat>)
    requires Ready(s)
    ensures var (s', o) := SendAll(s, mtu, accepts, flushes, seals);
      && After(s.flight, s.at, Flat(o.packets) + o.lost) == Some(s'.at) && GoodPackets(o.packets, mtu, accepts)
      && (o.lost == [] <==> After(s.flight, s.at, Flat(o.packets)) == Some(s'.at))
      && (o.lost != [] ==> o.result == FlightError)
      && (o.result == FlightSent || o.result == FlushFailed ==> s'.at == Pos(|s.flight|, 0))
      && (o.result == FlightSent ==> flushes) && (o.result == FlushFailed ==> !flushes)
      && (o.result == WriteFailed ==> s'.at.written < |s.flight| && !accepts(|o.packets|))
  {
    hide After, Flat, FlightFrom, Total;
    NothingSent(s.flight, s.at);
    FlightGoesOn(s, mtu, accepts, flushes, seals, [], s.at);
    PositionKept(s, mtu, accepts, flushes, seals);
  }

  // ---------- exactly when records are lost ----------

  lemma NextIsReady(s: Sending, room: nat, verdict: Option<nat>)
    requires Ready(s) && s.at.written < |s.flight|
    ensures var next := NextRecord(s, room, verdict).0.(at := Pos(s.at.written + 1, 0));
      Ready(next) && next.flight == s.flight
  {
    hide NextRecord, BodyLen;
  }

  /** From record i of the packet on, j records go in whole and the next cannot be sealed. */
  predicate FailsAfter(s: Sending, room: nat, seals: nat -> Option<nat>, i: nat, j: nat)
    requires Ready(s)
    decreases j
  {
    s.at.written < |s.flight| &&
    var (s', sealed, wire) := NextRecord(s, room, seals(i));
    if j == 0 then sealed == SealError
    else sealed == SealSuccess && FailsAfter(s'.(at := Pos(s.at.written + 1, 0)), room - wire.len, seals, i + 1, j - 1)
  }

  lemma {:induction false} PacketFailsExactly(s: Sending, room: nat, seals: nat -> Option<nat>, ws: seq<Wire>, j: nat)
    requires Ready(s)
    ensures var (_, result, ws') := PacketFrom(s, room, seals, ws);
      FailsAfter(s, room, seals, |ws|, j) <==> result == PacketError && |ws'| == |ws| + j
    decreases |s.flight| - s.at.written
  {
    hide NextRecord, Ready, SameFlight;
    if s.at.written < |s.flight| {
      NextIsReady(s, room, seals(|ws|));
      var (s1, sealed, wire) := NextRecord(s, room, seals(|ws|));
      if sealed == SealSuccess {
        var next := s1.(at := Pos(s.at.written + 1, 0));
        if j > 0 { PacketFailsExactly(next, room - wire.len, seals, ws + [wire], j - 1); }
        PacketGrows(next, room - wire.len, seals, ws + [wire]);
      }
    }
  }

  lemma {:induction false} PacketGrows(s: Sending, room: nat, seals: nat -> Option<nat>, ws: seq<Wire>)
    requires Ready(s)
    ensures |PacketFrom(s, room, seals, ws).2| >= |ws|
    decreases |s.flight| - s.at.written
  {
    hide NextRecord, Ready, SameFlight;
    if s.at.written < |s.flight| {
      NextIsReady(s, room, seals(|ws|));
      var (s1, sealed, wire) := NextRecord(s, room, seals(|ws|));
      if sealed == SealSuccess {
        PacketGrows(s1.(at := Pos(s.at.written + 1, 0)), room - wire.len, seals, ws + [wire]);
      }
    }
  }

  /** Where k packets have brought the flight; None when fewer were written. */
  function AfterPackets(s: Sending, mtu: nat, accepts: nat -> bool, seals: nat -> nat -> Option<nat>, k: nat): (r: Option<Sending>)
    requires Ready(s)
    ensures r.Some? ==> Ready(r.value)
  {
    if k == 0 then Some(s)
    else
      match AfterPackets(s, mtu, accepts, seals, k - 1)
      case None => None
      case Some(q) =>
        var (q', result, _) := PacketFrom(q, mtu, seals(k - 1), []);
        if q.at.written < |q.flight| && result == Packed && accepts(k - 1) then Some(q') else None
  }

  lemma {:induction false} FewerPackets(s: Sending, mtu: nat, accepts: nat -> bool, seals: nat -> nat -> Option<nat>, m: nat, k: nat)
    requires Ready(s) && m <= k && AfterPackets(s, mtu, accepts, seals, k).Some?
    ensures AfterPackets(s, mtu, accepts, seals, m).Some?
    decreases k
  {
    hide PacketFrom, Ready;
    if m < k { FewerPackets(s, mtu, accepts, seals, m, k - 1); }
  }

  /** Packet k is given up after j of its records have been sealed. */
  predicate GivesUp(s: Sending, mtu: nat, accepts: nat -> bool, seals: nat -> nat -> Option<nat>, k: nat, j: nat)
    requires Ready(s)
  {
    var q := AfterPackets(s, mtu, accepts, seals, k);
    q.Some? && FailsAfter(q.value, mtu, seals(k), 0, j)
  }

  lemma NotBegun(mtu: nat, seals: nat -> Option<nat>, q: Sending)
    requires Ready(q) && q.at.written >= |q.flight|
    ensures forall j: nat :: !FailsAfter(q, mtu, seals, 0, j)
  {
  }

  lemma OnePacketMore(s: Sending, mtu: nat, accepts: nat -> bool, seals: nat -> nat -> Option<nat>, q: Sending, n: nat)
    requires Ready(s) && AfterPackets(s, mtu, accepts, seals, n) == Some(q)
    ensures var (q', result, _) := PacketFrom(q, mtu, seals(n), []);
      AfterPackets(s, mtu, accepts, seals, n + 1) ==
        if q.at.written < |q.flight| && result == Packed && accepts(n) then Some(q') else None
  {
    hide PacketFrom, Ready;
  }

  lemma {:induction false} LostFrom(
    s: Sending, mtu: nat, accepts: nat -> bool, flushes: bool, seals: nat -> nat -> Option<nat>, q: Sending, packets: seq<seq<Wire>>)
    requires Ready(s) && AfterPackets(s, mtu, accepts, seals, |packets|) == Some(q)
    ensures FlightFrom(q, mtu, accepts, flushes, seals, packets).1.lost != [] <==>
      exists k: nat, j: nat :: k >= |packets| && j > 0 && GivesUp(s, mtu, accepts, seals, k, j)
    decreases |q.flight| - q.at.written, Remaining(q.flight, q.at)
  {
    hide PacketFrom, Remaining, FailsAfter, AfterPackets, Ready;
    var n := |packets|;
    OnePacketMore(s, mtu, accepts, seals, q, n);
    if q.at.written >= |q.flight| { NotBegun(mtu, seals(n), q); }
    forall k: nat, j: nat | k > n && GivesUp(s, mtu, accepts, seals, k, j) ensures AfterPackets(s, mtu, accepts, seals, n + 1).Some? {
      FewerPackets(s, mtu, accepts, seals, n + 1, k);
    }
    if q.at.written < |q.flight| {
      var (q', result, ws) := PacketFrom(q, mtu, seals(n), []);
      forall j: nat ensures FailsAfter(q, mtu, seals(n), 0, j) <==> result == PacketError && |ws| == j {
        PacketFailsExactly(q, mtu, seals(n), [], j);
      }
      if result == Packed && accepts(n) {
        PacketMoves(q, mtu, seals(n));
        LostFrom(s, mtu, accepts, flushes, seals, q', packets + [ws]);
      } else if result == PacketError && ws != [] {
        assert GivesUp(s, mtu, accepts, seals, n, |ws|);
      }
    }
  }

  /** Records are lost exactly when some packet cannot be completed because a record after its first cannot be sealed. */
  lemma LostExactly(s: Sending, mtu: nat, accepts: nat -> bool, flushes: bool, seals: nat -> nat -> Option<nat>)
    requires Ready(s)
    ensures SendAll(s, mtu, accepts, flushes, seals).1.lost != [] <==>
      exists k: nat, j: nat :: j > 0 && GivesUp(s, mtu, accepts, seals, k, j)
  {
    hide FlightFrom, GivesUp;
    LostFrom(s, mtu, accepts, flushes, seals, s, []);
  }

  // ---------- a gap ----------

  function Small(k: nat): Fragment
    requires k < 2
  {
    Fragment(1, 1, k, 0, [7])
  }

  /** Two messages of one byte, before the first key change, with `k` of them sent and `w` the counters. */
  function TwoMessages(k: nat, w: Writer): Sending {
    var flight := [Outgoing(false, 0, FragmentBytes(Small(0))), Outgoing(false, 0, FragmentBytes(Small(1)))];
    Sending(flight, Pos(k, 0), w, Cipher(0, 0), Cipher(0, 0))
  }

  lemma MessageOfSmall(k: nat)
    requires k < 2
    ensures MessageOf(FragmentBytes(Small(k))) == Some(Small(k)) && Piece(Small(k), 0, 1) == Small(k)
  {
    ParseRoundTrip(Small(k), []);
    assert FragmentBytes(Small(k)) + [] == FragmentBytes(Small(k));
  }

  lemma SmallRecord(k: nat, w: Writer, room: nat, verdict: Option<nat>)
    requires k < 2 && room > 100 && w.changes == 0 && w.next < 10 && w.last < TWO48
    ensures Ready(TwoMessages(k, w))
    ensures var (s', sealed, wire) := NextRecord(TwoMessages(k, w), room, verdict);
      if verdict.None? then s' == TwoMessages(k, w) && sealed == SealError
      else
        && s' == TwoMessages(k, SealOnce(w, false)) && sealed == SealSuccess
        && wire.typ == RT_HANDSHAKE && wire.payload == FragmentBytes(Small(k)) && wire.len < 50
  {
    hide MessageOf, FragmentBytes, Piece;
    MessageOfSmall(k);
    var size := |FragmentBytes(Small(k))|;
    assert size == 13;
  }

  function FirstOnly(): nat -> Option<nat> {
    j => if j == 0 then Some(0) else None
  }

  function Every(): nat -> Option<nat> {
    j => Some(0)
  }

  /** The packet is given up after its first record. */
  lemma FirstIsLost(w: Writer)
    requires w.changes == 0 && w.next == 0 && w.last == 0
    ensures Ready(TwoMessages(0, w))
    ensures var (s1, o) := SendAll(TwoMessages(0, w), MIN_MTU, _ => true, true, _ => FirstOnly());
      s1 == TwoMessages(1, SealOnce(w, false)) && o.result == FlightError && o.packets == [] && o.lost != []
  {
    hide NextRecord, Ready;
    var s, s1 := TwoMessages(0, w), TwoMessages(1, SealOnce(w, false));
    SmallRecord(0, w, MIN_MTU, FirstOnly()(0));
    var (_, _, wire) := NextRecord(s, MIN_MTU, FirstOnly()(0));
    SmallRecord(1, SealOnce(w, false), MIN_MTU - wire.len, FirstOnly()(1));
    assert PacketFrom(s1, MIN_MTU - wire.len, FirstOnly(), [wire]) == (s1, PacketError, [wire]);
    assert [] + [wire] == [wire];
    assert PacketFrom(s, MIN_MTU, FirstOnly(), []) == (s1, PacketError, [wire]);
  }

  lemma RestIsSent(w: Writer)
    requires w.changes == 0 && w.next < 10 && w.last < TWO48
    ensures Ready(TwoMessages(1, w))
    ensures var (s2, o) := SendAll(TwoMessages(1, w), MIN_MTU, _ => true, true, _ => Every());
      && s2.at == Pos(2, 0) && o.result == FlightSent
      && |o.packets| == 1 && |o.packets[0]| == 1 && o.packets == [[o.packets[0][0]]] && o.packets[0][0].payload == FragmentBytes(Small(1))
  {
    hide NextRecord, Ready, FragmentBytes;
    var s, s2 := TwoMessages(1, w), TwoMessages(1, SealOnce(w, false)).(at := Pos(2, 0));
    SmallRecord(1, w, MIN_MTU, Every()(0));
    var (_, _, wire) := NextRecord(s, MIN_MTU, Every()(0));
    assert [] + [wire] == [wire];
    NextIsReady(s, MIN_MTU, Every()(0));
    assert PacketFrom(s2, MIN_MTU - wire.len, Every(), [wire]) == (s2, Packed, [wire]);
    assert PacketFrom(s, MIN_MTU, Every(), []) == (s2, Packed, [wire]);
    PacketMoves(s, MIN_MTU, Every());
    assert [] + [[wire]] == [[wire]];
    assert FlightFrom(s2, MIN_MTU, _ => true, true, _ => Every(), [[wire]]) == (s2, Outcome(FlightSent, [[wire]], []));
  }

  /** A failed call and the next one, which completes the flight: nothing of the first message has been written. */
  lemma LostLeavesGap()
    ensures var s := TwoMessages(0, Writer(0, 0, 0, false, []));
      && Ready(s)
      && var (s1, o1) := SendAll(s, MIN_MTU, _ => true, true, _ => FirstOnly());
      && var (s2, o2) := SendAll(s1, MIN_MTU, _ => true, true, _ => Every());
      && o1.result == FlightError && o2.result == FlightSent && s2.at == Pos(|s.flight|, 0)
      && Collected(Flat(o1.packets + o2.packets), NumberAt(s.flight, 0)) == [] && BodyAt(s.flight, 0) == [7]
  {
    hide SendAll, FragmentBytes, MessageOf, ParseFragment, Flat, Collected, PacketFrom, FlightFrom, Ready, SealOnce, BodyAt, NumberAt, TwoMessages;
    var w := Writer(0, 0, 0, false, []);
    FirstOfTwo(w);
    FirstIsLost(w);
    RestIsSent(SealOnce(w, false));
    var s1 := TwoMessages(1, SealOnce(w, false));
    var packets := SendAll(s1, MIN_MTU, _ => true, true, _ => Every()).1.packets;
    assert [] + packets == packets;
    OnlySecond(packets[0][0]);
  }

  lemma FirstOfTwo(w: Writer)
    requires w == Writer(0, 0, 0, false, [])
    ensures var flight := TwoMessages(0, w).flight; |flight| == 2 && NumberAt(flight, 0) == 0 && BodyAt(flight, 0) == [7]
    ensures var w' := SealOnce(w, false); w'.changes == 0 && w'.next == 1 && w'.last == 0
  {
    hide FragmentBytes, MessageOf;
    MessageOfSmall(0);
  }

  lemma OnlySecond(wire: Wire)
    requires wire.payload == FragmentBytes(Small(1))
    ensures Flat([[wire]]) == [wire] && Collected([wire], 0) == []
  {
    ParseRoundTrip(Small(1), []);
    assert wire.payload + [] == wire.payload;
    var one := [[wire]];
    assert one[..0] == [] && Flat([]) == [] && [wire][..0] == [];
  }
}
