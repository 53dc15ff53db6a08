/**
 Incoming DTLS handshake messages: a ring of seven reassembly slots indexed by
 message number modulo seven, filled by fragments in any order and emptied in
 order. The functions give the meaning of each step on values; the class does
 the work in place and is proved equal to them.
 */
module DtlsReceive {
  import opened Common
  import opened DtlsFormat
  import opened DtlsReassembly

  const MAX_FLIGHT: nat := 7

  const RT_CHANGE_CIPHER_SPEC: byte := 20
  const RT_HANDSHAKE: byte := 22
  const RT_APPLICATION_DATA: byte := 23

  datatype Opened = Success | Discard | Error

  datatype Slot = Empty | Partial(typ: byte, number: nat, len: nat, got: map<nat, byte>)

  datatype Message = Message(typ: byte, body: seq<byte>)

  datatype Recv = Recv(
    readSeq: nat,
    slots: seq<Slot>,
    hasMessage: bool,
    epoch: nat,
    nullCipher: bool,
    hasChangeCipherSpec: bool
  )

  ghost predicate Whole(s: Slot) {
    s.Partial? && s.got.Keys == Upto(s.len)
  }

  /** Slot i only holds a message number in [readSeq, readSeq + 7) that is i modulo 7, never more bytes than announced. */
  ghost predicate RingOk(r: Recv) {
    && |r.slots| == MAX_FLIGHT && r.readSeq < 0x1_0000 && r.epoch < 0x1_0000
    && forall i | 0 <= i < MAX_FLIGHT && r.slots[i].Partial? :: SlotOk(r, i)
  }

  ghost predicate SlotOk(r: Recv, i: nat)
    requires i < |r.slots| && r.slots[i].Partial?
  {
    var s := r.slots[i];
    s.number % MAX_FLIGHT == i && r.readSeq <= s.number < r.readSeq + MAX_FLIGHT && s.number < 0x1_0000
    && s.got.Keys <= Upto(s.len)
  }

  function Initial(): Recv {
    Recv(0, seq(MAX_FLIGHT, _ => Empty), false, 0, true, false)
  }

  // ---------- the steps on values ----------

  predicate InWindow(r: Recv, f: Fragment) {
    r.readSeq <= f.number < r.readSeq + MAX_FLIGHT
  }

  predicate Compatible(r: Recv, f: Fragment)
    requires |r.slots| == MAX_FLIGHT
  {
    var s := r.slots[f.number % MAX_FLIGHT];
    s.Partial? ==> s.typ == f.typ && s.len == f.msgLen
  }

  /** dtls1_get_incoming_message when it succeeds: the first fragment of a message opens its slot. */
  ghost function Entered(r: Recv, f: Fragment): (r': Recv)
    requires RingOk(r) && Fits(f) && InWindow(r, f)
    ensures RingOk(r')
  {
    var i := f.number % MAX_FLIGHT;
    if r.slots[i].Partial? then r
    else
      var r' := r.(slots := r.slots[i := Partial(f.typ, f.number, f.msgLen, map[])]);
      assert forall j | 0 <= j < MAX_FLIGHT && r'.slots[j].Partial? && j != i :: SlotOk(r, j) && SlotOk(r', j);
      r'
  }

  /** A whole message takes nothing more. */
  ghost function Copied(s: Slot, f: Fragment): Slot
    requires s.Partial?
  {
    if Whole(s) then s else s.(got := Overlay(s.got, f.off, f.body))
  }

  /** The copy of a fragment into its slot. */
  ghost function Filled(r: Recv, f: Fragment): (r': Recv)
    requires RingOk(r) && r.slots[f.number % MAX_FLIGHT].Partial?
    requires f.off + |f.body| <= r.slots[f.number % MAX_FLIGHT].len
    ensures RingOk(r')
  {
    var i := f.number % MAX_FLIGHT;
    var r' := r.(slots := r.slots[i := Copied(r.slots[i], f)]);
    assert SlotOk(r, i);
    assert forall j | 0 <= j < MAX_FLIGHT && r'.slots[j].Partial? && j != i :: SlotOk(r, j) && SlotOk(r', j);
    r'
  }

  /** One turn of the loop of dtls1_open_handshake; false is an error return. */
  ghost function OpenFragment(r: Recv, f: Fragment, maxLen: nat): (out: (Recv, bool))
    requires RingOk(r) && Fits(f)
    ensures RingOk(out.0)
  {
    if f.off > f.msgLen || f.off + |f.body| > f.msgLen || f.msgLen > maxLen then (r, false)
    else if r.epoch == 1 && f.number != r.readSeq then (r, false)
    else if f.number < r.readSeq || f.number > r.readSeq + MAX_FLIGHT then (r, true)
    else if !InWindow(r, f) || !Compatible(r, f) then (r, false)
    else
      (Filled(Entered(r, f), f), true)
  }

  ghost function OpenFragments(r: Recv, bs: seq<byte>, maxLen: nat): (out: (Recv, bool))
    requires RingOk(r)
    ensures RingOk(out.0)
    decreases |bs|
  {
    if bs == [] then (r, true)
    else
      match ParseFragment(bs)
      case Fail => (r, false)
      case Got(f, rest) =>
        var (r', ok) := OpenFragment(r, f, maxLen);
        if ok then OpenFragments(r', rest, maxLen) else (r', false)
  }

  /** dtls1_open_handshake on a record that the record layer has opened. */
  ghost function OpenHandshake(r: Recv, typ: nat, payload: seq<byte>, maxLen: nat): (out: (Recv, Opened))
    requires RingOk(r)
    ensures RingOk(out.0)
  {
    if typ == RT_APPLICATION_DATA then (r, if r.nullCipher then Error else Discard)
    else if typ == RT_CHANGE_CIPHER_SPEC then
      if !r.nullCipher || payload != [1] then (r, Error)
      else
        var r' := r.(hasChangeCipherSpec := true);
        assert forall j | 0 <= j < MAX_FLIGHT && r'.slots[j].Partial? :: SlotOk(r, j) && SlotOk(r', j);
        (r', Success)
    else if typ == RT_HANDSHAKE then
      var (r', ok) := OpenFragments(r, payload, maxLen);
      (r', if ok then Success else Error)
    else (r, Error)
  }

  /** dtls1_open_change_cipher_spec: a record is read only when no ChangeCipherSpec waits, and may be another than the one awaited. */
  ghost function OpenChangeCipherSpec(r: Recv, typ: nat, payload: seq<byte>, maxLen: nat): (out: (Recv, Opened))
    requires RingOk(r)
    ensures RingOk(out.0)
  {
    var (r', outcome) := if r.hasChangeCipherSpec then (r, Success) else OpenHandshake(r, typ, payload, maxLen);
    if outcome != Success then (r', outcome)
    else if r'.hasChangeCipherSpec then (Unflagged(r'), Success)
    else (r', Discard)
  }

  ghost function Unflagged(r: Recv): (r': Recv)
    requires RingOk(r)
    ensures RingOk(r')
  {
    var r' := r.(hasChangeCipherSpec := false);
    assert forall j | 0 <= j < MAX_FLIGHT && r'.slots[j].Partial? :: SlotOk(r, j) && SlotOk(r', j);
    r'
  }

  ghost predicate CurrentComplete(r: Recv)
    requires |r.slots| == MAX_FLIGHT
  {
    Whole(r.slots[r.readSeq % MAX_FLIGHT])
  }

  ghost function Assembled(s: Slot): (body: seq<byte>)
    requires Whole(s)
    ensures |body| == s.len
  {
    seq(s.len, i requires 0 <= i < s.len => assert i in Upto(s.len); s.got[i])
  }

  /** dtls1_get_message. */
  ghost function GetMessage(r: Recv): (out: Option<Message>)
    requires RingOk(r)
  {
    if CurrentComplete(r) then
      var s := r.slots[r.readSeq % MAX_FLIGHT];
      Some(Message(s.typ, Assembled(s)))
    else None
  }

  /** dtls1_next_message; the message number is 16 bits wide. */
  ghost function NextMessage(r: Recv): (r': Recv)
    requires RingOk(r)
    ensures RingOk(r')
  {
    var i := r.readSeq % MAX_FLIGHT;
    var r' := r.(slots := r.slots[i := Empty], readSeq := (r.readSeq + 1) % 0x1_0000, hasMessage := false);
    assert forall j | 0 <= j < MAX_FLIGHT && r'.slots[j].Partial? :: SlotOk(r, j) && SlotOk(r', j) by {
      forall j | 0 <= j < MAX_FLIGHT && r'.slots[j].Partial? ensures SlotOk(r', j) {
        assert SlotOk(r, j) && r.slots[j].number != r.readSeq;
      }
    }
    r'
  }

  /** dtls_has_unprocessed_handshake_data. */
  ghost predicate Unprocessed(r: Recv)
    requires |r.slots| == MAX_FLIGHT
  {
    || r.hasChangeCipherSpec
    || exists i :: 0 <= i < MAX_FLIGHT && !(r.hasMessage && i == r.readSeq % MAX_FLIGHT) && r.slots[i] != Empty
  }

  /** dtls1_set_read_state; None is the refusal to change keys over leftover data. */
  ghost function SetReadState(r: Recv): (out: Option<Recv>)
    requires RingOk(r)
    ensures out.Some? ==> RingOk(out.value)
  {
    if Unprocessed(r) then None
    else
      var r' := r.(epoch := (r.epoch + 1) % 0x1_0000, nullCipher := false);
      assert forall j | 0 <= j < MAX_FLIGHT && r'.slots[j].Partial? :: SlotOk(r, j) && SlotOk(r', j);
      Some(r')
  }
}
