/**
 Sender, network and receiver together. The network may lose, repeat and
 reorder what was sent; the sender may cut its messages anew at any time. What
 the receiver hands out is always a prefix of what was sent.
 */
module DtlsEndToEnd {
  import opened Common
  import opened DtlsFormat
  import opened DtlsReassembly
  import opened DtlsReceive
  import opened DtlsSend
  import opened DtlsSender

  /** A fragment of message k, at any offset and of any length. */
  ghost predicate IsPiece(sent: seq<Message>, k: nat, off: nat, n: nat, payload: seq<byte>) {
    && k < |sent| && |sent[k].body| < 0x100_0000 && off + n <= |sent[k].body|
    && payload == FragmentBytes(Piece(FragmentOf(sent[k], k), off, n))
  }

  ghost predicate Authentic(sent: seq<Message>, payload: seq<byte>) {
    exists k: nat, off: nat, n: nat :: IsPiece(sent, k, off, n, payload)
  }

  /** Every handshake record the sender puts out, in whatever packets, is authentic. */
  lemma {:induction false} SenderIsAuthentic(flight: seq<Outgoing>, sent: seq<Message>, p: Pos, ws: seq<Wire>, i: nat)
    requires MadeFrom(flight, sent) && InFlight(flight, p) && After(flight, p, ws).Some?
    requires i < |ws| && ws[i].typ == RT_HANDSHAKE
    ensures Authentic(sent, ws[i].payload)
    decreases |ws|
  {
    var ws', w := ws[..|ws| - 1], ws[|ws| - 1];
    if i < |ws| - 1 {
      SenderIsAuthentic(flight, sent, p, ws', i);
    } else {
      var q := After(flight, p, ws').value;
      OneIsAuthentic(flight, sent, q, w);
    }
  }

  lemma OneIsAuthentic(flight: seq<Outgoing>, sent: seq<Message>, q: Pos, w: Wire)
    requires MadeFrom(flight, sent) && InFlight(flight, q) && Advance(flight, q, w).Some? && w.typ == RT_HANDSHAKE
    ensures Authentic(sent, w.payload)
  {
    hide FragmentBytes, MessageOf, Handshakes;
    assert !flight[q.written].isCcs;
    assert IsMessage(flight, q.written, sent);
    var k := |sent| - Handshakes(flight[q.written..]);
    assert IsPiece(sent, k, q.offset, |w.payload| - HEADER_LENGTH, w.payload);
  }

  // ---------- the system ----------

  datatype World = World(sent: seq<Message>, net: set<seq<byte>>, recv: Recv, delivered: seq<Message>)

  datatype Step =
    | Add(m: Message)
    | Emit(payload: seq<byte>)
    | Receive(payload: seq<byte>, maxLen: nat)
    | ReceiveOther(typ: nat, payload: seq<byte>)  // any record but a handshake one: ChangeCipherSpec, application data
    | AwaitChangeCipherSpec(typ: nat, payload: seq<byte>, maxLen: nat)
    | Peek
    | Take
    | ChangeReadKeys

  ghost predicate Allowed(w: World, s: Step) {
    && RingOk(w.recv)
    && match s
       case Add(m) => |m.body| < 0x100_0000
       case Emit(payload) => Authentic(w.sent, payload)
       case Receive(payload, _) => payload in w.net
       case ReceiveOther(typ, _) => typ != RT_HANDSHAKE
       case AwaitChangeCipherSpec(typ, payload, _) => typ != RT_HANDSHAKE || payload in w.net
       case Peek => GetMessage(w.recv).Some?
       case Take => w.recv.hasMessage && GetMessage(w.recv).Some?
       case ChangeReadKeys => SetReadState(w.recv).Some?
  }

  ghost function Do(w: World, s: Step): World
    requires Allowed(w, s)
  {
    match s
    case Add(m) => w.(sent := w.sent + [m])
    case Emit(payload) => w.(net := w.net + {payload})
    case Receive(payload, maxLen) => w.(recv := OpenHandshake(w.recv, RT_HANDSHAKE, payload, maxLen).0)
    case ReceiveOther(typ, payload) => w.(recv := OpenHandshake(w.recv, typ, payload, 0).0)
    case AwaitChangeCipherSpec(typ, payload, maxLen) => w.(recv := OpenChangeCipherSpec(w.recv, typ, payload, maxLen).0)
    case Peek => w.(recv := w.recv.(hasMessage := true))
    case Take => w.(recv := NextMessage(w.recv), delivered := w.delivered + [GetMessage(w.recv).value])
    case ChangeReadKeys => w.(recv := SetReadState(w.recv).value)
  }

  ghost predicate Reaches(w: World, steps: seq<Step>, w': World)
    decreases |steps|
  {
    if steps == [] then w' == w
    else Allowed(w, steps[0]) && Reaches(Do(w, steps[0]), steps[1..], w')
  }

  function Start(): World {
    World([], {}, Initial(), [])
  }

  // ---------- the invariant ----------

  ghost predicate SlotFrom(sent: seq<Message>, s: Slot) {
    s.Partial? ==>
      && s.number < |sent| && s.typ == sent[s.number].typ && s.len == |sent[s.number].body|
      && forall j | j in s.got.Keys :: j < s.len && s.got[j] == sent[s.number].body[j]
  }

  ghost predicate RecvFrom(sent: seq<Message>, r: Recv) {
    RingOk(r) && forall i | 0 <= i < MAX_FLIGHT :: SlotFrom(sent, r.slots[i])
  }

  ghost predicate Inv(w: World) {
    && |w.sent| < 0x1_0000
    && (forall p | p in w.net :: Authentic(w.sent, p))
    && RecvFrom(w.sent, w.recv)
    && w.delivered <= w.sent && w.recv.readSeq == |w.delivered|
  }

  lemma OpenKeeps(sent: seq<Message>, r: Recv, k: nat, off: nat, n: nat, payload: seq<byte>, maxLen: nat)
    requires |sent| < 0x1_0000 && RecvFrom(sent, r) && IsPiece(sent, k, off, n, payload)
    ensures var r' := OpenHandshake(r, RT_HANDSHAKE, payload, maxLen).0;
      RecvFrom(sent, r') && r'.readSeq == r.readSeq
  {
    var f := Piece(FragmentOf(sent[k], k), off, n);
    OneFragment(r, f, maxLen);
    PieceKeeps(sent, r, k, off, n, maxLen);
  }

  /** A record with one fragment in it does what the fragment does. */
  lemma OneFragment(r: Recv, f: Fragment, maxLen: nat)
    requires RingOk(r) && Fits(f)
    ensures OpenFragments(r, FragmentBytes(f), maxLen) == OpenFragment(r, f, maxLen)
  {
    hide OpenFragment, ParseFragment;
    ParseRoundTrip(f, []);
    assert FragmentBytes(f) + [] == FragmentBytes(f);
    var (r', ok) := OpenFragment(r, f, maxLen);
    assert OpenFragments(r', [], maxLen) == (r', true);
  }

  lemma PieceKeeps(sent: seq<Message>, r: Recv, k: nat, off: nat, n: nat, maxLen: nat)
    requires |sent| < 0x1_0000 && RecvFrom(sent, r)
    requires k < |sent| && |sent[k].body| < 0x100_0000 && off + n <= |sent[k].body|
    ensures var r' := OpenFragment(r, Piece(FragmentOf(sent[k], k), off, n), maxLen).0;
      RecvFrom(sent, r') && r'.readSeq == r.readSeq
  {
    var f := Piece(FragmentOf(sent[k], k), off, n);
    if InWindow(r, f) && Compatible(r, f) && OpenFragment(r, f, maxLen) == (Filled(Entered(r, f), f), true) {
      var i := k % MAX_FLIGHT;
      var r1 := Entered(r, f);
      assert SlotOk(r1, i);
      assert SlotFrom(sent, r1.slots[i]) by {
        assert SlotFrom(sent, r.slots[i]);
      }
      assert SlotFrom(sent, Copied(r1.slots[i], f));
    }
  }

  lemma MoreSent(sent: seq<Message>, m: Message, p: seq<byte>)
    requires Authentic(sent, p)
    ensures Authentic(sent + [m], p)
  {
    var k: nat, off: nat, n: nat :| IsPiece(sent, k, off, n, p);
    assert IsPiece(sent + [m], k, off, n, p);
  }

  lemma TakeKeeps(w: World)
    requires Inv(w) && Allowed(w, Take)
    ensures Inv(Do(w, Take))
  {
    var r, d := w.recv, |w.delivered|;
    var i := r.readSeq % MAX_FLIGHT;
    var s := r.slots[i];
    assert SlotOk(r, i) && SlotFrom(w.sent, s);
    assert s.number == r.readSeq;
    assert Assembled(s) == w.sent[d].body by {
      forall j | 0 <= j < s.len ensures Assembled(s)[j] == w.sent[d].body[j] { assert j in Upto(s.len); }
    }
    assert GetMessage(r).value == w.sent[d];
    assert forall j | 0 <= j < MAX_FLIGHT :: SlotFrom(w.sent, r.slots[j]) && SlotFrom(w.sent, NextMessage(r).slots[j]);
  }

  lemma StepKeeps(w: World, s: Step)
    requires Inv(w) && Allowed(w, s) && |Do(w, s).sent| < 0x1_0000
    ensures Inv(Do(w, s))
  {
    var w' := Do(w, s);
    match s
    case Add(m) =>
      forall p | p in w.net ensures Authentic(w'.sent, p) { MoreSent(w.sent, m, p); }
      forall i | 0 <= i < MAX_FLIGHT ensures SlotFrom(w'.sent, w.recv.slots[i]) { assert SlotFrom(w.sent, w.recv.slots[i]); }
    case Receive(payload, maxLen) =>
      var k: nat, off: nat, n: nat :| IsPiece(w.sent, k, off, n, payload);
      OpenKeeps(w.sent, w.recv, k, off, n, payload, maxLen);
    case AwaitChangeCipherSpec(typ, payload, maxLen) => AwaitKeeps(w, typ, payload, maxLen);
    case Take => TakeKeeps(w);
    case Emit(_) =>
    case ReceiveOther(_, _) =>
      assert forall j | 0 <= j < MAX_FLIGHT :: SlotFrom(w.sent, w.recv.slots[j]) && w'.recv.slots[j] == w.recv.slots[j];
    case Peek =>
      FlagKeeps(w.recv);
      assert forall j | 0 <= j < MAX_FLIGHT :: SlotFrom(w.sent, w.recv.slots[j]) && w'.recv.slots[j] == w.recv.slots[j];
    case ChangeReadKeys =>
      assert forall j | 0 <= j < MAX_FLIGHT :: SlotFrom(w.sent, w.recv.slots[j]) && w'.recv.slots[j] == w.recv.slots[j];
  }

  lemma AwaitKeeps(w: World, typ: nat, payload: seq<byte>, maxLen: nat)
    requires Inv(w) && Allowed(w, AwaitChangeCipherSpec(typ, payload, maxLen))
    ensures Inv(Do(w, AwaitChangeCipherSpec(typ, payload, maxLen)))
  {
    hide OpenFragments;
    var r := w.recv;
    if !r.hasChangeCipherSpec {
      var r1 := OpenHandshake(r, typ, payload, maxLen).0;
      if typ == RT_HANDSHAKE {
        var k: nat, off: nat, n: nat :| IsPiece(w.sent, k, off, n, payload);
        OpenKeeps(w.sent, r, k, off, n, payload, maxLen);
      }
      assert forall j | 0 <= j < MAX_FLIGHT :: typ == RT_HANDSHAKE || (SlotFrom(w.sent, r.slots[j]) && r1.slots[j] == r.slots[j]);
      r := r1;
    }
    UnflaggedKeeps(w.sent, r);
  }

  lemma UnflaggedKeeps(sent: seq<Message>, r: Recv)
    requires RecvFrom(sent, r)
    ensures RecvFrom(sent, Unflagged(r)) && Unflagged(r).readSeq == r.readSeq
  {
    assert forall j | 0 <= j < MAX_FLIGHT :: SlotFrom(sent, r.slots[j]) && Unflagged(r).slots[j] == r.slots[j];
  }

  lemma FlagKeeps(r: Recv)
    requires RingOk(r)
    ensures RingOk(r.(hasMessage := true))
  {
    var r' := r.(hasMessage := true);
    assert forall j | 0 <= j < MAX_FLIGHT && r'.slots[j].Partial? :: SlotOk(r, j) && SlotOk(r', j);
  }

  lemma {:induction false} SentGrows(w: World, steps: seq<Step>, w': World)
    requires Reaches(w, steps, w')
    ensures |w.sent| <= |w'.sent|
    decreases |steps|
  {
    if steps != [] { SentGrows(Do(w, steps[0]), steps[1..], w'); }
  }

  lemma {:induction false} RunKeeps(w: World, steps: seq<Step>, w': World)
    requires Inv(w) && Reaches(w, steps, w') && |w'.sent| < 0x1_0000
    ensures Inv(w')
    decreases |steps|
  {
    if steps != [] {
      SentGrows(Do(w, steps[0]), steps[1..], w');
      StepKeeps(w, steps[0]);
      RunKeeps(Do(w, steps[0]), steps[1..], w');
    }
  }

  // ---------- past 2^16 messages ----------

  /** Empty messages; the first one after the numbers wrap differs from all others. */
  function Numbered(k: nat): Message {
    Message(if k == 0x1_0000 then 1 else 0, [])
  }

  function Sent(n: nat): seq<Message> {
    seq(n, k requires 0 <= k => Numbered(k))
  }

  function PayloadOf(k: nat): seq<byte> {
    FragmentBytes(FragmentOf(Numbered(k), k))
  }

  function NetOf(k: nat): set<seq<byte>> {
    if k == 0 then {} else NetOf(k - 1) + {PayloadOf(k - 1)}
  }

  /** `n` messages sent and the first `k` of them handed out. */
  function Handed(n: nat, k: nat): World
  {
    World(Sent(n), NetOf(k), Waiting(k % 0x1_0000, false), seq(k, _ => Message(0, [])))
  }

  ghost predicate Reachable(w: World) {
    exists steps :: Reaches(Start(), steps, w)
  }

  lemma {:induction false} ReachesMore(w0: World, steps: seq<Step>, w: World, s: Step)
    requires Reaches(w0, steps, w) && Allowed(w, s)
    ensures Reaches(w0, steps + [s], Do(w, s))
    decreases |steps|
  {
    if steps == [] {
      assert [s][1..] == [] && Reaches(Do(w, s), [], Do(w, s));
      assert steps + [s] == [s];
    } else {
      ReachesMore(Do(w0, steps[0]), steps[1..], w, s);
      assert (steps + [s])[1..] == steps[1..] + [s];
    }
  }

  lemma ReachableMore(w: World, s: Step)
    requires Reachable(w) && Allowed(w, s)
    ensures Reachable(Do(w, s))
  {
    var steps :| Reaches(Start(), steps, w);
    ReachesMore(Start(), steps, w, s);
  }

  lemma {:induction false} ReachSent(n: nat)
    ensures Reachable(Handed(n, 0))
  {
    if n == 0 {
      assert Reaches(Start(), [], Start()) && Handed(0, 0) == Start();
    } else {
      ReachSent(n - 1);
      ReachableMore(Handed(n - 1, 0), Add(Numbered(n - 1)));
      assert Sent(n) == Sent(n - 1) + [Numbered(n - 1)];
    }
  }

  /** With nothing come of the next message, before the key change or after it. */
  function Waiting(q: nat, encrypted: bool): Recv {
    Initial().(readSeq := q, epoch := if encrypted then 1 else 0, nullCipher := !encrypted)
  }

  lemma EmptyIsWhole(q: nat)
    ensures Whole(Partial(0, q, 0, map[])) && Assembled(Partial(0, q, 0, map[])) == []
  {
    assert Upto(0) == {};
  }

  lemma OpenEmpty(q: nat, encrypted: bool, f: Fragment)
    requires q < 0x1_0000 && f == Fragment(0, 0, q, 0, [])
    ensures RingOk(Waiting(q, encrypted))
    ensures OpenFragment(Waiting(q, encrypted), f, 0) ==
      (Waiting(q, encrypted).(slots := Waiting(q, encrypted).slots[q % MAX_FLIGHT := Partial(0, q, 0, map[])]), true)
  {
    EmptyIsWhole(q);
    var r := Waiting(q, encrypted);
    var r1 := Entered(r, f);
    assert Filled(r1, f) == r1;
  }

  /** An empty message arrives, is looked at and is taken. */
  lemma TakeEmpty(w: World, q: nat, encrypted: bool, f: Fragment)
    requires q < 0x1_0000 && Reachable(w) && w.recv == Waiting(q, encrypted)
    requires f == Fragment(0, 0, q, 0, []) && FragmentBytes(f) in w.net
    ensures Reachable(w.(recv := Waiting((q + 1) % 0x1_0000, encrypted), delivered := w.delivered + [Message(0, [])]))
  {
    hide FragmentBytes, OpenFragment;
    var r := w.recv;
    OpenEmpty(q, encrypted, f);
    EmptyIsWhole(q);
    OneFragment(r, f, 0);
    var s1 := Receive(FragmentBytes(f), 0);
    var w1 := Do(w, s1);
    ReachableMore(w, s1);
    ReachableMore(w1, Peek);
    var w2 := Do(w1, Peek);
    FlagKeeps(w1.recv);
    ReachableMore(w2, Take);
    assert w1.recv.slots[q % MAX_FLIGHT := Empty] == r.slots;
  }

  lemma {:induction false} ReachHanded(n: nat, k: nat)
    requires k <= n && k <= 0x1_0000
    ensures Reachable(Handed(n, k))
    decreases k
  {
    if k == 0 {
      ReachSent(n);
    } else {
      ReachHanded(n, k - 1);
      var w := Handed(n, k - 1);
      var f := FragmentOf(Numbered(k - 1), k - 1);
      assert IsPiece(w.sent, k - 1, 0, 0, PayloadOf(k - 1));
      ReachableMore(w, Emit(PayloadOf(k - 1)));
      TakeEmpty(Do(w, Emit(PayloadOf(k - 1))), k - 1, false, f);
      assert Handed(n, k).delivered == w.delivered + [Message(0, [])];
    }
  }

  lemma {:induction false} FirstInNet(k: nat)
    requires k > 0
    ensures PayloadOf(0) in NetOf(k)
  {
    if k > 1 { FirstInNet(k - 1); }
  }

  /** After 2^16 messages the first one is taken for the next one when the network repeats it. */
  lemma WrapDelivers(n: nat) returns (w: World)
    requires n >= 0x1_0000
    ensures Reachable(w) && |w.sent| == n && !(w.delivered <= w.sent)
  {
    var k: nat := 0x1_0000;
    ReachHanded(n, k);
    var h := Handed(n, k);
    FirstInNet(k);
    TakeEmpty(h, 0, false, FragmentOf(Numbered(0), 0));
    w := h.(recv := Waiting(1, false), delivered := h.delivered + [Message(0, [])]);
    assert w.delivered[k] == Message(0, []);
  }

  /**
   In every run over the network, the messages handed out are a prefix of the
   messages sent, byte for byte and in order, exactly when the 16-bit message
   numbers have not wrapped.
   */
  lemma DeliveredIsPrefix(n: nat)
    ensures (forall w | Reachable(w) && |w.sent| == n :: w.delivered <= w.sent) <==> n < 0x1_0000
  {
    if n < 0x1_0000 {
      forall w | Reachable(w) && |w.sent| == n ensures w.delivered <= w.sent {
        var steps :| Reaches(Start(), steps, w);
        RunKeeps(Start(), steps, w);
      }
    } else {
      var w := WrapDelivers(n);
    }
  }
}
