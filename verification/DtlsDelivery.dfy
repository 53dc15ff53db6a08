/**
 When a message can be handed out, and which fragments the receiver takes: over
 all runs, in terms of what has been sent and what has come.
 */
module DtlsDelivery {
  import opened Common
  import opened DtlsFormat
  import opened DtlsReassembly
  import opened DtlsReceive
  import opened DtlsSend
  import opened DtlsSender
  import opened DtlsEndToEnd
  import opened DtlsRecords

  // ---------- when a message can be handed out ----------

  datatype Range = Range(off: nat, len: nat)

  predicate Covers(ps: seq<Range>, j: nat) {
    exists i :: 0 <= i < |ps| && ps[i].off <= j < ps[i].off + ps[i].len
  }

  predicate Inside(ps: seq<Range>, len: nat) {
    forall i | 0 <= i < |ps| :: ps[i].off + ps[i].len <= len
  }

  /** The next message arrives in the given pieces, in the order given, overlapping or not. */
  ghost function OpenPieces(r: Recv, m: Message, ps: seq<Range>, maxLen: nat): (r': Recv)
    requires RingOk(r) && |m.body| < 0x100_0000 && Inside(ps, |m.body|)
    ensures RingOk(r') && r'.readSeq == r.readSeq
    decreases |ps|
  {
    if ps == [] then r
    else
      var r1 := OpenPieces(r, m, ps[..|ps| - 1], maxLen);
      var p := ps[|ps| - 1];
      var f := Piece(FragmentOf(m, r.readSeq), p.off, p.len);
      OpenKeepsReadSeq(r1, f, maxLen);
      OpenFragment(r1, f, maxLen).0
  }

  lemma OpenKeepsReadSeq(r: Recv, f: Fragment, maxLen: nat)
    requires RingOk(r) && Fits(f)
    ensures OpenFragment(r, f, maxLen).0.readSeq == r.readSeq
  {
  }

  ghost predicate Assembling(r: Recv, m: Message, ps: seq<Range>)
    requires |r.slots| == MAX_FLIGHT
  {
    var s := r.slots[r.readSeq % MAX_FLIGHT];
    && s.Partial? && s.number == r.readSeq && s.typ == m.typ && s.len == |m.body|
    && (forall j: nat :: j in s.got.Keys <==> Covers(ps, j))
    && (forall j | j in s.got.Keys :: j < |m.body| && s.got[j] == m.body[j])
  }

  lemma {:induction false} PiecesAssemble(r: Recv, m: Message, ps: seq<Range>, maxLen: nat)
    requires RingOk(r) && r.slots[r.readSeq % MAX_FLIGHT] == Empty
    requires |m.body| < 0x100_0000 && |m.body| <= maxLen && Inside(ps, |m.body|) && ps != []
    ensures Assembling(OpenPieces(r, m, ps, maxLen), m, ps)
    decreases |ps|
  {
    var ps' := ps[..|ps| - 1];
    var r1 := OpenPieces(r, m, ps', maxLen);
    var p := ps[|ps| - 1];
    if ps' != [] { PiecesAssemble(r, m, ps', maxLen); }
    forall j: nat ensures Covers(ps, j) <==> Covers(ps', j) || p.off <= j < p.off + p.len {
      if Covers(ps', j) {
        var i :| 0 <= i < |ps'| && ps'[i].off <= j < ps'[i].off + ps'[i].len;
        assert ps[i] == ps'[i];
      }
      if p.off <= j < p.off + p.len { assert ps[|ps| - 1].off <= j; }
    }
    OnePiece(r1, m, p, maxLen, ps', ps);
  }

  lemma OnePiece(r: Recv, m: Message, p: Range, maxLen: nat, ps: seq<Range>, ps': seq<Range>)
    requires RingOk(r) && |m.body| < 0x100_0000 && |m.body| <= maxLen && p.off + p.len <= |m.body|
    requires if ps == [] then r.slots[r.readSeq % MAX_FLIGHT] == Empty else Assembling(r, m, ps)
    requires forall j: nat :: Covers(ps', j) <==> Covers(ps, j) || p.off <= j < p.off + p.len
    ensures Assembling(OpenFragment(r, Piece(FragmentOf(m, r.readSeq), p.off, p.len), maxLen).0, m, ps')
  {
    hide Covers;
    var f := Piece(FragmentOf(m, r.readSeq), p.off, p.len);
    var i := r.readSeq % MAX_FLIGHT;
    assert f.number == r.readSeq;
    var r1 := Entered(r, f);
    var s := r1.slots[i];
    assert ps == [] ==> forall j: nat :: !Covers(ps, j) by { NoCover(); }
    assert OpenFragment(r, f, maxLen) == (Filled(r1, f), true);
    assert Filled(r1, f).slots[i] == Copied(s, f);
    if Whole(s) {
      forall j: nat ensures j in s.got.Keys <==> Covers(ps', j) { assert j in Upto(s.len) <==> j < s.len; }
    }
  }

  lemma NoCover()
    ensures forall j: nat :: !Covers([], j)
  {
  }

  /** In whatever order and however cut its pieces come, a message can be taken exactly when every byte has come. */
  lemma AvailableExactly(r: Recv, m: Message, ps: seq<Range>, maxLen: nat)
    requires RingOk(r) && r.slots[r.readSeq % MAX_FLIGHT] == Empty
    requires |m.body| < 0x100_0000 && |m.body| <= maxLen && Inside(ps, |m.body|) && ps != []
    ensures var out := GetMessage(OpenPieces(r, m, ps, maxLen));
      && (out.Some? <==> forall j: nat | j < |m.body| :: Covers(ps, j))
      && (out.Some? ==> out.value == m)
  {
    hide OpenPieces, Covers;
    PiecesAssemble(r, m, ps, maxLen);
    var r' := OpenPieces(r, m, ps, maxLen);
    var s := r'.slots[r'.readSeq % MAX_FLIGHT];
    if forall j: nat | j < |m.body| :: Covers(ps, j) {
      assert s.got.Keys == Upto(s.len);
    }
    if Whole(s) {
      forall j: nat | j < |m.body| ensures Covers(ps, j) { assert j in Upto(s.len); }
      assert Assembled(s) == m.body;
    }
  }

  // ---------- in every run ----------

  /** The fragment is one whose bytes are taken, unless its message is whole already. */
  ghost predicate Takes(r: Recv, f: Fragment, maxLen: nat)
    requires RingOk(r)
  {
    && f.off + |f.body| <= f.msgLen <= maxLen && (r.epoch == 1 ==> f.number == r.readSeq)
    && InWindow(r, f) && Compatible(r, f)
  }

  /** The piece of message k that a handshake record brings, if it is taken. */
  ghost function PieceIn(r: Recv, payload: seq<byte>, maxLen: nat, k: nat): seq<Range>
    requires RingOk(r)
  {
    match ParseFragment(payload)
    case Fail => []
    case Got(f, _) => if f.number == k && Takes(r, f, maxLen) then [Range(f.off, |f.body|)] else []
  }

  ghost function PieceOfStep(r: Recv, s: Step, k: nat): seq<Range>
    requires RingOk(r)
  {
    match s
    case Receive(payload, maxLen) => PieceIn(r, payload, maxLen, k)
    case AwaitChangeCipherSpec(typ, payload, maxLen) =>
      if typ == RT_HANDSHAKE && !r.hasChangeCipherSpec then PieceIn(r, payload, maxLen, k) else []
    case _ => []
  }

  /** The pieces of message k that have come during the steps, in order. */
  ghost function Heard(w: World, steps: seq<Step>, w': World, k: nat): seq<Range>
    requires Reaches(w, steps, w')
    decreases |steps|
  {
    if steps == [] then [] else PieceOfStep(w.recv, steps[0], k) + Heard(Do(w, steps[0]), steps[1..], w', k)
  }

  /** The slot of message k holds exactly the bytes that the pieces cover. */
  ghost predicate Holds(r: Recv, k: nat, ps: seq<Range>)
    requires RingOk(r)
  {
    var s := r.slots[k % MAX_FLIGHT];
    if s.Partial? && s.number == k then ps != [] && forall j: nat :: j in s.got.Keys <==> Covers(ps, j)
    else ps == []
  }

  lemma CoversMore(ps: seq<Range>, p: Range)
    ensures forall j: nat :: Covers(ps + [p], j) <==> Covers(ps, j) || p.off <= j < p.off + p.len
  {
    forall j: nat ensures Covers(ps + [p], j) <==> Covers(ps, j) || p.off <= j < p.off + p.len {
      if Covers(ps, j) {
        var i :| 0 <= i < |ps| && ps[i].off <= j < ps[i].off + ps[i].len;
        assert (ps + [p])[i] == ps[i];
      }
      if p.off <= j < p.off + p.len { assert (ps + [p])[|ps|] == p; }
    }
  }

  /** A fragment that is not taken changes nothing. */
  lemma NotTaken(r: Recv, f: Fragment, maxLen: nat)
    requires RingOk(r) && Fits(f)
    ensures OpenFragment(r, f, maxLen).0 == if Takes(r, f, maxLen) then Filled(Entered(r, f), f) else r
  {
  }

  lemma OtherSlot(r: Recv, f: Fragment, k: nat, ps: seq<Range>)
    requires RingOk(r) && Fits(f) && InWindow(r, f) && Compatible(r, f) && f.off + |f.body| <= f.msgLen
    requires r.readSeq <= k && k != f.number && Holds(r, k, ps)
    ensures Holds(Filled(Entered(r, f), f), k, ps)
  {
    hide Covers;
    var i := f.number % MAX_FLIGHT;
    if r.slots[i].Partial? { assert SlotOk(r, i); }
    assert SlotOk(Entered(r, f), i);
  }

  lemma OwnSlot(r: Recv, f: Fragment, ps: seq<Range>)
    requires RingOk(r) && Fits(f) && InWindow(r, f) && Compatible(r, f) && f.off + |f.body| <= f.msgLen
    requires Holds(r, f.number, ps)
    ensures Holds(Filled(Entered(r, f), f), f.number, ps + [Range(f.off, |f.body|)])
  {
    hide Covers;
    var i := f.number % MAX_FLIGHT;
    var p := Range(f.off, |f.body|);
    if r.slots[i].Partial? { assert SlotOk(r, i); }
    CoversMore(ps, p);
    NoCover();
    var s := Entered(r, f).slots[i];
    if Whole(s) {
      forall j: nat | p.off <= j < p.off + p.len ensures j in s.got.Keys { assert j in Upto(s.len); }
    }
  }

  lemma FragmentHolds(r: Recv, f: Fragment, maxLen: nat, k: nat, ps: seq<Range>)
    requires RingOk(r) && Fits(f) && r.readSeq <= k && Holds(r, k, ps)
    ensures Holds(OpenFragment(r, f, maxLen).0, k,
              ps + if f.number == k && Takes(r, f, maxLen) then [Range(f.off, |f.body|)] else [])
  {
    NotTaken(r, f, maxLen);
    hide OpenFragment, Covers, Filled, Entered, Holds, RingOk;
    assert ps + [] == ps;
    if Takes(r, f, maxLen) {
      if f.number == k { OwnSlot(r, f, ps); } else { OtherSlot(r, f, k, ps); }
    }
  }

  lemma PayloadHolds(sent: seq<Message>, r: Recv, payload: seq<byte>, maxLen: nat, k: nat, ps: seq<Range>)
    requires |sent| < 0x1_0000 && RecvFrom(sent, r) && Authentic(sent, payload) && r.readSeq <= k && Holds(r, k, ps)
    ensures Holds(OpenHandshake(r, RT_HANDSHAKE, payload, maxLen).0, k, ps + PieceIn(r, payload, maxLen, k))
  {
    var m: nat, off: nat, n: nat :| IsPiece(sent, m, off, n, payload);
    var f := Piece(FragmentOf(sent[m], m), off, n);
    hide OpenFragment, Covers, Takes, Holds, ParseFragment, FragmentBytes;
    OneFragment(r, f, maxLen);
    FragmentHolds(r, f, maxLen, k, ps);
    ParseRoundTrip(f, []);
    assert payload + [] == payload;
  }

  /** Steps other than reading a handshake record. */
  lemma QuietStepHolds(w: World, s: Step, k: nat, ps: seq<Range>)
    requires Inv(w) && Allowed(w, s) && !s.Receive? && !s.AwaitChangeCipherSpec?
    requires Do(w, s).recv.readSeq <= k && Holds(w.recv, k, ps)
    ensures w.recv.readSeq <= Do(w, s).recv.readSeq && Holds(Do(w, s).recv, k, ps)
  {
    hide Covers, PieceIn, Authentic;
  }

  /** Any step of the system leaves the slot of any message not yet handed out holding the pieces taken so far. */
  lemma StepHolds(w: World, s: Step, k: nat, ps: seq<Range>)
    requires Inv(w) && Allowed(w, s) && |Do(w, s).sent| < 0x1_0000
    requires Do(w, s).recv.readSeq <= k && Holds(w.recv, k, ps)
    ensures Inv(Do(w, s)) && w.recv.readSeq <= Do(w, s).recv.readSeq
    ensures Holds(Do(w, s).recv, k, ps + PieceOfStep(w.recv, s, k))
  {
    hide Covers, PieceIn, Holds, OpenHandshake, Authentic;
    StepKeeps(w, s);
    assert ps + [] == ps;
    match s {
      case Receive(payload, maxLen) =>
        OpenKeepsReadSeqOf(w.sent, w.recv, payload, maxLen);
        PayloadHolds(w.sent, w.recv, payload, maxLen, k, ps);
      case AwaitChangeCipherSpec(typ, payload, maxLen) =>
        if typ == RT_HANDSHAKE && !w.recv.hasChangeCipherSpec {
          OpenKeepsReadSeqOf(w.sent, w.recv, payload, maxLen);
          PayloadHolds(w.sent, w.recv, payload, maxLen, k, ps);
          FlagHolds(OpenHandshake(w.recv, typ, payload, maxLen).0, k);
        } else {
          AwaitHolds(w.recv, typ, payload, maxLen, k, ps);
        }
      case _ => QuietStepHolds(w, s, k, ps);
    }
  }

  lemma FlagHolds(r: Recv, k: nat)
    requires RingOk(r)
    ensures Unflagged(r).readSeq == r.readSeq && forall ps :: Holds(Unflagged(r), k, ps) <==> Holds(r, k, ps)
  {
    hide Covers;
  }

  lemma AwaitHolds(r: Recv, typ: nat, payload: seq<byte>, maxLen: nat, k: nat, ps: seq<Range>)
    requires RingOk(r) && Holds(r, k, ps) && (typ != RT_HANDSHAKE || r.hasChangeCipherSpec)
    ensures var r' := OpenChangeCipherSpec(r, typ, payload, maxLen).0; r'.readSeq == r.readSeq && RingOk(r') && Holds(r', k, ps)
  {
    hide Covers;
  }

  lemma OpenKeepsReadSeqOf(sent: seq<Message>, r: Recv, payload: seq<byte>, maxLen: nat)
    requires |sent| < 0x1_0000 && RecvFrom(sent, r) && Authentic(sent, payload)
    ensures OpenHandshake(r, RT_HANDSHAKE, payload, maxLen).0.readSeq == r.readSeq
  {
    var m: nat, off: nat, n: nat :| IsPiece(sent, m, off, n, payload);
    OpenKeeps(sent, r, m, off, n, payload, maxLen);
  }

  lemma {:induction false} SeqGrows(w: World, steps: seq<Step>, w': World)
    requires Inv(w) && Reaches(w, steps, w') && |w'.sent| < 0x1_0000
    ensures w.recv.readSeq <= w'.recv.readSeq
    decreases |steps|
  {
    if steps != [] {
      SentGrows(Do(w, steps[0]), steps[1..], w');
      StepKeeps(w, steps[0]);
      DeliveredGrows(w, steps[0]);
      SeqGrows(Do(w, steps[0]), steps[1..], w');
    }
  }

  lemma DeliveredGrows(w: World, s: Step)
    requires Allowed(w, s)
    ensures |Do(w, s).delivered| >= |w.delivered|
  {
  }

  lemma {:induction false} RunHolds(w: World, steps: seq<Step>, w': World, k: nat, ps: seq<Range>)
    requires Inv(w) && Reaches(w, steps, w') && |w'.sent| < 0x1_0000
    requires w'.recv.readSeq <= k && Holds(w.recv, k, ps)
    ensures RingOk(w'.recv) && Holds(w'.recv, k, ps + Heard(w, steps, w', k))
    decreases |steps|
  {
    hide Covers, Holds, PieceOfStep, Do, Allowed;
    if steps == [] {
      assert ps + [] == ps;
    } else {
      var w1 := Do(w, steps[0]);
      SentGrows(w1, steps[1..], w');
      StepKeeps(w, steps[0]);
      SeqGrows(w1, steps[1..], w');
      StepHolds(w, steps[0], k, ps);
      var qs := PieceOfStep(w.recv, steps[0], k);
      RunHolds(w1, steps[1..], w', k, ps + qs);
      assert ps + qs + Heard(w1, steps[1..], w', k) == ps + Heard(w, steps, w', k);
    }
  }

  /**
   In every run, whatever else was lost, repeated, mixed in or ignored: the
   next message can be handed out exactly when the pieces of it that came while
   it could be taken cover every byte, and then it is the message sent.
   */
  lemma AvailableInRuns(steps: seq<Step>, w: World)
    requires Reaches(Start(), steps, w) && |w.sent| < 0x1_0000
    ensures RingOk(w.recv)
    ensures var q := w.recv.readSeq;
      var ps := Heard(Start(), steps, w, q);
      var out := GetMessage(w.recv);
      && (out.Some? <==> ps != [] && q < |w.sent| && forall j: nat | j < |w.sent[q].body| :: Covers(ps, j))
      && (out.Some? ==> out.value == w.sent[q])
  {
    hide Covers, Reaches, Heard;
    var q := w.recv.readSeq;
    var ps := Heard(Start(), steps, w, q);
    RunKeeps(Start(), steps, w);
    RunHolds(Start(), steps, w, q, []);
    assert [] + ps == ps;
    var s := w.recv.slots[q % MAX_FLIGHT];
    assert SlotFrom(w.sent, s);
    if s.Partial? {
      assert SlotOk(w.recv, q % MAX_FLIGHT) && s.number == q;
      if Whole(s) {
        forall j: nat | j < s.len ensures Covers(ps, j) { assert j in Upto(s.len); }
        assert Assembled(s) == w.sent[q].body by {
          forall j | 0 <= j < s.len ensures Assembled(s)[j] == w.sent[q].body[j] { assert j in Upto(s.len); }
        }
      }
      if forall j: nat | j < s.len :: Covers(ps, j) { assert s.got.Keys == Upto(s.len); }
    }
  }

  // ---------- what is refused ----------

  /**
   A piece of what was sent is an error exactly when its message is too long
   or, in the encrypted epoch, not the next, or else is the eighth from the
   next: those further ahead are ignored like those from the past.
   */
  lemma RefusedExactly(sent: seq<Message>, r: Recv, k: nat, off: nat, n: nat, maxLen: nat)
    requires |sent| < 0x1_0000 && RecvFrom(sent, r)
    requires k < |sent| && |sent[k].body| < 0x100_0000 && off + n <= |sent[k].body|
    ensures OpenFragment(r, Piece(FragmentOf(sent[k], k), off, n), maxLen).1 <==>
      |sent[k].body| <= maxLen && if r.epoch == 1 then k == r.readSeq else k != r.readSeq + MAX_FLIGHT
  {
    var f := Piece(FragmentOf(sent[k], k), off, n);
    if InWindow(r, f) && r.slots[k % MAX_FLIGHT].Partial? {
      assert SlotOk(r, k % MAX_FLIGHT) && SlotFrom(sent, r.slots[k % MAX_FLIGHT]);
    }
  }

  /**
   After these steps the receiver does not fail on a handshake payload under way,
   outside the encrypted epoch and with room for the longest message, nor, once
   the read keys have been changed, on any application data.
   */
  ghost predicate Opens(steps: seq<Step>, w: World, payload: seq<byte>, maxLen: nat) {
    && RingOk(w.recv)
    && (w.recv.epoch != 1 && payload in w.net && (forall m | m in w.sent :: |m.body| <= maxLen) ==>
          OpenHandshake(w.recv, RT_HANDSHAKE, payload, maxLen).1 == Success)
    && (KeyChanges(steps) > 0 ==> OpenHandshake(w.recv, RT_APPLICATION_DATA, payload, maxLen) == (w.recv, Discard))
  }

  lemma OpensIn(steps: seq<Step>, w: World, payload: seq<byte>, maxLen: nat)
    requires Reaches(Start(), steps, w) && Inv(w) && |w.sent| <= w.recv.readSeq + MAX_FLIGHT
    ensures Opens(steps, w, payload, maxLen)
  {
    ApplicationData(steps, w, payload, maxLen);
    hide Reaches;
    if w.recv.epoch != 1 && payload in w.net && forall m | m in w.sent :: |m.body| <= maxLen {
      var k: nat, off: nat, n: nat :| IsPiece(w.sent, k, off, n, payload);
      OneFragment(w.recv, Piece(FragmentOf(w.sent[k], k), off, n), maxLen);
      assert w.sent[k] in w.sent;
      RefusedExactly(w.sent, w.recv, k, off, n, maxLen);
    }
  }

  lemma FatalRun(n: nat) returns (steps: seq<Step>, w: World)
    requires MAX_FLIGHT < n < 0x1_0000
    ensures Reaches(Start(), steps, w) && |w.sent| == n && w.recv.readSeq == 0 && !Opens(steps, w, PayloadOf(MAX_FLIGHT), 0)
  {
    var k := MAX_FLIGHT;
    var payload := PayloadOf(k);
    ReachSent(n);
    var w0 := Handed(n, 0);
    assert w0.sent[k] == Numbered(k);
    assert Piece(FragmentOf(w0.sent[k], k), 0, 0) == FragmentOf(Numbered(k), k);
    assert IsPiece(w0.sent, k, 0, 0, payload);
    w := Do(w0, Emit(payload));
    ReachableMore(w0, Emit(payload));
    OneFragment(w.recv, FragmentOf(Numbered(k), k), 0);
    steps :| Reaches(Start(), steps, w);
  }

  /**
   Over all runs: with n messages sent beyond those handed out, the receiver
   never fails on any of their fragments nor, after the first key change, on
   application data, if and only if n <= 7.
   */
  lemma NeverFatal(n: nat)
    requires n < 0x1_0000
    ensures (forall steps, w, payload, maxLen: nat | Reaches(Start(), steps, w) && |w.sent| < 0x1_0000 && |w.sent| == w.recv.readSeq + n ::
              Opens(steps, w, payload, maxLen)) <==> n <= MAX_FLIGHT
  {
    hide Opens, Reaches;
    if n <= MAX_FLIGHT {
      forall steps, w, payload, maxLen: nat | Reaches(Start(), steps, w) && |w.sent| < 0x1_0000 && |w.sent| == w.recv.readSeq + n
        ensures Opens(steps, w, payload, maxLen)
      {
        RunKeeps(Start(), steps, w);
        OpensIn(steps, w, payload, maxLen);
      }
    } else {
      var steps, w := FatalRun(n);
    }
  }

  // ---------- a key change ----------

  /** The ordinary end of a handshake is a run: the ChangeCipherSpec comes and is consumed, keys change, and a message arrives under them. */
  lemma KeyChangeRun() returns (w: World)
    ensures Reachable(w) && w.recv == Waiting(1, true) && |w.sent| == 1 && w.delivered == w.sent
  {
    hide FragmentBytes;
    var m := Message(0, []);
    var w0 := Start();
    assert Reaches(w0, [], w0);
    var flagged := ReceiveOther(RT_CHANGE_CIPHER_SPEC, [1]);
    ReachableMore(w0, flagged);
    var w1 := Do(w0, flagged);
    var consumed := AwaitChangeCipherSpec(RT_CHANGE_CIPHER_SPEC, [1], 0);
    ReachableMore(w1, consumed);
    var w2 := Do(w1, consumed);
    assert w2.recv == Initial();
    ReachableMore(w2, ChangeReadKeys);
    var w3 := Do(w2, ChangeReadKeys);
    assert w3.recv == Waiting(0, true);
    ReachableMore(w3, Add(m));
    var w4 := Do(w3, Add(m));
    var f := FragmentOf(m, 0);
    assert w4.sent == [m] && Piece(f, 0, 0) == f && IsPiece(w4.sent, 0, 0, 0, FragmentBytes(f));
    ReachableMore(w4, Emit(FragmentBytes(f)));
    var w5 := Do(w4, Emit(FragmentBytes(f)));
    TakeEmpty(w5, 0, true, f);
    w := w5.(recv := Waiting(1, true), delivered := w5.delivered + [m]);
  }

  // ---------- any fragment, and what is left over ----------

  /** Message k is one that can have a slot: not yet handed out and within the ring. */
  predicate InRing(r: Recv, k: nat) {
    r.readSeq <= k < r.readSeq + 7 && k < 0x1_0000
  }

  /** Of a message in the ring something has come exactly when a piece of it has been taken. */
  lemma HeardMeansSlot(steps: seq<Step>, w: World, k: nat)
    requires Reaches(Start(), steps, w) && |w.sent| < 0x1_0000 && InRing(w.recv, k)
    ensures RingOk(w.recv) && RecvFrom(w.sent, w.recv)
    ensures Heard(Start(), steps, w, k) != [] <==> w.recv.slots[k % MAX_FLIGHT].Partial?
    ensures Heard(Start(), steps, w, k) != [] ==>
      k < |w.sent| && w.recv.slots[k % MAX_FLIGHT].typ == w.sent[k].typ && w.recv.slots[k % MAX_FLIGHT].len == |w.sent[k].body|
  {
    hide Covers, Reaches, Heard;
    RunKeeps(Start(), steps, w);
    var ps := Heard(Start(), steps, w, k);
    RunHolds(Start(), steps, w, k, []);
    assert [] + ps == ps;
    var i := k % MAX_FLIGHT;
    assert SlotFrom(w.sent, w.recv.slots[i]);
    if w.recv.slots[i].Partial? {
      assert SlotOk(w.recv, i);
      SameSlot(w.recv.slots[i].number, k, w.recv.readSeq);
    }
  }

  lemma SameSlot(m: nat, k: nat, q: nat)
    requires m % 7 == k % 7 && q <= m < q + 7 && q <= k < q + 7
    ensures m == k
  {
  }

  /**
   In every run, any fragment at all, authentic or not: it is an error exactly
   when it does not fit its own message, its message is too long, it is not of
   the next message in the encrypted epoch, it is of the one seven after the
   next, or it speaks of another type or length than the message of which pieces
   have been taken.
   */
  lemma FragmentRefused(steps: seq<Step>, w: World, f: Fragment, maxLen: nat)
    requires Reaches(Start(), steps, w) && |w.sent| < 0x1_0000 && Fits(f)
    ensures RingOk(w.recv)
    ensures var q := w.recv.readSeq;
      OpenFragment(w.recv, f, maxLen).1 <==>
        && f.off + |f.body| <= f.msgLen <= maxLen
        && (KeyChanges(steps) % 0x1_0000 == 1 ==> f.number == q)
        && f.number != q + 7
        && (InRing(w.recv, f.number) && Heard(Start(), steps, w, f.number) != [] ==>
              f.number < |w.sent| && f.typ == w.sent[f.number].typ && f.msgLen == |w.sent[f.number].body|)
    ensures !OpenFragment(w.recv, f, maxLen).1 ==> OpenFragment(w.recv, f, maxLen).0 == w.recv
  {
    hide Covers, Reaches, Heard;
    EpochCounts(Start(), steps, w);
    if InRing(w.recv, f.number) { HeardMeansSlot(steps, w, f.number); }
  }

  /**
   In every run the read keys can be changed exactly when no ChangeCipherSpec
   waits and no piece has been taken of any message not handed out, but for the
   one that is being looked at.
   */
  lemma KeysCanChange(steps: seq<Step>, w: World)
    requires Reaches(Start(), steps, w) && |w.sent| < 0x1_0000
    ensures RingOk(w.recv)
    ensures SetReadState(w.recv).Some? <==>
      && !w.recv.hasChangeCipherSpec
      && forall k: nat | InRing(w.recv, k) && !(w.recv.hasMessage && k == w.recv.readSeq) :: Heard(Start(), steps, w, k) == []
  {
    hide Covers, Reaches, Heard;
    EpochCounts(Start(), steps, w);
    var r := w.recv;
    forall k: nat | InRing(r, k) ensures Heard(Start(), steps, w, k) != [] <==> r.slots[k % MAX_FLIGHT].Partial? {
      HeardMeansSlot(steps, w, k);
    }
    if exists i :: 0 <= i < MAX_FLIGHT && !(r.hasMessage && i == r.readSeq % MAX_FLIGHT) && r.slots[i] != Empty {
      var i :| 0 <= i < MAX_FLIGHT && !(r.hasMessage && i == r.readSeq % MAX_FLIGHT) && r.slots[i] != Empty;
      assert SlotOk(r, i);
      assert InRing(r, r.slots[i].number);
    }
    forall k: nat | InRing(r, k) && k != r.readSeq ensures k % MAX_FLIGHT != r.readSeq % MAX_FLIGHT {
      if k % 7 == r.readSeq % 7 { SameSlot(k, r.readSeq, r.readSeq); }
    }
  }
}
