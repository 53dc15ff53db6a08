/**
 Outgoing DTLS flights: up to seven messages, cut into fragments that fit the
 packets of the moment, sent from a position that moves forward, is put back
 when a write fails and rewound for retransmission.
 */
module DtlsSend {
  import opened Common
  import opened Bits
  import opened DtlsFormat
  import opened DtlsReplay
  import opened DtlsSeal
  import opened DtlsReceive

  const MIN_MTU: nat := 256 - 28

  /** A handshake message is kept as one fragment holding all of it; a ChangeCipherSpec has no data. */
  datatype Outgoing = Outgoing(isCcs: bool, epoch: nat, data: seq<byte>)

  /** What fragmentation needs to know of a cipher. */
  datatype Cipher = Cipher(maxOverhead: nat, nonceLen: nat)

  predicate Sound(c: Cipher) {
    c.nonceLen <= c.maxOverhead
  }

  /** A record as handed to the network: its type, its eight-byte name, what it carries, its length. */
  datatype Wire = Wire(typ: nat, name: seq<byte>, payload: seq<byte>, len: nat)

  datatype Pos = Pos(written: nat, offset: nat)

  // ---------- what the position means ----------

  /** The message that `data` holds, when it is one fragment holding all of it. */
  function MessageOf(data: seq<byte>): (r: Option<Fragment>)
    ensures r.Some? ==> Fits(r.value)
  {
    match ParseFragment(data)
    case Fail => None
    case Got(f, rest) => if f.off != 0 || f.msgLen != |f.body| || rest != [] then None else Some(f)
  }

  function BodyLen(o: Outgoing): nat {
    if o.isCcs then 0 else match MessageOf(o.data) case None => 0 case Some(f) => |f.body|
  }

  /** A position in the flight: inside a message only strictly before its end. */
  predicate InFlight(flight: seq<Outgoing>, p: Pos) {
    && p.written <= |flight|
    && (p.offset > 0 ==> p.written < |flight| && p.offset < BodyLen(flight[p.written]))
  }

  /** The piece of `n` bytes at the offset. */
  function Piece(f: Fragment, off: nat, n: nat): (g: Fragment)
    requires Fits(f) && off + n <= |f.body|
    ensures Fits(g) && |g.body| == n
  {
    Fragment(f.typ, |f.body|, f.number, off, f.body[off..off + n])
  }

  /** Where the flight stands after `w`; None when `w` is not what comes next. */
  function Advance(flight: seq<Outgoing>, p: Pos, w: Wire): (r: Option<Pos>)
    requires InFlight(flight, p)
    ensures r.Some? ==> InFlight(flight, r.value)
    ensures r.Some? ==> r.value.written > p.written || (r.value.written == p.written && r.value.offset > p.offset)
  {
    if p.written == |flight| then None
    else if flight[p.written].isCcs then
      if w.typ == RT_CHANGE_CIPHER_SPEC && w.payload == [1] then Some(Pos(p.written + 1, 0)) else None
    else
      match MessageOf(flight[p.written].data)
      case None => None
      case Some(f) =>
        var n := |w.payload| - HEADER_LENGTH;
        if n < 0 || p.offset + n > |f.body| || w.typ != RT_HANDSHAKE || w.payload != FragmentBytes(Piece(f, p.offset, n)) then None
        else if p.offset + n == |f.body| then Some(Pos(p.written + 1, 0))
        else if n == 0 then None
        else Some(Pos(p.written, p.offset + n))
  }

  function After(flight: seq<Outgoing>, p: Pos, ws: seq<Wire>): (r: Option<Pos>)
    requires InFlight(flight, p)
    ensures r.Some? ==> InFlight(flight, r.value)
    decreases |ws|
  {
    if ws == [] then Some(p)
    else
      match After(flight, p, ws[..|ws| - 1])
      case None => None
      case Some(q) => Advance(flight, q, ws[|ws| - 1])
  }

  lemma {:induction false} AfterSplit(flight: seq<Outgoing>, p: Pos, a: seq<Wire>, b: seq<Wire>)
    requires InFlight(flight, p) && After(flight, p, a).Some?
    ensures After(flight, p, a + b) == After(flight, After(flight, p, a).value, b)
    decreases |b|
  {
    if b == [] {
      assert a + b == a;
    } else {
      var b' := b[..|b| - 1];
      assert (a + b)[..|a + b| - 1] == a + b';
      AfterSplit(flight, p, a, b');
    }
  }

  // ---------- the fragments of one message make up its body ----------

  /** The bytes of message `number` carried by the records, in order. */
  function Collected(ws: seq<Wire>, number: nat): seq<byte> {
    if ws == [] then []
    else
      var w := ws[|ws| - 1];
      Collected(ws[..|ws| - 1], number) +
      if w.typ != RT_HANDSHAKE then []
      else
        match ParseFragment(w.payload)
        case Fail => []
        case Got(f, _) => if f.number == number then f.body else []
  }

  predicate DistinctNumbers(flight: seq<Outgoing>) {
    forall i, j | 0 <= i < j < |flight| && !flight[i].isCcs && !flight[j].isCcs ::
      NumberAt(flight, i) != NumberAt(flight, j)
  }

  function NumberAt(flight: seq<Outgoing>, i: nat): nat
    requires i < |flight|
  {
    match MessageOf(flight[i].data) case None => 0 case Some(f) => f.number
  }

  function BodyAt(flight: seq<Outgoing>, i: nat): seq<byte>
    requires i < |flight|
  {
    match MessageOf(flight[i].data) case None => [] case Some(f) => f.body
  }

  /** How much of message `i` lies before the position. */
  function SentPart(flight: seq<Outgoing>, i: nat, p: Pos): nat
    requires i < |flight|
  {
    if i < p.written then |BodyAt(flight, i)| else if i == p.written then p.offset else 0
  }

  /**
   Whatever the packet sizes were, the fragments of each message since the
   start of the flight join up to its body as far as the position has come:
   no gap, no overlap, no byte of another message.
   */
  lemma {:induction false} FragmentsJoin(flight: seq<Outgoing>, ws: seq<Wire>, i: nat)
    requires DistinctNumbers(flight) && After(flight, Pos(0, 0), ws).Some?
    requires i < |flight| && !flight[i].isCcs && MessageOf(flight[i].data).Some?
    ensures SentPart(flight, i, After(flight, Pos(0, 0), ws).value) <= |BodyAt(flight, i)|
    ensures Collected(ws, NumberAt(flight, i)) ==
      BodyAt(flight, i)[..SentPart(flight, i, After(flight, Pos(0, 0), ws).value)]
    decreases |ws|
  {
    if ws != [] {
      var ws', w := ws[..|ws| - 1], ws[|ws| - 1];
      FragmentsJoin(flight, ws', i);
      JoinStep(flight, After(flight, Pos(0, 0), ws').value, w, i);
    }
  }

  lemma AdvanceShape(flight: seq<Outgoing>, p: Pos, w: Wire) returns (f: Fragment, n: nat)
    requires InFlight(flight, p) && Advance(flight, p, w).Some? && !flight[p.written].isCcs
    ensures MessageOf(flight[p.written].data) == Some(f) && w.typ == RT_HANDSHAKE && p.offset + n <= |f.body|
    ensures ParseFragment(w.payload) == Got(Piece(f, p.offset, n), [])
    ensures Advance(flight, p, w).value == if p.offset + n == |f.body| then Pos(p.written + 1, 0) else Pos(p.written, p.offset + n)
  {
    f := MessageOf(flight[p.written].data).value;
    n := |w.payload| - HEADER_LENGTH;
    ParseRoundTrip(Piece(f, p.offset, n), []);
    assert w.payload + [] == w.payload;
  }

  lemma SliceGrows(body: seq<byte>, a: nat, n: nat)
    requires a + n <= |body|
    ensures body[..a] + body[a..a + n] == body[..a + n]
  {
  }

  lemma JoinStep(flight: seq<Outgoing>, p: Pos, w: Wire, i: nat)
    requires DistinctNumbers(flight) && InFlight(flight, p) && Advance(flight, p, w).Some?
    requires i < |flight| && !flight[i].isCcs && MessageOf(flight[i].data).Some?
    ensures SentPart(flight, i, p) <= SentPart(flight, i, Advance(flight, p, w).value) <= |BodyAt(flight, i)|
    ensures w.typ == RT_HANDSHAKE ==> ParseFragment(w.payload).Got?
    ensures var part := if w.typ == RT_HANDSHAKE && ParseFragment(w.payload).value.number == NumberAt(flight, i)
                        then ParseFragment(w.payload).value.body else [];
      BodyAt(flight, i)[..SentPart(flight, i, Advance(flight, p, w).value)] == BodyAt(flight, i)[..SentPart(flight, i, p)] + part
  {
    var m := p.written;
    if !flight[m].isCcs {
      var f, n := AdvanceShape(flight, p, w);
      hide MessageOf, ParseFragment, Advance;
      if i != m {
        assert NumberAt(flight, i) != NumberAt(flight, m);
      } else {
        SliceGrows(f.body, p.offset, n);
      }
    }
  }
}
