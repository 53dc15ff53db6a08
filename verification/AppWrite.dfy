/**
 Writing application data over TLS: data is cut into records, a record that the
 transport does not take is kept, and the caller comes back with the same data
 until the write is done. The functions give the meaning of each step on
 values; the class does the work in place and is proved equal to them.
 */
module AppWrite {
  import opened Common

  const MAX_PLAIN_LENGTH: nat := 16384

  const APPLICATION_DATA: nat := 23

  /** What the cipher and the transport do in one round: whether the record is sealed, and what flushing it answers. */
  datatype Answer = Answer(seals: bool, flush: int)

  datatype Writer = Writer(
    maxFragment: nat,       // max_send_fragment
    partialWrite: bool,     // SSL_MODE_ENABLE_PARTIAL_WRITE
    movingBuffer: bool,     // SSL_MODE_ACCEPT_MOVING_WRITE_BUFFER
    closed: bool,           // write_shutdown
    wnum: nat,              // sealed and flushed in the call that was interrupted
    pending: bool,          // a sealed record waits to be flushed
    pendingTotal: nat,      // and these are the arguments it was sealed with
    pendingAt: int,
    sealed: seq<byte>,      // the plaintext of every record, in order
    flushed: nat,           // how much of it the transport has
    lengths: seq<nat>       // how much of it each record holds
  )

  // ---------- the steps on values ----------

  /** ssl3_write_pending: the record waits on unless the arguments match and the transport takes it. */
  function FlushRecord(w: Writer, at: int, len: nat, flush: int): (Writer, int) {
    if w.pendingTotal > len || (!w.movingBuffer && w.pendingAt != at) then (w, -1)
    else if flush <= 0 then (w, flush)
    else (w.(flushed := w.flushed + w.pendingTotal, pending := false), w.pendingTotal)
  }

  /** do_ssl3_write. */
  function PutRecord(w: Writer, at: int, input: seq<byte>, a: Answer): (Writer, int) {
    if w.pending then FlushRecord(w, at, |input|, a.flush)
    else if |input| > MAX_PLAIN_LENGTH then (w, -1)
    else if input == [] then (w, 0)
    else if !a.seals then (w, -1)
    else
      FlushRecord(w.(pending := true, pendingTotal := |input|, pendingAt := at, sealed := w.sealed + input,
                     lengths := w.lengths + [|input|]), at, |input|, a.flush)
  }

  function NextLength(w: Writer, n: nat): (r: nat)
    ensures r <= n
  {
    if n > w.maxFragment then w.maxFragment else n
  }

  /** The loop of ssl3_write_app_data from round i on, with `tot` bytes done. */
  function PutFrom(w: Writer, at: int, data: seq<byte>, tot: nat, env: nat -> Answer, i: nat): (Writer, int)
    requires tot <= |data|
    decreases |data| - tot
  {
    var n := |data| - tot;
    var (w', ret) := PutRecord(w, at + tot, data[tot..tot + NextLength(w, n)], env(i));
    if ret <= 0 then (w'.(wnum := tot), ret)
    else if ret >= n || w.partialWrite then (w', tot + ret)
    else PutFrom(w', at, data, tot + ret, env, i + 1)
  }

  /** ssl3_write_app_data without early data; `at` is the address of `data`. */
  function PutData(w: Writer, at: int, data: seq<byte>, env: nat -> Answer): (Writer, int) {
    if w.closed then (w, -1)
    else if |data| < w.wnum then (w.(wnum := 0), -1)
    else PutFrom(w.(wnum := 0), at, data, w.wnum, env, 0)
  }

  predicate Sound(w: Writer) {
    0 < w.maxFragment <= MAX_PLAIN_LENGTH && (w.pending ==> 0 < w.pendingTotal)
  }

  /** A record is flushed whole, and only with room for it in what is offered. */
  lemma RecordKeeps(w: Writer, at: int, input: seq<byte>, a: Answer)
    requires Sound(w)
    ensures var (w', ret) := PutRecord(w, at, input, a);
      Sound(w') && (ret > 0 ==> ret <= |input| && !w'.pending) && w'.maxFragment == w.maxFragment
  {
  }

  // ---------- the writer ----------

  class AppWriter {
    const maxFragment: nat
    const partialWrite: bool
    const movingBuffer: bool
    var closed: bool
    var wnum: nat
    var pending: bool
    var pendingTotal: nat
    var pendingAt: int
    var pendingType: nat
    ghost var sealed: seq<byte>
    ghost var flushed: nat
    ghost var lengths: seq<nat>

    ghost function View(): Writer
      reads this
    {
      Writer(maxFragment, partialWrite, movingBuffer, closed, wnum, pending, pendingTotal, pendingAt, sealed, flushed, lengths)
    }

    ghost predicate Valid()
      reads this
    {
      Sound(View()) && (pending ==> pendingType == APPLICATION_DATA)
    }

    constructor (maxFragment: nat, partialWrite: bool, movingBuffer: bool)
      requires 0 < maxFragment <= MAX_PLAIN_LENGTH
      ensures Valid() && View() == Fresh(maxFragment, partialWrite, movingBuffer)
    {
      this.maxFragment, this.partialWrite, this.movingBuffer := maxFragment, partialWrite, movingBuffer;
      closed, wnum, pending, pendingTotal, pendingAt, pendingType := false, 0, false, 0, 0, 0;
      sealed, flushed, lengths := [], 0, [];
    }

    /** ssl3_write_pending; a positive answer is the length of the record flushed. */
    method WritePending(at: int, len: nat, typ: nat, flush: int) returns (ret: int)
      requires Valid() && pending && typ == APPLICATION_DATA
      modifies `pending, `flushed
      ensures Valid() && (View(), ret) == FlushRecord(old(View()), at, len, flush)
    {
      if pendingTotal > len || (!movingBuffer && pendingAt != at) || pendingType != typ { return -1; }
      if flush <= 0 { return flush; }
      flushed := flushed + pendingTotal;
      pending := false;
      return pendingTotal;
    }

    /** do_ssl3_write: flushes a pending record, or seals the next bytes and flushes them. */
    method WriteRecord(at: int, typ: nat, input: seq<byte>, a: Answer) returns (ret: int)
      requires Valid() && typ == APPLICATION_DATA
      modifies `pending, `pendingTotal, `pendingAt, `pendingType, `sealed, `flushed, `lengths
      ensures Valid() && (View(), ret) == PutRecord(old(View()), at, input, a)
    {
      if pending {
        ret := WritePending(at, |input|, typ, a.flush);
        return;
      }
      if |input| > MAX_PLAIN_LENGTH { return -1; }
      if |input| == 0 { return 0; }
      if !a.seals { return -1; }
      sealed, lengths := sealed + input, lengths + [|input|];
      pendingTotal, pendingAt, pendingType, pending := |input|, at, typ, true;
      ret := WritePending(at, |input|, typ, a.flush);
    }

    /** ssl3_write_app_data without early data. */
    method Write(at: int, data: seq<byte>, env: nat -> Answer) returns (ret: int)
      requires Valid()
      modifies this
      ensures Valid() && (View(), ret) == PutData(old(View()), at, data, env)
    {
      hide PutRecord;
      if closed { return -1; }
      var tot := wnum;
      wnum := 0;
      if |data| < tot { return -1; }
      var n := |data| - tot;
      var i := 0;
      while true
        invariant 0 <= n && tot + n == |data| && i >= 0 && Valid()
        invariant PutData(old(View()), at, data, env) == PutFrom(View(), at, data, tot, env, i)
        decreases n
      {
        RecordKeeps(View(), at + tot, data[tot..tot + NextLength(View(), n)], env(i));
        var nw := if n > maxFragment then maxFragment else n;
        ret := WriteRecord(at + tot, APPLICATION_DATA, data[tot..tot + nw], env(i));
        if ret <= 0 {
          wnum := tot;
          return;
        }
        if ret == n || partialWrite { return tot + ret; }
        n := n - ret;
        tot := tot + ret;
        i := i + 1;
      }
    }
  }

  // ---------- whole sequences of calls ----------

  function Fresh(maxFragment: nat, partialWrite: bool, movingBuffer: bool): Writer {
    Writer(maxFragment, partialWrite, movingBuffer, false, 0, false, 0, 0, [], 0, [])
  }

  /** A caller with a stream to write: how much of it calls have reported, and whether one offered less than was flushed. */
  datatype Caller = Caller(stream: seq<byte>, reported: nat, w: Writer, short: bool)

  /** A call offers any part of the stream that begins where the last report ended. */
  datatype Call = Call(at: int, data: seq<byte>, env: nat -> Answer)

  predicate Offers(c: Caller, call: Call) {
    c.reported <= |c.stream| && call.data <= c.stream[c.reported..]
  }

  /** The call offers less than is sealed and flushed already. */
  predicate TooShort(c: Caller, call: Call) {
    !c.w.closed && |call.data| < c.w.wnum
  }

  function After(c: Caller, call: Call): Caller {
    var (w, ret) := PutData(c.w, call.at, call.data, call.env);
    Caller(c.stream, c.reported + (if ret > 0 then ret else 0), w, c.short || TooShort(c, call))
  }

  /** Sealed and flushed, and sealed and waiting, are the next bytes of the stream, once and in order. */
  predicate IntactFrom(stream: seq<byte>, reported: nat, w: Writer) {
    var done := reported + w.wnum;
    var all := done + if w.pending then w.pendingTotal else 0;
    Sound(w) && all <= |stream| && w.sealed == stream[..all] && w.flushed == done
  }

  predicate Intact(c: Caller) {
    IntactFrom(c.stream, c.reported, c.w)
  }

  /** Inside a call: `tot` bytes of the data are sealed and flushed. */
  predicate Within(stream: seq<byte>, from: nat, w: Writer, data: seq<byte>, tot: nat) {
    from <= |stream| && data <= stream[from..] && tot <= |data| && IntactFrom(stream, from, w.(wnum := tot))
  }

  lemma CallReports(stream: seq<byte>, from: nat, w: Writer, done: nat)
    requires w.wnum == 0 && IntactFrom(stream, from, w.(wnum := done))
    ensures IntactFrom(stream, from + done, w)
  {
  }

  lemma RecordGoesOn(stream: seq<byte>, from: nat, w: Writer, at: int, data: seq<byte>, tot: nat, n: nat, a: Answer)
    requires Within(stream, from, w, data, tot) && tot + n <= |data|
    ensures var (w', ret) := PutRecord(w, at, data[tot..tot + n], a);
      && w'.wnum == w.wnum && w'.partialWrite == w.partialWrite && Sound(w)
      && (ret > 0 ==> tot + ret <= |data| && !w'.pending && Within(stream, from, w', data, tot + ret))
      && (ret <= 0 ==> Within(stream, from, w', data, tot))
  {
    if !w.pending && n > 0 {
      assert stream[..from + tot] + data[tot..tot + n] == stream[..from + tot + n];
    }
  }

  lemma {:induction false} LoopKeeps(c: Caller, call: Call, w: Writer, tot: nat, i: nat)
    requires Offers(c, call) && Within(c.stream, c.reported, w, call.data, tot) && w.wnum == 0
    ensures var (w', ret) := PutFrom(w, call.at, call.data, tot, call.env, i);
      && IntactFrom(c.stream, c.reported + (if ret > 0 then ret else 0), w')
      && (ret > 0 ==> ret <= |call.data| && w'.wnum == 0 && !w'.pending)
    decreases |call.data| - tot
  {
    hide PutRecord, IntactFrom;
    var n := NextLength(w, |call.data| - tot);
    RecordGoesOn(c.stream, c.reported, w, call.at + tot, call.data, tot, n, call.env(i));
    RecordKeeps(w, call.at + tot, call.data[tot..tot + n], call.env(i));
    var (w', ret) := PutRecord(w, call.at + tot, call.data[tot..tot + n], call.env(i));
    if ret > 0 {
      if ret < |call.data| - tot && !w.partialWrite {
        LoopKeeps(c, call, w', tot + ret, i + 1);
      } else {
        CallReports(c.stream, c.reported, w', tot + ret);
      }
    }
  }

  /** A call keeps the stream intact exactly when it does not offer less than was flushed. */
  lemma CallKeeps(c: Caller, call: Call)
    requires Intact(c) && Offers(c, call)
    ensures Intact(After(c, call)) <==> !TooShort(c, call)
  {
    hide PutFrom;
    if !c.w.closed && |call.data| >= c.w.wnum {
      LoopKeeps(c, call, c.w.(wnum := 0), c.w.wnum, 0);
    }
  }

  /** A positive answer r: exactly the first r bytes offered have been sealed and flushed, and nothing waits. */
  lemma ReportIsExact(c: Caller, call: Call)
    requires Intact(c) && Offers(c, call) && PutData(c.w, call.at, call.data, call.env).1 > 0
    ensures var (w, ret) := PutData(c.w, call.at, call.data, call.env);
      && ret <= |call.data| && w.sealed == c.stream[..c.reported] + call.data[..ret]
      && w.flushed == |w.sealed| && !w.pending && w.wnum == 0
  {
    hide PutFrom;
    LoopKeeps(c, call, c.w.(wnum := 0), c.w.wnum, 0);
    var (w, ret) := PutData(c.w, call.at, call.data, call.env);
    assert c.stream[..c.reported] + call.data[..ret] == c.stream[..c.reported + ret];
  }

  /** A record that waits is refused under another address and kept, unless the buffer may move. */
  lemma OtherAddressRefused(c: Caller, call: Call)
    requires Intact(c) && c.w.pending && !c.w.movingBuffer && c.w.pendingAt != call.at + c.w.wnum
    requires !c.w.closed && |call.data| >= c.w.wnum
    ensures PutData(c.w, call.at, call.data, call.env) == (c.w, -1)
  {
  }

  ghost predicate Step(c: Caller, c': Caller) {
    || c' == c.(w := c.w.(closed := true))
    || exists call: Call :: Offers(c, call) && c' == After(c, call)
  }

  ghost predicate IsRun(run: seq<Caller>) {
    && |run| > 0 && Sound(run[0].w)
    && run[0] == Caller(run[0].stream, 0, Fresh(run[0].w.maxFragment, run[0].w.partialWrite, run[0].w.movingBuffer), false)
    && forall i | 0 < i < |run| :: Step(run[i - 1], run[i])
  }

  lemma {:induction false} RunKeeps(run: seq<Caller>)
    requires IsRun(run) && !run[|run| - 1].short
    ensures Intact(run[|run| - 1])
    decreases |run|
  {
    if |run| > 1 {
      var c, c' := run[|run| - 2], run[|run| - 1];
      assert Step(c, c');
      RunKeeps(run[..|run| - 1]);
      if c' != c.(w := c.w.(closed := true)) {
        var call: Call :| Offers(c, call) && c' == After(c, call);
        CallKeeps(c, call);
      }
    }
  }

  // ---------- how the data is cut, and what a call answers ----------

  /** This many bytes in records of at most `max`: all of them full but the last. */
  function Cut(max: nat, n: nat): (r: seq<nat>)
    requires max > 0
  {
    if n == 0 then [] else if n <= max then [n] else [max] + Cut(max, n - max)
  }

  /** Where in the data the first new record begins: behind what is flushed and what waits. */
  function Begins(w: Writer, tot: nat): nat {
    tot + if w.pending then w.pendingTotal else 0
  }

  lemma OneRecord(w: Writer, at: int, data: seq<byte>, tot: nat, a: Answer)
    requires Sound(w) && tot <= |data|
    ensures var n := |data| - tot;
      var (w', ret) := PutRecord(w, at, data[tot..tot + NextLength(w, n)], a);
      && Sound(w') && w'.partialWrite == w.partialWrite && w'.maxFragment == w.maxFragment
      && (ret > 0 ==> !w'.pending && ret <= n)
      && (ret > 0 ==> ret == if w.pending then w.pendingTotal else if n > w.maxFragment then w.maxFragment else n)
      && (w.pending ==> w'.lengths == w.lengths)
      && (!w.pending ==> w'.lengths == w.lengths || (n > 0 && w'.lengths == w.lengths + [if n > w.maxFragment then w.maxFragment else n]))
      && (ret > 0 && !w.pending ==> n > 0 && w'.lengths == w.lengths + [ret])
  {
  }

  /** A call cuts what is not yet sealed into records that are full but for the last. */
  lemma {:induction false} CutsEvenly(w: Writer, at: int, data: seq<byte>, tot: nat, env: nat -> Answer, i: nat)
    requires Sound(w) && tot <= |data|
    ensures var w' := PutFrom(w, at, data, tot, env, i).0;
      && w.lengths <= w'.lengths
      && if Begins(w, tot) <= |data| then w'.lengths[|w.lengths|..] <= Cut(w.maxFragment, |data| - Begins(w, tot))
         else w'.lengths == w.lengths
    decreases |data| - tot
  {
    hide PutRecord, NextLength;
    var n := |data| - tot;
    var (w1, ret) := PutRecord(w, at + tot, data[tot..tot + NextLength(w, n)], env(i));
    OneRecord(w, at + tot, data, tot, env(i));
    if ret > 0 && ret < n && !w.partialWrite {
      CutsEvenly(w1, at, data, tot + ret, env, i + 1);
      var w2 := PutFrom(w1, at, data, tot + ret, env, i + 1).0;
      if !w.pending {
        assert w2.lengths[|w.lengths|..] == [ret] + w2.lengths[|w1.lengths|..];
      }
    }
  }

  /**
   A positive answer: in the default mode it is all of the data, cut to its end;
   in the other it is what was flushed before and one record.
   */
  lemma {:induction false} AnswerIs(w: Writer, at: int, data: seq<byte>, tot: nat, env: nat -> Answer, i: nat)
    requires Sound(w) && tot <= |data|
    ensures var (w', ret) := PutFrom(w, at, data, tot, env, i);
      && (ret > 0 && !w.partialWrite ==> ret == |data| && Begins(w, tot) <= |data|)
      && (ret > 0 && !w.partialWrite ==> w'.lengths == w.lengths + Cut(w.maxFragment, |data| - Begins(w, tot)))
      && (ret > 0 && w.partialWrite ==>
            ret == tot + if w.pending then w.pendingTotal else if |data| - tot > w.maxFragment then w.maxFragment else |data| - tot)
    decreases |data| - tot
  {
    hide PutRecord, NextLength;
    var n := |data| - tot;
    var (w1, ret) := PutRecord(w, at + tot, data[tot..tot + NextLength(w, n)], env(i));
    OneRecord(w, at + tot, data, tot, env(i));
    if ret > 0 && ret < n && !w.partialWrite {
      AnswerIs(w1, at, data, tot + ret, env, i + 1);
      if !w.pending { assert w.lengths + ([ret] + Cut(w.maxFragment, n - ret)) == w1.lengths + Cut(w.maxFragment, n - ret); }
    }
  }

  /** Every record holds at least one byte and no more than the largest fragment, over all sequences of calls. */
  predicate EachFits(w: Writer) {
    Sound(w) && forall i | 0 <= i < |w.lengths| :: 0 < w.lengths[i] <= w.maxFragment
  }

  lemma {:induction false} CallFits(w: Writer, at: int, data: seq<byte>, tot: nat, env: nat -> Answer, i: nat)
    requires EachFits(w) && tot <= |data|
    ensures EachFits(PutFrom(w, at, data, tot, env, i).0)
    decreases |data| - tot
  {
    hide PutRecord;
    var n := |data| - tot;
    var (w1, ret) := PutRecord(w, at + tot, data[tot..tot + NextLength(w, n)], env(i));
    OneRecord(w, at + tot, data, tot, env(i));
    if ret > 0 && ret < n && !w.partialWrite { CallFits(w1, at, data, tot + ret, env, i + 1); }
  }

  lemma {:induction false} RecordsFit(run: seq<Caller>)
    requires IsRun(run)
    ensures EachFits(run[|run| - 1].w)
    decreases |run|
  {
    if |run| > 1 {
      var c, c' := run[|run| - 2], run[|run| - 1];
      assert Step(c, c');
      RecordsFit(run[..|run| - 1]);
      if c' != c.(w := c.w.(closed := true)) {
        var call: Call :| Offers(c, call) && c' == After(c, call);
        if !c.w.closed && |call.data| >= c.w.wnum { CallFits(c.w.(wnum := 0), call.at, call.data, c.w.wnum, call.env, 0); }
      }
    }
  }

  // ---------- a call that offers too little ----------

  function Blocking(rounds: nat): nat -> Answer {
    (i: nat) => Answer(true, if i < rounds then 1 else 0)
  }

  /**
   Four bytes, one to a record. The first call stops with two records flushed
   and the third waiting; one byte is offered, and then all four again.
   */
  function ShortRun(): seq<Caller> {
    var c0 := Caller([1, 2, 3, 4], 0, Fresh(1, false, true), false);
    var c1 := c0.(w := c0.w.(
      wnum := 2, pending := true, pendingTotal := 1, pendingAt := 2, sealed := [1, 2, 3], flushed := 2, lengths := [1, 1, 1]));
    var c2 := c1.(w := c1.w.(wnum := 0), short := true);
    var c3 := c2.(w := c2.w.(wnum := 1, pendingAt := 1, sealed := [1, 2, 3, 2], flushed := 3, lengths := [1, 1, 1, 1]));
    [c0, c1, c2, c3]
  }

  /** The waiting record is taken for the first byte, and the second byte is sealed again. */
  lemma ShortRunRepeats()
    ensures IsRun(ShortRun()) && ShortRun()[3].short && !(ShortRun()[3].w.sealed <= ShortRun()[3].stream)
  {
    hide PutRecord, FlushRecord, PutFrom;
    var run := ShortRun();
    FirstCall(run[0]);
    assert Offers(run[1], Call(0, [1], Blocking(0))) && run[2] == After(run[1], Call(0, [1], Blocking(0)));
    ThirdCall(run[2]);
    assert run[3].w.sealed[3] != run[3].stream[3];
  }

  /** One byte is sealed, and flushed or not. */
  lemma OneByte(w: Writer, at: int, b: byte, flush: int)
    requires !w.pending && w.movingBuffer
    ensures var w' := w.(pendingTotal := 1, pendingAt := at, sealed := w.sealed + [b], lengths := w.lengths + [1]);
      PutRecord(w, at, [b], Answer(true, flush)) ==
        if flush > 0 then (w'.(pending := false, flushed := w.flushed + 1), 1) else (w'.(pending := true), flush)
  {
  }

  lemma FirstCall(c: Caller)
    requires c == ShortRun()[0]
    ensures Step(c, ShortRun()[1])
  {
    hide PutRecord;
    var call := Call(0, c.stream, Blocking(2));
    assert call.data[0..1] == [1] && call.data[1..2] == [2] && call.data[2..3] == [3];
    assert c.w.sealed + [1] == [1] && [1] + [2] == [1, 2] && [1, 2] + [3] == [1, 2, 3];
    var w1 := c.w.(sealed := [1], pendingTotal := 1, pendingAt := 0, flushed := 1, lengths := [1]);
    var w2 := c.w.(sealed := [1, 2], pendingTotal := 1, pendingAt := 1, flushed := 2, lengths := [1, 1]);
    assert c.w.lengths + [1] == [1] && w1.lengths + [1] == [1, 1] && w2.lengths + [1] == [1, 1, 1];
    OneByte(c.w, 0, 1, 1);
    OneByte(w1, 1, 2, 1);
    OneByte(w2, 2, 3, 0);
    assert PutFrom(c.w, 0, call.data, 0, call.env, 0) == PutFrom(w1, 0, call.data, 1, call.env, 1);
    assert PutFrom(w1, 0, call.data, 1, call.env, 1) == PutFrom(w2, 0, call.data, 2, call.env, 2);
    assert Offers(c, call) && ShortRun()[1] == After(c, call);
  }

  lemma ThirdCall(c: Caller)
    requires c == ShortRun()[2]
    ensures Step(c, ShortRun()[3])
  {
    var call := Call(0, c.stream, Blocking(1));
    assert call.data[1..2] == [2];
    var w1 := c.w.(pending := false, flushed := 3);
    assert w1.lengths + [1] == [1, 1, 1, 1];
    assert PutRecord(c.w, 0, call.data[0..1], call.env(0)) == (w1, 1);
    assert PutFrom(c.w, 0, call.data, 0, call.env, 0) == PutFrom(w1, 0, call.data, 1, call.env, 1);
    assert Offers(c, call) && ShortRun()[3] == After(c, call);
  }

  /**
   Over all sequences of blocked and repeated calls: what is sealed is the
   stream so far, without gap or repetition, exactly when no call has offered
   less than was already flushed.
   */
  lemma SealedOnce(short: bool)
    ensures (forall run: seq<Caller> | IsRun(run) && run[|run| - 1].short == short ::
              run[|run| - 1].w.sealed <= run[|run| - 1].stream) <==> !short
  {
    if short {
      ShortRunRepeats();
      var run := ShortRun();
      assert run[|run| - 1].short;
    } else {
      forall run: seq<Caller> | IsRun(run) && !run[|run| - 1].short ensures run[|run| - 1].w.sealed <= run[|run| - 1].stream {
        RunKeeps(run);
      }
    }
  }
}
