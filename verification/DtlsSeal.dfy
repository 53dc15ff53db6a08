/**
 The sending record layer of DTLS: the 48-bit sequence counters, kept as bytes
 and counted up in place, the choice between the current and the previous
 epoch, and the change of write keys.
 */
module DtlsSeal {
  import opened Common
  import opened Bits
  import opened DtlsFormat
  import opened DtlsReplay

  // ---------- the counter ----------

  /** Adding one to a number whose lowest bytes are all 255 carries into the byte before them. */
  lemma {:induction false} Carry(bs: seq<byte>, bs': seq<byte>, i: nat)
    requires |bs| == |bs'| && i < |bs| && bs[..i] == bs'[..i]
    requires forall j | i < j < |bs| :: bs[j] == 255 && bs'[j] == 0
    requires bs'[i] == (bs[i] as int + 1) % 256
    ensures bs[i] < 255 ==> BigEndian(bs') == BigEndian(bs) + 1
    ensures bs[i] == 255 && i == 0 ==> BigEndian(bs') == 0 && BigEndian(bs) + 1 == Pow256(|bs|)
    decreases |bs|
  {
    var n := |bs| - 1;
    if i == n {
      if i == 0 {
        assert bs[..n] == [] && bs'[..n] == [];
      }
    } else {
      assert bs[..n][..i] == bs[..i] && bs'[..n][..i] == bs'[..i];
      Carry(bs[..n], bs'[..n], i);
    }
  }

  lemma CountedUp(bs: seq<byte>, bs': seq<byte>, i: nat)
    requires |bs| == |bs'| && i < |bs| && bs[..i] == bs'[..i]
    requires forall j | i < j < |bs| :: bs[j] == 255 && bs'[j] == 0
    requires bs'[i] == (bs[i] as int + 1) % 256
    requires i == 0 || bs'[i] != 0
    ensures BigEndian(bs') == (BigEndian(bs) + 1) % Pow256(|bs|)
    ensures bs'[i] != 0 <==> BigEndian(bs) + 1 < Pow256(|bs|)
  {
    hide BigEndian, Pow256;
    Carry(bs, bs', i);
    BigEndianBound(bs);
    BigEndianBound(bs');
    NextModulo(BigEndian(bs), Pow256(|bs|));
  }

  lemma NextModulo(x: nat, p: nat)
    requires x < p
    ensures (x + 1) % p == if x + 1 < p then x + 1 else 0
  {
  }

  /** ssl_record_sequence_update on the bytes from `from` on; false reports wraparound. */
  method SequenceUpdate(a: array<byte>, from: nat) returns (ok: bool)
    requires from < a.Length
    modifies a
    ensures a[..from] == old(a[..from])
    ensures BigEndian(a[from..]) == (BigEndian(old(a[from..])) + 1) % Pow256(a.Length - from)
    ensures ok <==> BigEndian(old(a[from..])) + 1 < Pow256(a.Length - from)
  {
    hide BigEndian, Pow256;
    ghost var before := a[from..];
    var i := a.Length;
    ok := false;
    while i > from && !ok
      invariant from <= i <= a.Length && (ok ==> i < a.Length)
      invariant forall j | 0 <= j < i :: a[j] == old(a[j])
      invariant forall j | i < j < a.Length :: old(a[j]) == 255 && a[j] == 0
      invariant i < a.Length ==> a[i] == (old(a[i]) as int + 1) % 256 && (a[i] != 0 <==> ok)
      decreases i, !ok
    {
      i := i - 1;
      a[i] := (a[i] as int + 1) % 256;
      ok := a[i] != 0;
    }
    ghost var after := a[from..];
    assert after[..i - from] == before[..i - from];
    CountedUp(before, after, i - from);
  }

  // ---------- which numbers are used, over whole runs ----------

  /**
   Key changes so far, the counters of the current and of the previous epoch,
   whether a counter has reported wraparound, and every (epoch, number) pair a
   cipher has sealed under, oldest first.
   */
  datatype Writer = Writer(changes: nat, next: nat, last: nat, wrapped: bool, used: seq<(nat, nat)>)

  function CountUp(n: nat): nat {
    (n + 1) % TWO48
  }

  predicate MayUse(w: Writer, previous: bool) {
    previous ==> EpochOf(w.changes) >= 1
  }

  function SealOnce(w: Writer, previous: bool): Writer
    requires MayUse(w, previous)
  {
    if previous then
      w.(last := CountUp(w.last), wrapped := w.wrapped || CountUp(w.last) == 0,
         used := w.used + [(EpochOf(w.changes) - 1, w.last)])
    else
      w.(next := CountUp(w.next), wrapped := w.wrapped || CountUp(w.next) == 0,
         used := w.used + [(EpochOf(w.changes), w.next)])
  }

  function NewKeys(w: Writer): Writer {
    w.(changes := w.changes + 1, last := w.next, next := 0)
  }

  ghost predicate WriterNext(w: Writer, w': Writer) {
    || w' == w
    || w' == NewKeys(w)
    || w' == SealOnce(w, false)
    || (MayUse(w, true) && w' == SealOnce(w, true))
  }

  ghost predicate IsWriterRun(run: seq<Writer>) {
    && |run| > 0 && run[0] == Writer(0, 0, 0, false, [])
    && forall i | 0 < i < |run| :: WriterNext(run[i - 1], run[i])
  }

  ghost predicate NothingReused(w: Writer) {
    && w.next < TWO48 && w.last < TWO48 && Distinct(w.used)
    && (forall u | u in w.used :: UsedBefore(w, u))
  }

  /** The counters are above everything used in their epochs. */
  ghost predicate UsedBefore(w: Writer, u: (nat, nat)) {
    u.0 <= w.changes && (u.0 == w.changes ==> u.1 < w.next) && (u.0 + 1 == w.changes ==> u.1 < w.last)
  }

  lemma SealKeeps(w: Writer, previous: bool)
    requires NothingReused(w) && MayUse(w, previous) && w.changes < 0x1_0000
    ensures Distinct(SealOnce(w, previous).used)
    ensures !SealOnce(w, previous).wrapped ==> NothingReused(SealOnce(w, previous))
  {
    var w' := SealOnce(w, previous);
    var u := w'.used[|w.used|];
    assert !UsedBefore(w, u);
    if !w'.wrapped {
      forall v | v in w'.used ensures UsedBefore(w', v) {
        if v != u { assert v in w.used && UsedBefore(w, v); }
      }
    }
  }

  lemma NewKeysKeep(w: Writer)
    requires NothingReused(w)
    ensures NothingReused(NewKeys(w))
  {
    forall v | v in w.used ensures UsedBefore(NewKeys(w), v) { assert UsedBefore(w, v); }
  }

  lemma {:induction false} WriterRunKeeps(run: seq<Writer>)
    requires IsWriterRun(run) && !run[|run| - 1].wrapped && run[|run| - 1].changes < 0x1_0000
    ensures NothingReused(run[|run| - 1])
    decreases |run|
  {
    if |run| > 1 {
      var w, w' := run[|run| - 2], run[|run| - 1];
      assert WriterNext(w, w');
      WriterRunKeeps(run[..|run| - 1]);
      if w' == NewKeys(w) {
        NewKeysKeep(w);
      } else if w' == SealOnce(w, false) {
        SealKeeps(w, false);
      } else if w' != w {
        SealKeeps(w, true);
      }
    }
  }

  /** 2^48 + 1 seals in epoch 0; the last but one reports wraparound and the last uses number 0 again. */
  ghost function Overrun(i: nat): Writer {
    Writer(0, i % TWO48, 0, i >= TWO48, seq(i, j requires 0 <= j => (0, j % TWO48)))
  }

  ghost function OverrunRun(): (run: seq<Writer>) {
    seq(TWO48 + 2, i requires 0 <= i => Overrun(i))
  }

  /** One seal in epoch 0, then keys change until the epoch is 0 again, and a seal. */
  ghost function EpochWrapRun(): (run: seq<Writer>) {
    [Writer(0, 0, 0, false, []), Writer(0, 1, 0, false, [(0, 0)]), Writer(1, 0, 1, false, [(0, 0)])] +
    seq(0xFFFF, i requires 0 <= i => Writer(i + 2, 0, 0, false, [(0, 0)])) +
    [Writer(0x1_0000, 1, 0, false, [(0, 0), (0, 0)])]
  }

  lemma OverrunIsRun()
    ensures var run := OverrunRun();
      IsWriterRun(run) && run[|run| - 2].wrapped && !Distinct(run[|run| - 1].used)
  {
    var run := OverrunRun();
    var used := run[|run| - 1].used;
    assert used[0] == used[TWO48];
    forall i | 0 < i < |run| ensures WriterNext(run[i - 1], run[i]) {
      assert Overrun(i).used == Overrun(i - 1).used + [(0, (i - 1) % TWO48)];
      assert run[i] == SealOnce(run[i - 1], false);
    }
  }

  lemma EpochWrapIsRun()
    ensures var run := EpochWrapRun();
      IsWriterRun(run) && !run[|run| - 1].wrapped && run[|run| - 1].changes == 0x1_0000 && !Distinct(run[|run| - 1].used)
  {
    var run := EpochWrapRun();
    var used := run[|run| - 1].used;
    assert used[0] == used[1];
    forall i | 0 < i < |run| ensures WriterNext(run[i - 1], run[i]) {
      if i == 1 || i == |run| - 1 {
        assert run[i] == SealOnce(run[i - 1], false);
      } else {
        assert run[i] == NewKeys(run[i - 1]);
      }
    }
  }

  /** Further key changes after a run. */
  lemma {:induction false} Extend(run: seq<Writer>, c: nat) returns (run': seq<Writer>)
    requires IsWriterRun(run) && |run| > 1 && c >= run[|run| - 1].changes
    ensures IsWriterRun(run') && |run'| > 1 && run'[|run'| - 1].changes == c
    ensures run'[|run'| - 1].used == run[|run| - 1].used
    ensures run[|run| - 2].wrapped == run[|run| - 1].wrapped ==>
      run'[|run'| - 2].wrapped == run[|run| - 1].wrapped
    decreases c - run[|run| - 1].changes
  {
    run' := run;
    if c > run[|run| - 1].changes {
      var longer := run + [NewKeys(run[|run| - 1])];
      assert forall i | 0 < i < |longer| :: WriterNext(longer[i - 1], longer[i]);
      run' := Extend(longer, c);
    }
  }

  ghost predicate EndsAt(run: seq<Writer>, reported: bool, c: nat) {
    IsWriterRun(run) && |run| > 1 && run[|run| - 2].wrapped == reported && run[|run| - 1].changes == c
  }

  /**
   Up to and including the seal that reports wraparound, and with fewer than
   2^16 key changes, no pair is ever used twice; past either limit one can be.
   */
  lemma NoReuseUntilWrap(reported: bool, c: nat)
    ensures (forall run: seq<Writer> | EndsAt(run, reported, c) :: Distinct(run[|run| - 1].used)) <==>
            !reported && c < 0x1_0000
  {
    if !reported && c < 0x1_0000 {
      forall run: seq<Writer> | EndsAt(run, reported, c) ensures Distinct(run[|run| - 1].used) {
        UniqueUpTo(run);
      }
    } else {
      var run;
      if reported {
        OverrunIsRun();
        run := OverrunRun();
      } else {
        EpochWrapIsRun();
        run := EpochWrapRun();
      }
      var run' := Extend(run, c);
      assert EndsAt(run', reported, c);
    }
  }

  lemma UniqueUpTo(run: seq<Writer>)
    requires IsWriterRun(run) && |run| > 1 && !run[|run| - 2].wrapped && run[|run| - 1].changes < 0x1_0000
    ensures Distinct(run[|run| - 1].used)
  {
    var w, w' := run[|run| - 2], run[|run| - 1];
    assert WriterNext(w, w');
    WriterRunKeeps(run[..|run| - 1]);
    if w' == SealOnce(w, false) {
      SealKeeps(w, false);
    } else if w' != w && w' != NewKeys(w) {
      SealKeeps(w, true);
    }
  }

  // ---------- dtls_seal_record ----------

  /** The epoch and sequence number as the header carries them. */
  function NameOf(e: nat, n: nat): (name: seq<byte>)
    requires e < 0x1_0000
  {
    U16(e) + BigEndianBytes(n, 6)
  }

  /** The 13 bytes in front of a record: type, version, epoch and sequence number, length. */
  function RecordHeader(typ: byte, version: nat, name: seq<byte>, len: nat): (bs: seq<byte>)
    requires version < 0x1_0000 && |name| == 8 && len < 0x1_0000
    ensures |bs| == RECORD_HEADER_LENGTH
  {
    [typ] + U16(version) + name + U16(len)
  }

  /** Where each part stands, as numbers with the most significant byte first. */
  lemma HeaderLayout(typ: byte, version: nat, e: nat, n: nat, len: nat)
    requires version < 0x1_0000 && e < 0x1_0000 && n < TWO48 && len < 0x1_0000
    ensures |NameOf(e, n)| == 8
    ensures var h := RecordHeader(typ, version, NameOf(e, n), len);
      && |h| == 13 && h[0] == typ && BigEndian(h[1..3]) == version && BigEndian(h[3..5]) == e
      && BigEndian(h[5..11]) == n && BigEndian(h[11..13]) == len
  {
    hide BigEndian, BigEndianBytes;
    var six := 6;
    PowersOf256(six);
    BigEndianOfBytes(n, six);
    HeaderParts(typ, U16(version), U16(e), BigEndianBytes(n, six), U16(len));
    TwoBytes(U16(version));
    TwoBytes(U16(e));
    TwoBytes(U16(len));
    U16Inverse(version);
    U16Inverse(e);
    U16Inverse(len);
  }

  lemma HeaderParts(t: byte, v: seq<byte>, e: seq<byte>, n: seq<byte>, l: seq<byte>)
    requires |v| == |e| == |l| == 2 && |n| == 6
    ensures var h := [t] + v + (e + n) + l; h[0] == t && h[1..3] == v && h[3..5] == e && h[5..11] == n && h[11..13] == l
  {
  }

  /** What stands in front of a sealed record is read back by the receiver, with the body and whatever follows it. */
  lemma RecordRoundTrip(typ: byte, version: nat, name: seq<byte>, body: seq<byte>, rest: seq<byte>)
    requires version < 0x1_0000 && |name| == 8 && |body| < 0x1_0000
    ensures ParseRecord(RecordHeader(typ, version, name, |body|) + body + rest) == Got(Record(typ, version, name, body), rest)
  {
    RecordParts(typ, U16(version), name, U16(|body|), body, rest);
    U16Inverse(version);
    U16Inverse(|body|);
  }

  lemma RecordParts(t: byte, v: seq<byte>, name: seq<byte>, l: seq<byte>, body: seq<byte>, rest: seq<byte>)
    requires |v| == |l| == 2 && |name| == 8
    ensures var bs := [t] + v + name + l + body + rest;
      && bs[0] == t && bs[1..3] == v && bs[3..11] == name && bs[11..13] == l
      && bs[13..13 + |body|] == body && bs[13 + |body|..] == rest
  {
  }

  class RecordWriter {
    const writeSequence: array<byte>
    const lastWriteSequence: array<byte>
    var epoch: nat
    ghost var view: Writer

    ghost predicate Valid()
      reads this, writeSequence, lastWriteSequence
    {
      && writeSequence != lastWriteSequence
      && writeSequence.Length == 8 && lastWriteSequence.Length == 8
      && epoch == EpochOf(view.changes)
      && BigEndian(writeSequence[2..]) == view.next < TWO48
      && BigEndian(lastWriteSequence[2..]) == view.last < TWO48
    }

    constructor ()
      ensures Valid() && fresh(writeSequence) && fresh(lastWriteSequence)
      ensures view == Writer(0, 0, 0, false, [])
    {
      writeSequence := new byte[8](_ => 0);
      lastWriteSequence := new byte[8](_ => 0);
      epoch := 0;
      view := Writer(0, 0, 0, false, []);
      new;
      ZeroBytes(writeSequence[2..]);
      ZeroBytes(lastWriteSequence[2..]);
    }

    /**
     dtls_seal_record. `version` is that of the cipher in use, and `sealed` what
     the cipher makes of the record: the ciphertext length, or None when it
     fails. The result is the header written in front of the ciphertext.
     */
    method SealRecord(maxOut: nat, typ: byte, version: nat, sealed: Option<nat>, previous: bool) returns (out: Option<seq<byte>>)
      requires Valid() && MayUse(view, previous) && version < 0x1_0000
      modifies this, writeSequence, lastWriteSequence
      ensures Valid() && epoch == old(epoch)
      ensures view == if maxOut < RECORD_HEADER_LENGTH || sealed.None? then old(view) else SealOnce(old(view), previous)
      ensures out.Some? ==>
        var name := if previous then NameOf(epoch - 1, old(view).last) else NameOf(epoch, old(view).next);
        && |name| == 8 && sealed.Some? && sealed.value < 0x1_0000 && out.value == RecordHeader(typ, version, name, sealed.value)
        && !(view.wrapped && !old(view).wrapped)
        && BigEndian(name) == if previous then (epoch - 1) * TWO48 + old(view).last else epoch * TWO48 + old(view).next
      ensures (out.Some? <==>
        && maxOut >= RECORD_HEADER_LENGTH && sealed.Some? && sealed.value < 0x1_0000
        && (if previous then old(view).last else old(view).next) + 1 < TWO48)
    {
      hide BigEndian, BigEndianBytes;
      var e := if previous then epoch - 1 else epoch;
      var counter := if previous then lastWriteSequence else writeSequence;
      if maxOut < RECORD_HEADER_LENGTH { return None; }
      var name := U16(e) + counter[2..];
      RecordName(e, counter[2..]);
      BytesOfBigEndian(counter[2..]);
      if sealed.None? { return None; }
      ghost var six: nat := 6;
      PowersOf256(six);
      var ok := SequenceUpdate(counter, 2);
      view := SealOnce(view, previous);
      if !ok || sealed.value >= 0x1_0000 { return None; }
      return Some([typ] + U16(version) + name + U16(sealed.value));
    }

    /** The record layer's part of dtls1_set_write_state. */
    method SetWriteState()
      requires Valid()
      modifies this, writeSequence, lastWriteSequence
      ensures Valid() && view == NewKeys(old(view))
    {
      hide BigEndian;
      epoch := (epoch + 1) % 0x1_0000;
      forall i | 0 <= i < 8 { lastWriteSequence[i] := writeSequence[i]; }
      assert lastWriteSequence[2..] == old(writeSequence[2..]);
      ghost var copied := lastWriteSequence[2..];
      forall i | 0 <= i < 8 { writeSequence[i] := 0; }
      assert lastWriteSequence[2..] == copied;
      ZeroBytes(writeSequence[2..]);
      view := NewKeys(view);
    }
  }

  lemma {:induction false} ZeroBytes(bs: seq<byte>)
    requires forall i | 0 <= i < |bs| :: bs[i] == 0
    ensures BigEndian(bs) == 0
  {
    if bs != [] { ZeroBytes(bs[..|bs| - 1]); }
  }

  /** The bytes that name a record are the number the receiver computes from them. */
  lemma RecordName(e: nat, six: seq<byte>)
    requires e < 0x1_0000 && |six| == 6
    ensures BigEndian(U16(e) + six) == e * TWO48 + BigEndian(six)
  {
    var bs := U16(e) + six;
    BigEndianSplit(bs, 2);
    var n := 6;
    PowersOf256(n);
    assert bs[2..] == six && bs[..2] == U16(e);
    EpochIsTop(bs);
    TwoBytes(U16(e));
  }
}
