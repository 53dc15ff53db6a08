/**
 The receiving record layer of DTLS: the 64-entry replay window, the acceptance
 test of a record, and the change of epoch. A record number is the 64-bit
 value made of the 16-bit epoch and the 48-bit sequence number.
 */
module DtlsReplay {
  import opened Common
  import opened Bits
  import opened DtlsFormat

  const WINDOW: nat := 64
  const MAX_PLAIN_LENGTH: nat := 16384
  const MAX_ENCRYPTED_LENGTH: nat := 16384 + 256 + 64

  // ---------- the window ----------

  /** Already recorded, or at least 64 below the largest recorded number. */
  ghost predicate Stale(seen: set<nat>, n: nat) {
    n in seen || exists m :: m in seen && n + 64 <= m
  }

  lemma SetBitBound(m: nat, idx: nat)
    requires m < TWO64 && idx < WINDOW
    ensures BitOr(m, Pow2(idx)) < TWO64
  {
    hide Pow2, BitOr;
    var w := WINDOW;
    Word64(w);
    Pow2Less(idx, w);
    BitOrBound(m, Pow2(idx), w);
  }

  lemma ShiftedBit(m: nat, shift: nat, k: nat)
    requires k < WINDOW
    ensures Bit(ShiftLeft(m, shift) % TWO64, k) <==> k >= shift && Bit(m, k - shift)
  {
    hide Pow2, Bit, ShiftLeft;
    var w := WINDOW;
    Word64(w);
    BitOfShift(m, shift, k);
    BitOfCut(ShiftLeft(m, shift), w, k);
  }

  class ReplayBitmap {
    var map_: nat
    var maxSeq: nat
    ghost var seen: set<nat>

    ghost predicate Valid()
      reads this
    {
      && map_ < TWO64 && maxSeq < TWO64
      && (seen == {} ==> maxSeq == 0)
      && (seen != {} ==> maxSeq in seen)
      && (forall n | n in seen :: n <= maxSeq)
      && (forall k: nat | k < WINDOW :: Bit(map_, k) <==> k <= maxSeq && maxSeq - k in seen)
    }

    /** All fields zero. */
    constructor ()
      ensures Valid() && seen == {}
    {
      map_, maxSeq, seen := 0, 0, {};
      new;
      forall k: nat ensures !Bit(0, k) { NoBits(k); }
    }

    method Clear()
      modifies this
      ensures Valid() && seen == {}
    {
      map_, maxSeq, seen := 0, 0, {};
      forall k: nat ensures !Bit(0, k) { NoBits(k); }
    }

    /** dtls1_bitmap_should_discard. */
    method ShouldDiscard(n: nat) returns (discard: bool)
      requires Valid()
      ensures discard <==> Stale(seen, n)
    {
      if n > maxSeq { return false; }
      var idx := maxSeq - n;
      assert idx < WINDOW ==> (Bit(map_, idx) <==> maxSeq - idx in seen);
      return idx >= WINDOW || Bit(map_, idx);
    }

    /** dtls1_bitmap_record. */
    method Record(n: nat)
      requires Valid() && n < TWO64
      modifies this
      ensures Valid() && seen == old(seen) + {n}
    {
      if n > maxSeq {
        Slide(n);
      }
      var idx := maxSeq - n;
      seen := seen + {n};
      if idx < WINDOW {
        ghost var before := map_;
        map_ := BitOr(map_, Pow2(idx));
        forall k: nat ensures Bit(map_, k) <==> Bit(before, k) || k == idx {
          BitOfOr(before, Pow2(idx), k);
          BitOfPower(idx, k);
        }
        SetBitBound(before, idx);
      }
    }

    /** The window moves forward to `n`, which is not yet recorded. */
    method Slide(n: nat)
      requires Valid() && maxSeq < n < TWO64
      modifies `map_, `maxSeq
      ensures maxSeq == n && map_ < TWO64
      ensures forall k: nat | k < WINDOW :: Bit(map_, k) <==> k <= n && n - k in seen
    {
      var shift := n - maxSeq;
      if shift >= WINDOW {
        map_ := 0;
        forall k: nat ensures !Bit(0, k) { NoBits(k); }
      } else {
        ghost var before := map_;
        map_ := ShiftLeft(map_, shift) % TWO64;
        forall k: nat | k < WINDOW ensures Bit(map_, k) <==> k <= n && n - k in seen {
          ShiftedBit(before, shift, k);
          if k >= shift { assert n - k == maxSeq - (k - shift); }
        }
      }
      maxSeq := n;
    }
  }

  // ---------- which records are accepted, over whole runs ----------

  /** Epoch changes so far, the numbers recorded in this epoch, and every number accepted, oldest first. */
  datatype Reader = Reader(changes: nat, seen: set<nat>, log: seq<nat>)

  function EpochOf(changes: nat): nat {
    changes % 0x1_0000
  }

  ghost predicate Acceptable(r: Reader, n: nat) {
    n < TWO64 && n / TWO48 == EpochOf(r.changes) && !Stale(r.seen, n)
  }

  ghost function Accept(r: Reader, n: nat): Reader {
    r.(seen := r.seen + {n}, log := r.log + [n])
  }

  ghost function NewEpoch(r: Reader): Reader {
    r.(changes := r.changes + 1, seen := {})
  }

  ghost predicate Next(r: Reader, r': Reader) {
    || r' == r
    || r' == NewEpoch(r)
    || exists n :: Acceptable(r, n) && r' == Accept(r, n)
  }

  ghost predicate IsRun(run: seq<Reader>) {
    && |run| > 0 && run[0] == Reader(0, {}, [])
    && forall i | 0 < i < |run| :: Next(run[i - 1], run[i])
  }

  ghost predicate Distinct<T(!new)>(s: seq<T>) {
    forall i, j | 0 <= i < j < |s| :: s[i] != s[j]
  }

  ghost predicate NothingTwice(r: Reader) {
    && Distinct(r.log)
    && (forall n | n in r.log :: n / TWO48 <= r.changes)
    && (forall n | n in r.log && n / TWO48 == r.changes :: n in r.seen)
  }

  lemma AcceptKeeps(r: Reader, n: nat)
    requires NothingTwice(r) && r.changes < 0x1_0000 && Acceptable(r, n)
    ensures NothingTwice(Accept(r, n))
  {
    assert n !in r.log;
  }

  lemma {:induction false} RunKeeps(run: seq<Reader>)
    requires IsRun(run) && run[|run| - 1].changes < 0x1_0000
    ensures NothingTwice(run[|run| - 1])
    decreases |run|
  {
    if |run| > 1 {
      var before, r := run[..|run| - 1], run[|run| - 2];
      assert Next(r, run[|run| - 1]);
      RunKeeps(before);
      if run[|run| - 1] == NewEpoch(r) {
      } else if run[|run| - 1] != r {
        var n :| Acceptable(r, n) && run[|run| - 1] == Accept(r, n);
        AcceptKeeps(r, n);
      }
    }
  }

  /** Epoch 0 accepts number 0, then the epoch changes until it is 0 again. */
  ghost function WrapRun(c: nat): (run: seq<Reader>)
    requires c >= 0x1_0000
  {
    [Reader(0, {}, []), Reader(0, {0}, [0])] +
    seq(0x1_0000, i requires 0 <= i => Reader(i + 1, {}, [0])) +
    [Reader(0x1_0000, {0}, [0, 0])] +
    seq(c - 0x1_0000, i requires 0 <= i => Reader(0x1_0001 + i, {}, [0, 0]))
  }

  lemma WrapIsRun(c: nat)
    requires c >= 0x1_0000
    ensures var run := WrapRun(c);
      IsRun(run) && run[|run| - 1].changes == c && !Distinct(run[|run| - 1].log)
  {
    var run := WrapRun(c);
    var log := run[|run| - 1].log;
    assert log[0] == log[1];
    forall i | 0 < i < |run| ensures Next(run[i - 1], run[i]) {
      if i == 1 {
        assert Acceptable(run[0], 0) && run[1] == Accept(run[0], 0);
      } else if i == 0x1_0002 {
        assert Acceptable(run[i - 1], 0) && run[i] == Accept(run[i - 1], 0);
      } else {
        assert run[i] == NewEpoch(run[i - 1]);
      }
    }
  }

  /** No number is accepted twice in any run with fewer than 2^16 epoch changes; with that many or more, one can be. */
  lemma NoReplayUntilEpochWrap(c: nat)
    ensures (forall run: seq<Reader> | IsRun(run) && run[|run| - 1].changes == c :: Distinct(run[|run| - 1].log)) <==> c < 0x1_0000
  {
    if c < 0x1_0000 {
      forall run: seq<Reader> | IsRun(run) && run[|run| - 1].changes == c ensures Distinct(run[|run| - 1].log) { RunKeeps(run); }
    } else {
      WrapIsRun(c);
      var run := WrapRun(c);
      assert IsRun(run) && run[|run| - 1].changes == c;
    }
  }

  // ---------- dtls_open_record ----------

  datatype RecordResult = Accepted(typ: byte, plain: seq<byte>) | AlertReceived(plain: seq<byte>) |
    Dropped | NeedMore | CloseNotify | Overflow

  const RT_ALERT: byte := 21
  const VERSION_MAJOR: nat := 0xFE

  /** `sequence` is the 16-bit epoch and the 48-bit sequence number. */
  datatype Record = Record(typ: byte, version: nat, sequence: seq<byte>, body: seq<byte>)

  /** The 13-byte record header and the body it announces. */
  function ParseRecord(bs: seq<byte>): (r: Read<Record>)
    ensures r.Got? ==> |r.value.sequence| == 8 && |bs| == RECORD_HEADER_LENGTH + |r.value.body| + |r.rest|
  {
    if |bs| < RECORD_HEADER_LENGTH then Fail
    else
      var len := FromU16(bs[11..13]);
      if |bs| - RECORD_HEADER_LENGTH < len then Fail
      else Got(Record(bs[0], FromU16(bs[1..3]), bs[3..11], bs[13..13 + len]), bs[13 + len..])
  }

  ghost function NumberOf(rec: Record): nat {
    BigEndian(rec.sequence)
  }

  /** to_u64_be. */
  method ToU64(bs: seq<byte>) returns (ret: nat)
    requires |bs| == 8
    ensures ret == BigEndian(bs) < TWO64
  {
    EpochIsTop(bs);
    ret := 0;
    for i := 0 to 8
      invariant ret == BigEndian(bs[..i])
    {
      assert bs[..i + 1][..i] == bs[..i];
      ret := ret * 256 + bs[i];
    }
    assert bs[..8] == bs;
  }

  /** A record that can be read: whole, not too long, and of the right version, of which only the first byte counts before the first key change. */
  ghost predicate Framed(r: Reader, input: seq<byte>, version: nat) {
    match ParseRecord(input)
    case Fail => false
    case Got(rec, _) =>
      && |rec.body| <= 16384 + 320
      && if r.changes == 0 then rec.version / 256 == 0xFE else rec.version == version
  }

  class RecordReader {
    const bitmap: ReplayBitmap
    var epoch: nat
    var nullCipher: bool
    var closed: bool
    ghost var view: Reader

    ghost predicate Valid()
      reads this, bitmap
    {
      bitmap.Valid() && bitmap.seen == view.seen && epoch == EpochOf(view.changes) && (nullCipher <==> view.changes == 0)
    }

    constructor ()
      ensures Valid() && fresh(bitmap) && view == Reader(0, {}, [])
    {
      bitmap := new ReplayBitmap();
      epoch, nullCipher, closed := 0, true, false;
      view := Reader(0, {}, []);
    }

    predicate VersionOk(rec: Record, version: nat)
      reads this
    {
      if nullCipher then rec.version / 256 == VERSION_MAJOR else rec.version == version
    }

    /**
     dtls_open_record. `open` is the cipher: it gives the plaintext of an
     authentic record and None of any other. `version` is the one it expects.
     */
    method OpenRecord(input: seq<byte>, version: nat, open: Record -> Option<seq<byte>>)
      returns (out: RecordResult, consumed: nat)
      requires Valid()
      modifies this, bitmap
      ensures Valid()
      ensures closed ==> (out, consumed) == (CloseNotify, 0)
      ensures !closed && input == [] ==> (out, consumed) == (NeedMore, 0)
      ensures !closed && input != [] && !Framed(old(view), input, version) ==> (out, consumed) == (Dropped, |input|)
      ensures !closed && Framed(old(view), input, version) ==>
        var rec := ParseRecord(input).value;
        && consumed == 13 + |rec.body|
        && (out.Dropped? <==> !Acceptable(old(view), NumberOf(rec)) || open(rec).None?)
        && (out.Overflow? <==> Acceptable(old(view), NumberOf(rec)) && open(rec).Some? && |open(rec).value| > 16384)
        && (out.AlertReceived? ==> rec.typ == 21 && open(rec) == Some(out.plain))
        && (out.Accepted? ==> rec.typ == out.typ != 21 && open(rec) == Some(out.plain))
        && !out.CloseNotify? && !out.NeedMore?
      ensures view == if out.Accepted? || out.AlertReceived? then Accept(old(view), NumberOf(ParseRecord(input).value)) else old(view)
      ensures unchanged(`closed) && unchanged(`nullCipher) && unchanged(`epoch)
    {
      if closed { return CloseNotify, 0; }
      if |input| == 0 { return NeedMore, 0; }
      match ParseRecord(input)
      case Fail => return Dropped, |input|;
      case Got(rec, rest) =>
        if |rec.body| > MAX_ENCRYPTED_LENGTH { return Dropped, |input|; }
        if !VersionOk(rec, version) { return Dropped, |input|; }
        consumed := |input| - |rest|;
        EpochIsTop(rec.sequence);
        var number := ToU64(rec.sequence);
        var stale := bitmap.ShouldDiscard(number);
        if FromU16(rec.sequence[..2]) != epoch || stale { return Dropped, consumed; }
        var plain := open(rec);
        if plain.None? { return Dropped, consumed; }
        if |plain.value| > MAX_PLAIN_LENGTH { return Overflow, consumed; }
        bitmap.Record(number);
        view := Accept(view, number);
        if rec.typ == RT_ALERT { return AlertReceived(plain.value), consumed; }
        return Accepted(rec.typ, plain.value), consumed;
    }

    /** The record layer's part of dtls1_set_read_state. */
    method SetReadState()
      requires Valid()
      modifies this, bitmap
      ensures Valid() && view == NewEpoch(old(view))
    {
      epoch := (epoch + 1) % 0x1_0000;
      bitmap.Clear();
      nullCipher := false;
      view := NewEpoch(view);
    }
  }
}
