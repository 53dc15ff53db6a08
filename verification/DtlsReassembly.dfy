/**
 A handshake message being put together from fragments, and the packed bitmask
 that remembers which of its bytes have arrived. The mask is released when the
 message is whole.
 */
module DtlsReassembly {
  import opened Common
  import opened DtlsFormat

  // ---------- bits of a byte ----------

  predicate Bit(b: bv8, k: nat)
    requires k < 8
  {
    b & (1 << k) != 0
  }

  /** bit_range: 32-bit arithmetic cut to a byte. */
  function BitRange(start: nat, end: nat): bv8
    requires start < 8 && end <= 8
  {
    var wide: bv32 := !((1 << start) - 1) & ((1 << end) - 1);
    (wide & 0xFF) as bv8
  }

  lemma RangeBits(start: nat, end: nat, k: nat)
    requires start < 8 && end <= 8 && k < 8
    ensures Bit(BitRange(start, end), k) <==> start <= k < end
  {
  }

  lemma OrBits(a: bv8, b: bv8, k: nat)
    requires k < 8
    ensures Bit(a | b, k) <==> Bit(a, k) || Bit(b, k)
  {
  }

  lemma OrRange(a: bv8, start: nat, end: nat)
    requires start < 8 && end <= 8
    ensures forall k: nat | k < 8 :: Bit(a | BitRange(start, end), k) <==> Bit(a, k) || start <= k < end
  {
    hide Bit, BitRange;
    forall k: nat | k < 8 ensures Bit(a | BitRange(start, end), k) <==> Bit(a, k) || start <= k < end {
      OrBits(a, BitRange(start, end), k);
      RangeBits(start, end, k);
    }
  }

  /** A byte equals the mask of its lowest `n` bits exactly when those and no others are set. */
  lemma LowMask(a: bv8, n: nat)
    requires n <= 8
    ensures a == BitRange(0, n) <==> forall k: nat | k < 8 :: Bit(a, k) <==> k < n
  {
    var m := BitRange(0, n);
    forall k: nat | k < 8 ensures Bit(m, k) <==> k < n { RangeBits(0, n, k); }
    if forall k: nat | k < 8 :: Bit(a, k) <==> k < n {
      forall k: nat | k < 8 ensures Bit(a, k) <==> Bit(m, k) {}
      SameBits(a, m);
    }
  }

  lemma SameBits(a: bv8, b: bv8)
    requires forall k: nat | k < 8 :: Bit(a, k) <==> Bit(b, k)
    ensures a == b
  {
    assert Bit(a, 0) == Bit(b, 0) && Bit(a, 1) == Bit(b, 1) && Bit(a, 2) == Bit(b, 2) && Bit(a, 3) == Bit(b, 3);
    assert Bit(a, 4) == Bit(b, 4) && Bit(a, 5) == Bit(b, 5) && Bit(a, 6) == Bit(b, 6) && Bit(a, 7) == Bit(b, 7);
  }

  lemma AllOnes()
    ensures BitRange(0, 8) == 0xFF
    ensures forall k: nat | k < 8 :: Bit(0xFF, k)
  {
  }

  // ---------- the fragment ----------

  predicate Within(i: nat, start: nat, end: nat) {
    start <= i < end
  }

  ghost function Between(start: nat, end: nat): set<nat> {
    set i: nat | i < end && Within(i, start, end)
  }

  ghost function Upto(n: nat): set<nat> {
    Between(0, n)
  }

  lemma Adjacent(a: nat, b: nat, c: nat)
    requires a <= b <= c
    ensures Between(a, b) + Between(b, c) == Between(a, c)
  {
  }

  /** The mask bytes stand for exactly the set `got`. */
  ghost predicate Marks(mask: seq<bv8>, got: set<nat>) {
    && (forall i: nat | i < 8 * |mask| :: Bit(mask[i / 8], i % 8) <==> i in got)
    && (forall i: nat | i in got :: i < 8 * |mask|)
  }

  /** Marking one byte of the mask with the bits from `start` to `end`. */
  lemma MarkByte(mask: seq<bv8>, got: set<nat>, j: nat, start: nat, end: nat, b: bv8)
    requires Marks(mask, got) && j < |mask| && start < 8 && end <= 8 && start <= end
    requires forall k: nat | k < 8 :: Bit(b, k) <==> Bit(mask[j], k) || start <= k < end
    ensures Marks(mask[j := b], got + Between(8 * j + start, 8 * j + end))
  {
    hide Bit;
    var mask', got' := mask[j := b], got + Between(8 * j + start, 8 * j + end);
    forall i: nat | i < 8 * |mask'| ensures Bit(mask'[i / 8], i % 8) <==> i in got' {
      assert i == 8 * (i / 8) + i % 8;
      if i / 8 == j {
        assert Bit(b, i % 8) <==> Bit(mask[j], i % 8) || start <= i % 8 < end;
      }
    }
  }

  lemma MarkEnd(mask: seq<bv8>, got: set<nat>, j: nat, start: nat, end: nat)
    requires Marks(mask, got) && j < |mask| && start < 8 && end <= 8 && start <= end
    ensures Marks(mask[j := mask[j] | BitRange(start, end)], got + Between(8 * j + start, 8 * j + end))
  {
    OrRange(mask[j], start, end);
    MarkByte(mask, got, j, start, end, mask[j] | BitRange(start, end));
  }

  /** The completeness test on the bytes is a test of the set. */
  ghost predicate MaskFull(mask: seq<bv8>, n: nat)
    requires |mask| == (n + 7) / 8
  {
    && (forall j: nat | j < n / 8 :: mask[j] == 0xFF)
    && (n % 8 != 0 ==> mask[n / 8] == BitRange(0, n % 8))
  }

  lemma BitOfMask(mask: seq<bv8>, got: set<nat>, j: nat, k: nat)
    requires Marks(mask, got) && j < |mask| && k < 8
    ensures Bit(mask[j], k) <==> 8 * j + k in got
  {
    hide Bit;
    var i := 8 * j + k;
    assert i / 8 == j && i % 8 == k && i < 8 * |mask|;
  }

  lemma FullByte(mask: seq<bv8>, got: set<nat>, j: nat, n: nat)
    requires Marks(mask, got) && j < |mask| && n <= 8
    requires forall i: nat | i in got :: i < 8 * j + n || i >= 8 * j + 8
    ensures mask[j] == BitRange(0, n) <==> Between(8 * j, 8 * j + n) <= got
  {
    hide Bit, BitRange, Marks;
    LowMask(mask[j], n);
    forall k: nat | k < 8 ensures Bit(mask[j], k) <==> 8 * j + k in got {
      BitOfMask(mask, got, j, k);
    }
    if Between(8 * j, 8 * j + n) <= got {
      forall k: nat | k < 8 ensures Bit(mask[j], k) <==> k < n {
        if k < n { assert 8 * j + k in Between(8 * j, 8 * j + n); }
      }
    }
    if forall k: nat | k < 8 :: Bit(mask[j], k) <==> k < n {
      forall i: nat | i in Between(8 * j, 8 * j + n) ensures i in got {
        assert Bit(mask[j], i - 8 * j);
      }
    }
  }

  lemma MaskFullMeansAll(mask: seq<bv8>, got: set<nat>, n: nat)
    requires |mask| == (n + 7) / 8 && Marks(mask, got) && got <= Upto(n)
    ensures MaskFull(mask, n) <==> got == Upto(n)
  {
    hide Marks, BitRange, Bit;
    AllOnes();
    if MaskFull(mask, n) {
      forall i: nat | i < n ensures i in got {
        var j := i / 8;
        var w := if j < n / 8 then 8 else n % 8;
        FullByte(mask, got, j, w);
        assert i in Between(8 * j, 8 * j + w);
      }
    }
    if got == Upto(n) {
      forall j: nat | j < |mask| ensures mask[j] == BitRange(0, if j < n / 8 then 8 else n % 8) {
        FullByte(mask, got, j, if j < n / 8 then 8 else n % 8);
      }
    }
  }

  /** The bytes received so far, by offset, after one more fragment is copied in. */
  ghost function Overlay(got: map<nat, byte>, off: nat, body: seq<byte>): (r: map<nat, byte>)
    ensures r.Keys == got.Keys + Between(off, off + |body|)
  {
    map i: nat | i in got.Keys + Between(off, off + |body|) :: if off <= i < off + |body| then body[i - off] else got[i]
  }

  class HmFragment {
    const typ: byte
    const number: nat
    const msgLen: nat
    const data: array<byte>
    var reassembly: array?<bv8>
    ghost var received: set<nat>
    ghost const Repr: set<object>

    ghost predicate Valid()
      reads this, Repr
    {
      && this in Repr && data in Repr && (reassembly != null ==> reassembly in Repr)
      && data.Length == msgLen && data as object != reassembly
      && received <= Upto(msgLen)
      && (reassembly == null <==> received == Upto(msgLen))
      && (reassembly != null ==> reassembly.Length == (msgLen + 7) / 8 && Marks(reassembly[..], received))
    }

    lemma Facts()
      requires Valid()
      ensures this in Repr && data in Repr && data.Length == msgLen && received <= Upto(msgLen)
      ensures reassembly == null <==> received == Upto(msgLen)
    {
    }

    /** What has arrived of the message. */
    ghost function Got(): (g: map<nat, byte>)
      requires received <= Upto(data.Length)
      reads this, data
      ensures g.Keys == received
    {
      map i: nat | i in received :: data[i]
    }

    /** dtls1_hm_fragment_new: nothing received yet; an empty message needs no mask. */
    constructor (typ: byte, number: nat, msgLen: nat)
      ensures Valid() && received == {}
      ensures this.typ == typ && this.number == number && this.msgLen == msgLen
      ensures fresh(Repr)
    {
      this.typ, this.number, this.msgLen := typ, number, msgLen;
      var buffer := new byte[msgLen];
      var mask := new bv8[(msgLen + 7) / 8](_ => 0);
      data := buffer;
      received := {};
      reassembly := if msgLen > 0 then mask else null;
      Repr := {this, buffer, mask};
      new;
      assert msgLen > 0 ==> 0 in Upto(msgLen);
    }

    /** The copy into the buffer and the mark after it. */
    method Store(off: nat, body: seq<byte>)
      requires Valid() && reassembly != null && off + |body| <= msgLen
      modifies Repr
      ensures Valid() && Got() == Overlay(old(Got()), off, body)
      ensures reassembly == null || reassembly == old(reassembly)
    {
      hide Marks;
      forall k | 0 <= k < |body| { data[off + k] := body[k]; }
      assert reassembly[..] == old(reassembly[..]);
      Mark(off, off + |body|);
      assert forall i: nat | i in received && i !in Between(off, off + |body|) :: data[i] == old(data[i]);
    }

    /** dtls1_hm_fragment_mark. */
    method Mark(start: nat, end: nat)
      requires Valid() && reassembly != null && start <= end <= msgLen
      modifies this, reassembly
      ensures Valid() && received == old(received) + Between(start, end)
      ensures reassembly == null || reassembly == old(reassembly)
    {
      hide Bit, BitRange, Marks;
      if start == end {
        assert Between(start, end) == {};
        return;
      }
      var first, last := start / 8, end / 8;
      var mask := reassembly;
      if first == last {
        MarkPart(first, start % 8, end % 8);
      } else {
        MarkPart(first, start % 8, 8);
        var i := first + 1;
        while i < last
          invariant first + 1 <= i <= last && reassembly == mask
          invariant reassembly.Length == (msgLen + 7) / 8
          invariant received == old(received) + Between(start, 8 * i)
          invariant Marks(reassembly[..], received)
        {
          FillByte(i);
          Adjacent(start, 8 * i, 8 * i + 8);
          i := i + 1;
        }
        if end % 8 != 0 {
          MarkPart(last, 0, end % 8);
          Adjacent(start, 8 * last, end);
        }
      }
      assert received == old(received) + Between(start, end);
      var complete := IsFull();
      MaskFullMeansAll(reassembly[..], received, msgLen);
      if complete {
        reassembly := null;
      }
    }

    /** A byte wholly inside the range is set to 0xff. */
    method FillByte(j: nat)
      requires reassembly != null && reassembly.Length == (msgLen + 7) / 8 && Marks(reassembly[..], received)
      requires j < reassembly.Length
      modifies `received, reassembly
      ensures received == old(received) + Between(8 * j, 8 * j + 8)
      ensures Marks(reassembly[..], received)
    {
      hide Bit, BitRange;
      ghost var before := reassembly[..];
      AllOnes();
      MarkByte(before, received, j, 0, 8, 0xFF);
      reassembly[j] := 0xFF;
      received := received + Between(8 * j, 8 * j + 8);
      assert reassembly[..] == before[j := 0xFF];
    }

    /** A byte at an end of the range gains the bits from `start` to `end`. */
    method MarkPart(j: nat, start: nat, end: nat)
      requires reassembly != null && reassembly.Length == (msgLen + 7) / 8 && Marks(reassembly[..], received)
      requires j < reassembly.Length && start < 8 && start <= end <= 8
      modifies `received, reassembly
      ensures received == old(received) + Between(8 * j + start, 8 * j + end)
      ensures Marks(reassembly[..], received)
    {
      hide Bit, BitRange, Marks;
      ghost var before := reassembly[..];
      MarkEnd(before, received, j, start, end);
      reassembly[j] := reassembly[j] | BitRange(start, end);
      received := received + Between(8 * j + start, 8 * j + end);
      assert reassembly[..] == before[j := before[j] | BitRange(start, end)];
    }

    method IsFull() returns (full: bool)
      requires reassembly != null && reassembly.Length == (msgLen + 7) / 8
      ensures full <==> MaskFull(reassembly[..], msgLen)
    {
      hide BitRange;
      var i := 0;
      while i < msgLen / 8
        invariant 0 <= i <= msgLen / 8
        invariant forall j: nat | j < i :: reassembly[j] == 0xFF
      {
        if reassembly[i] != 0xFF { return false; }
        i := i + 1;
      }
      full := msgLen % 8 == 0 || reassembly[msgLen / 8] == BitRange(0, msgLen % 8);
    }
  }
}
