/**
 The bytes themselves, bit by bit: which code a signed value gets, how a varint
 and a fixed-width integer are laid out, what a field's key is made of, and what
 the decoders make of any bytes at all.
 */
module PbForm {
  import opened Common
  import opened Bits
  import opened PbWire
  import opened PbSchema
  import opened PbEncodeSpec
  import opened PbDecodeSpec

  // ---------- bits ----------

  lemma BitsAbove7(v: nat, k: nat)
    ensures Bit(v, k + 7) <==> Bit(v / 128, k)
  {
    assert Bit(v, k + 7) == Bit(v / 2, k + 6) == Bit(v / 4, k + 5) == Bit(v / 8, k + 4) == Bit(v / 16, k + 3);
    assert Bit(v / 16, k + 3) == Bit(v / 32, k + 2) == Bit(v / 64, k + 1) == Bit(v / 128, k);
  }

  lemma BitsAbove8(v: nat, k: nat)
    ensures Bit(v, k + 8) <==> Bit(v / 256, k)
  {
    BitsAbove7(v, k + 1);
    assert Bit(v / 128, k + 1) == Bit(v / 256, k);
  }

  lemma BitsBelow7(v: nat, k: nat)
    requires k < 7
    ensures Bit(v % 128, k) <==> Bit(v, k)
    ensures Bit(v % 128 + 128, k) <==> Bit(v, k)
  {
    var seven := 7;
    Pow2Values(seven);
    BitOfCut(v, seven, k);
    BitOfCut(v % 128 + 128, seven, k);
    assert (v % 128 + 128) % 128 == v % 128;
  }

  lemma BitsBelow8(v: nat, k: nat)
    requires k < 8
    ensures Bit(v % 256, k) <==> Bit(v, k)
  {
    var eight := 8;
    assert Pow2(eight) == 256;
    BitOfCut(v, eight, k);
  }

  /** All bits the other way round. */
  lemma {:induction false} Complement(x: nat, w: nat, k: nat)
    requires k < w && x < Pow2(w)
    ensures Bit(Pow2(w) - 1 - x, k) <==> !Bit(x, k)
  {
    Pow2Double(w - 1);
    var p := Pow2(w - 1);
    if k > 0 {
      assert (2 * p - 1 - x) / 2 == p - 1 - x / 2;
      Complement(x / 2, w - 1, k - 1);
    }
  }

  // ---------- signed integers ----------

  /** The code of a signed value: the sign in bit 0, and above it the bits of the value, turned round when it is negative. */
  lemma ZigZagBits(n: int, k: nat)
    requires -TWO63 <= n < TWO63 && k < 64
    ensures Bit(ZigZag(n), 0) <==> n < 0
    ensures Bit(ZigZag(n), k + 1) <==> (Bit(AsUnsigned64(n), k) != (n < 0))
  {
    assert Bit(ZigZag(n), k + 1) == Bit(ZigZag(n) / 2, k);
    if n < 0 {
      var w := 64;
      Word64(w);
      Complement(AsUnsigned64(n), w, k);
      assert ZigZag(n) / 2 == -n - 1 == TWO64 - 1 - AsUnsigned64(n);
    }
  }

  /** Every code is that of one value. */
  lemma ZigZagOnto(v: nat)
    requires v < TWO64
    ensures ZigZag(UnZigZag(v)) == v
  {
  }

  // ---------- varints ----------

  /** Byte i of a varint carries bits 7i to 7i + 6; its top bit says that another byte follows; no byte is there for nothing. */
  lemma {:induction false} VarintForm(v: nat, i: nat, k: nat)
    requires i < |VarintBytes(v)| && k < 7
    ensures var b := VarintBytes(v)[i];
      && (b >= 128 <==> i < |VarintBytes(v)| - 1)
      && (Bit(b, k) <==> Bit(v, 7 * i + k))
      && (b == 0 ==> |VarintBytes(v)| == 1)
    decreases i
  {
    BitsBelow7(v, k);
    if i > 0 {
      assert VarintBytes(v)[i] == VarintBytes(v / 128)[i - 1];
      VarintForm(v / 128, i - 1, k);
      BitsAbove7(v, 7 * (i - 1) + k);
      assert 7 * i + k == 7 * (i - 1) + k + 7;
      if |VarintBytes(v / 128)| == 1 { assert v / 128 > 0; }
    }
  }

  /** And there are no bits beyond its last byte. */
  lemma {:induction false} VarintEnds(v: nat, k: nat)
    requires k >= 7 * |VarintBytes(v)|
    ensures !Bit(v, k)
    decreases v
  {
    BitsAbove7(v, k - 7);
    if v <= 0x7F { NoBits(k - 7); } else { VarintEnds(v / 128, k - 7); }
  }

  /** The place of the first byte whose top bit is clear. */
  function Stop(bs: seq<byte>): (n: nat)
    ensures n <= |bs| && (n < |bs| ==> bs[n] < 128) && forall j | 0 <= j < n :: bs[j] >= 128
  {
    if bs == [] || bs[0] < 128 then 0 else 1 + Stop(bs[1..])
  }

  /** Where the loop stops, and whether it accepts. */
  lemma {:induction false} GathersUpTo(bs: seq<byte>, bitpos: nat, acc: nat)
    requires bitpos < 64 && acc < Pow2(bitpos)
    ensures var n, r := Stop(bs), Varint64From(bs, bitpos, acc);
      && (r.Got? <==> n < |bs| && bitpos + 7 * n < 64)
      && (r.Got? ==> r.rest == bs[n + 1..] && r.value < TWO64)
    decreases |bs|
  {
    hide BitOr, Pow2, ShiftLeft, OrIn;
    if bs != [] {
      var w := 64;
      Word64(w);
      GroupFits(acc, bs[0], bitpos, w);
      if bs[0] >= 128 && bitpos + 7 < 64 { GathersUpTo(bs[1..], bitpos + 7, OrIn(acc, Low7(bs[0]), bitpos, TWO64)); }
    }
  }

  lemma NextGroup(bs: seq<byte>, bitpos: nat, acc: nat)
    requires bitpos < 64 && bs != []
    ensures Varint64From(bs, bitpos, acc) ==
      var acc' := OrIn(acc, Low7(bs[0]), bitpos, TWO64);
      if bs[0] >= 128 then Varint64From(bs[1..], bitpos + 7, acc') else Got(acc', bs[1..])
    ensures Stop(bs) == if bs[0] >= 128 then 1 + Stop(bs[1..]) else 0
  {
    hide BitOr, Pow2, ShiftLeft, OrIn;
  }

  /** Bits below `bitpos` are those gathered before; above it, seven from each byte. */
  lemma {:induction false} GathersBits(bs: seq<byte>, bitpos: nat, acc: nat, k: nat)
    requires bitpos < 64 && acc < Pow2(bitpos) && k < 64 && Varint64From(bs, bitpos, acc).Got?
    ensures Bit(Varint64From(bs, bitpos, acc).value, k) <==>
      if k < bitpos then Bit(acc, k) else BitOfGroups(bs, k - bitpos)
    decreases |bs|
  {
    hide BitOr, Bit, Pow2, ShiftLeft, OrIn, Varint64From, Stop;
    if bs == [] { assert false by { GathersUpTo(bs, bitpos, acc); } }
    NextGroup(bs, bitpos, acc);
    var w := 64;
    Word64(w);
    OneGroup(acc, bs[0], bitpos, w, k);
    if bs[0] >= 128 {
      GathersUpTo(bs, bitpos, acc);
      GroupFits(acc, bs[0], bitpos, w);
      GathersBits(bs[1..], bitpos + 7, OrIn(acc, Low7(bs[0]), bitpos, TWO64), k);
    }
  }

  /** Bit k of the groups of seven bits up to the first byte whose top bit is clear. */
  predicate BitOfGroups(bs: seq<byte>, k: nat) {
    if bs == [] then false
    else if k < 7 then Bit(bs[0], k)
    else bs[0] >= 128 && BitOfGroups(bs[1..], k - 7)
  }

  lemma {:induction false} GroupAt(bs: seq<byte>, i: nat, j: nat)
    requires Stop(bs) < |bs| && j < 7
    ensures BitOfGroups(bs, 7 * i + j) <==> i <= Stop(bs) && Bit(bs[i], j)
    decreases i
  {
    if i > 0 && bs[0] >= 128 { GroupAt(bs[1..], i - 1, j); }
  }

  lemma LowBitsOf(b: byte, j: nat)
    ensures Bit(Low7(b), j) <==> j < 7 && Bit(b, j)
  {
    assert Low7(b) == b % 128 && Low7(b) / 128 == 0;
    if j < 7 {
      BitsBelow7(b, j);
    } else {
      BitsAbove7(Low7(b), j - 7);
      NoBits(j - 7);
    }
  }

  lemma GroupFits(acc: nat, b: byte, bitpos: nat, w: nat)
    requires bitpos < w && acc < Pow2(bitpos)
    ensures var acc' := OrIn(acc, Low7(b), bitpos, Pow2(w)); acc' < Pow2(w) && (bitpos + 7 < w ==> acc' < Pow2(bitpos + 7))
  {
    hide BitOr, Pow2;
    OrInIsBitOr(acc, Low7(b), bitpos, w);
    Pow2Less(bitpos, w);
    BitOrBound(acc, ShiftLeft(Low7(b), bitpos) % Pow2(w), w);
    if bitpos + 7 < w {
      Pow2Less(bitpos + 7, w);
      MulUpTo(Low7(b), 127, Pow2(bitpos));
      SevenMore(bitpos);
      Gather(acc, Low7(b), bitpos, Pow2(w));
    }
  }

  lemma SevenMore(n: nat)
    ensures Pow2(n + 7) == 128 * Pow2(n)
  {
  }

  lemma OneGroup(acc: nat, b: byte, bitpos: nat, w: nat, k: nat)
    requires bitpos < w && acc < Pow2(bitpos) && k < w
    ensures var acc' := OrIn(acc, Low7(b), bitpos, Pow2(w));
      Bit(acc', k) <==> if k < bitpos then Bit(acc, k) else k - bitpos < 7 && Bit(b, k - bitpos)
  {
    hide BitOr, Bit, Pow2, ShiftLeft, OrIn;
    OrInIsBitOr(acc, Low7(b), bitpos, w);
    BitOfOr(acc, ShiftLeft(Low7(b), bitpos) % Pow2(w), k);
    BitOfCut(ShiftLeft(Low7(b), bitpos), w, k);
    BitOfShift(Low7(b), bitpos, k);
    if k >= bitpos {
      LowBitsOf(b, k - bitpos);
      BitsOfSmall(acc, bitpos, k);
    }
  }

  /** A number below 2 to the n has no bits from n on. */
  lemma BitsOfSmall(x: nat, n: nat, k: nat)
    requires x < Pow2(n) && n <= k
    ensures !Bit(x, k)
  {
    hide Pow2, Bit;
    BitOfCut(x, n, k);
    SmallModulo(x, Pow2(n));
  }

  /**
   On any bytes: the 64-bit decoder accepts them exactly when one of the first
   ten has a clear top bit; it takes the bytes up to that one, and bit 7i + j of
   what it answers is bit j of byte i. Bits from 64 on are dropped.
   */
  lemma Varint64Exactly(bs: seq<byte>, i: nat, j: nat)
    requires j < 7 && 7 * i + j < 64
    ensures var n, r := Stop(bs), Varint64(bs);
      && (r.Got? <==> n < |bs| && n < 10)
      && (r.Got? ==> r.rest == bs[n + 1..] && r.value < TWO64 && (Bit(r.value, 7 * i + j) <==> i <= n && Bit(bs[i], j)))
  {
    hide Varint64From, Bit, BitOfGroups;
    var zero := 0;
    GathersUpTo(bs, zero, zero);
    if Varint64(bs).Got? {
      GathersBits(bs, zero, zero, 7 * i + j);
      GroupAt(bs, i, j);
    }
  }

  // ---------- the 32-bit decoder ----------

  /** Above bit 34 a byte must be nothing but its top bit, or continue a set bit 31 as a sign does. */
  predicate SignGroup(b: byte, i: nat, negative: bool) {
    b % 128 == 0 || (negative && b == if i < 9 then 0xFF else 0x01)
  }

  /** All of them, from byte i of the whole on up to the one whose top bit is clear. */
  predicate SignGroups(bs: seq<byte>, i: nat, negative: bool) {
    bs != [] && SignGroup(bs[0], i, negative) && (bs[0] >= 128 ==> SignGroups(bs[1..], i + 1, negative))
  }

  lemma {:induction false} SignGroupsMean(bs: seq<byte>, m: nat, negative: bool)
    requires m <= Stop(bs) < |bs|
    ensures SignGroups(bs[m..], m, negative) <==> forall g | m <= g <= Stop(bs) :: SignGroup(bs[g], g, negative)
    decreases Stop(bs) - m
  {
    hide SignGroup;
    assert bs[m..][1..] == bs[m + 1..];
    if m < Stop(bs) { SignGroupsMean(bs, m + 1, negative); }
  }

  lemma HighStep32(b: byte, i: nat, result: nat)
    requires 5 <= i < 37
    ensures Varint32Step(b, 7 * i, result) == if SignGroup(b, i, result >= TWO31) then Some(result) else None
    ensures NextBitpos(7 * i) == if i == 36 then 3 else 7 * (i + 1)
  {
    hide OrIn;
    assert Low7(b) == b % 128;
  }

  lemma LoopStep32(bs: seq<byte>, bitpos: nat, result: nat)
    requires bs != []
    ensures Varint32From(bs, bitpos, result) ==
      match Varint32Step(bs[0], bitpos, result)
      case None => Fail
      case Some(result') =>
        if bs[0] >= 128 then Varint32From(bs[1..], NextBitpos(bitpos), result')
        else if NextBitpos(bitpos) == 35 && bs[0] >= 16 then Fail
        else Got(result', bs[1..])
  {
    hide Varint32Step, NextBitpos;
  }

  lemma HighGroup(bs: seq<byte>, i: nat, result: nat)
    requires 5 <= i < 37 && bs != []
    ensures Varint32From(bs, 7 * i, result) ==
      if !SignGroup(bs[0], i, result >= TWO31) then Fail
      else if bs[0] < 128 then Got(result, bs[1..])
      else Varint32From(bs[1..], if i == 36 then 3 else 7 * (i + 1), result)
  {
    hide Varint32From, Varint32Step, NextBitpos, SignGroup;
    HighStep32(bs[0], i, result);
    LoopStep32(bs, 7 * i, result);
  }

  lemma {:induction false} HighUpTo(bs: seq<byte>, i: nat, result: nat)
    requires 5 <= i && i + Stop(bs) < 37
    ensures Varint32From(bs, 7 * i, result) ==
      if Stop(bs) < |bs| && SignGroups(bs, i, result >= TWO31) then Got(result, bs[Stop(bs) + 1..]) else Fail
    decreases |bs|
  {
    hide Varint32From, SignGroup;
    if bs == [] {
      EmptyFails(7 * i, result);
    } else {
      HighGroup(bs, i, result);
      if bs[0] >= 128 { HighUpTo(bs[1..], i + 1, result); }
    }
  }

  lemma EmptyFails(bitpos: nat, result: nat)
    ensures Varint32From([], bitpos, result) == Fail
  {
  }

  lemma LowGroup32(bs: seq<byte>, i: nat, acc: nat)
    requires 1 <= i <= 4 && acc < Pow2(7 * i) && bs != []
    ensures var acc' := OrIn(acc, Low7(bs[0]), 7 * i, TWO32);
      && acc' < TWO32 && (i < 4 ==> acc' < Pow2(7 * (i + 1)))
      && Varint32From(bs, 7 * i, acc) ==
           if bs[0] >= 128 then Varint32From(bs[1..], 7 * (i + 1), acc')
           else if i == 4 && bs[0] >= 16 then Fail
           else Got(acc', bs[1..])
  {
    hide Varint32From, OrIn, Pow2;
    var w := 32;
    Word32(w);
    GroupFits(acc, bs[0], 7 * i, w);
    LoopStep32(bs, 7 * i, acc);
  }

  lemma Word32(w: nat)
    requires w == 32
    ensures Pow2(w) == TWO32
  {
    assert Pow2(w) == 128 * Pow2(w - 7) && Pow2(w - 7) == 128 * Pow2(w - 14);
    assert Pow2(w - 14) == 128 * Pow2(w - 21) && Pow2(w - 21) == 128 * Pow2(w - 28);
  }

  /** What the groups up to the fifth give. */
  function LowValue(bs: seq<byte>, i: nat, acc: nat): nat {
    if bs == [] then 0
    else
      var acc' := OrIn(acc, Low7(bs[0]), 7 * i, TWO32);
      if bs[0] >= 128 && i < 4 then LowValue(bs[1..], i + 1, acc') else acc'
  }

  lemma {:induction false} LowUpTo(bs: seq<byte>, i: nat, acc: nat)
    requires 1 <= i <= 4 && acc < Pow2(7 * i)
    ensures LowValue(bs, i, acc) < TWO32
    ensures var n, v := Stop(bs), LowValue(bs, i, acc);
      Varint32From(bs, 7 * i, acc) ==
        if n + i >= 5 && |bs| >= 5 - i then Varint32From(bs[5 - i..], 35, v)
        else if n == |bs| || (n + i == 4 && bs[n] >= 16) then Fail
        else Got(v, bs[n + 1..])
    decreases |bs|
  {
    hide Varint32From, OrIn, Pow2;
    if bs == [] {
      EmptyFails(7 * i, acc);
    } else {
      LowGroup32(bs, i, acc);
      if bs[0] >= 128 && i < 4 {
        LowUpTo(bs[1..], i + 1, OrIn(acc, Low7(bs[0]), 7 * i, TWO32));
        assert |bs| >= 5 - i ==> bs[1..][4 - i..] == bs[5 - i..];
      }
    }
  }

  lemma LowNext(bs: seq<byte>, i: nat, acc: nat)
    requires bs != []
    ensures var acc' := OrIn(acc, Low7(bs[0]), 7 * i, TWO32);
      LowValue(bs, i, acc) == if bs[0] >= 128 && i < 4 then LowValue(bs[1..], i + 1, acc') else acc'
    ensures Stop(bs) < |bs| && bs[0] >= 128 ==> Stop(bs[1..]) < |bs[1..]|
  {
    hide OrIn;
  }

  lemma GroupsNext(bs: seq<byte>, k: nat)
    requires bs != []
    ensures BitOfGroups(bs, k) <==> if k < 7 then Bit(bs[0], k) else bs[0] >= 128 && BitOfGroups(bs[1..], k - 7)
  {
    hide Bit;
  }

  lemma {:induction false} LowBits(bs: seq<byte>, i: nat, acc: nat, k: nat)
    requires 1 <= i <= 4 && acc < Pow2(7 * i) && k < 32 && Stop(bs) < |bs|
    ensures Bit(LowValue(bs, i, acc), k) <==> if k < 7 * i then Bit(acc, k) else BitOfGroups(bs, k - 7 * i)
    decreases |bs|
  {
    hide OrIn, Pow2, Bit, LowValue, BitOfGroups, Stop, Varint32From;
    var w := 32;
    Word32(w);
    OneGroup(acc, bs[0], 7 * i, w, k);
    LowGroup32(bs, i, acc);
    LowNext(bs, i, acc);
    if k >= 7 * i { GroupsNext(bs, k - 7 * i); }
    if bs[0] >= 128 && i < 4 { LowBits(bs[1..], i + 1, OrIn(acc, Low7(bs[0]), 7 * i, TWO32), k); }
  }

  lemma {:induction false} StopLater(bs: seq<byte>, m: nat)
    requires m <= Stop(bs)
    ensures Stop(bs[m..]) == Stop(bs) - m
    decreases m
  {
    if m > 0 {
      StopLater(bs[1..], m - 1);
      assert bs[1..][m - 1..] == bs[m..];
    } else {
      assert bs[m..] == bs;
    }
  }

  lemma SignBit(v: nat)
    requires v < TWO32
    ensures Bit(v, 31) <==> v >= TWO31
  {
    var n, w := 31, 32;
    Word32(w);
    Pow2Double(n);
    if v < TWO31 {
      BitsOfSmall(v, n, n);
    } else {
      Complement(TWO32 - 1 - v, w, n);
      BitsOfSmall(TWO32 - 1 - v, n, n);
    }
  }

  /** The first byte and those after it, when more follow. */
  lemma GroupsOfMore(bs: seq<byte>, i: nat, j: nat)
    requires bs != [] && bs[0] >= 128 && Stop(bs) < |bs| && j < 7 && 7 * i + j < 32
    ensures Bit(LowValue(bs[1..], 1, Low7(bs[0])), 7 * i + j) <==> i <= Stop(bs) && Bit(bs[i], j)
  {
    hide Bit, BitOfGroups, LowValue, Pow2;
    var seven := 7;
    Pow2Values(seven);
    LowBits(bs[1..], 1, Low7(bs[0]), 7 * i + j);
    if i == 0 {
      LowBitsOf(bs[0], j);
    } else {
      GroupAt(bs[1..], i - 1, j);
    }
  }

  lemma OneByte(b: byte, i: nat, j: nat)
    requires b < 128 && j < 7
    ensures Bit(b, 7 * i + j) <==> i == 0 && Bit(b, j)
  {
    LowBitsOf(b, 7 * i + j);
  }

  /** More than five bytes: the first five give `v`, and the others decide. */
  lemma ManyBytes(bs: seq<byte>, v: nat)
    requires 5 <= Stop(bs) < 37 && v < TWO32 && (Stop(bs) < |bs| ==> (Bit(v, 31) <==> Bit(bs[4], 3)))
    ensures var n, r := Stop(bs), Varint32From(bs[5..], 35, v);
      && (r.Got? <==> n < |bs| && forall i | 5 <= i <= n :: SignGroup(bs[i], i, Bit(bs[4], 3)))
      && (r.Got? ==> r == Got(v, bs[n + 1..]))
  {
    hide Varint32From, SignGroup, Bit, SignGroups;
    StopLater(bs, 5);
    HighUpTo(bs[5..], 5, v);
    if Stop(bs) < |bs| {
      SignBit(v);
      SignGroupsMean(bs, 5, v >= TWO31);
    }
  }

  /** What the bytes give when the first is not the last. */
  lemma Groups32(bs: seq<byte>, i: nat, j: nat) returns (v: nat)
    requires bs != [] && bs[0] >= 128 && j < 7 && 7 * i + j < 32
    ensures v < TWO32
    ensures var n := Stop(bs);
      Varint32(bs) ==
        if n >= 5 then Varint32From(bs[5..], 35, v)
        else if n == |bs| || (n == 4 && bs[4] >= 16) then Fail
        else Got(v, bs[n + 1..])
    ensures Stop(bs) < |bs| ==> (Bit(v, 7 * i + j) <==> i <= Stop(bs) && Bit(bs[i], j))
    ensures Stop(bs) < |bs| ==> (Bit(v, 31) <==> 4 <= Stop(bs) && Bit(bs[4], 3))
  {
    hide Varint32From, Pow2, Bit, LowValue;
    var seven, t := 7, bs[1..];
    Pow2Values(seven);
    v := LowValue(t, 1, Low7(bs[0]));
    LowUpTo(t, 1, Low7(bs[0]));
    assert |bs| >= 5 ==> t[4..] == bs[5..];
    if Stop(bs) < |bs| {
      GroupsOfMore(bs, i, j);
      GroupsOfMore(bs, 4, 3);
    }
  }

  /**
   On any bytes that stop within 37: what the 32-bit decoder accepts. Bits 32 to
   34 are dropped when more bytes follow the fifth and must be clear when not;
   each byte from the sixth on must carry nothing, or go on with a set bit 31.
   The answer has bits 0 to 31 of the groups.
   */
  lemma Varint32Exactly(bs: seq<byte>, i: nat, j: nat)
    requires Stop(bs) < 37 && j < 7 && 7 * i + j < 32
    ensures var n, r := Stop(bs), Varint32(bs);
      && (r.Got? <==>
            && n < |bs| && (n == 4 ==> bs[4] < 16)
            && forall g | 5 <= g <= n :: SignGroup(bs[g], g, Bit(bs[4], 3)))
      && (r.Got? ==> r.rest == bs[n + 1..] && r.value < TWO32 && (Bit(r.value, 7 * i + j) <==> i <= n && Bit(bs[i], j)))
  {
    hide Varint32From, SignGroup, Bit;
    if bs == [] {
    } else if bs[0] < 128 {
      OneByte(bs[0], i, j);
    } else {
      hide Varint32, Stop;
      var v := Groups32(bs, i, j);
      if Stop(bs) >= 5 { ManyBytes(bs, v); }
    }
  }

  // ---------- fixed-width integers ----------

  /** Byte i carries bits 8i to 8i + 7: the least significant byte comes first. */
  lemma {:induction false} LittleEndianForm(v: nat, n: nat, i: nat, k: nat)
    requires i < n && k < 8
    ensures Bit(LittleEndian(v, n)[i], k) <==> Bit(v, 8 * i + k)
    decreases i
  {
    if i == 0 {
      BitsBelow8(v, k);
    } else {
      LittleEndianForm(v / 256, n - 1, i - 1, k);
      BitsAbove8(v, 8 * (i - 1) + k);
      assert 8 * i + k == 8 * (i - 1) + k + 8;
    }
  }

  /** And so it is read, from any bytes. */
  lemma {:induction false} FromLittleEndianForm(bs: seq<byte>, i: nat, k: nat)
    requires i < |bs| && k < 8
    ensures Bit(FromLittleEndian(bs), 8 * i + k) <==> Bit(bs[i], k)
    decreases i
  {
    var v := FromLittleEndian(bs);
    assert v % 256 == bs[0] && v / 256 == FromLittleEndian(bs[1..]);
    if i == 0 {
      BitsBelow8(v, k);
    } else {
      FromLittleEndianForm(bs[1..], i - 1, k);
      BitsAbove8(v, 8 * (i - 1) + k);
      assert 8 * i + k == 8 * (i - 1) + k + 8;
    }
  }

  // ---------- keys ----------

  lemma BitsOfKey(w: nat, low: nat, high: nat, k: nat)
    requires w == 8 * high + low && low < 8
    ensures Bit(w, k) <==> if k < 3 then Bit(low, k) else Bit(high, k - 3)
  {
    if k < 3 {
      var three := 3;
      assert Pow2(three) == 8;
      BitOfCut(w, three, k);
      assert w % 8 == low;
    } else {
      assert Bit(w, k) == Bit(w / 2, k - 1) == Bit(w / 4, k - 2) == Bit(w / 8, k - 3);
    }
  }

  /** The number of the wire type that each kind of field has. */
  function TypeNumber(l: LType): nat {
    if l.VARINT? || l.UVARINT? || l.SVARINT? then 0
    else if l.FIXED64? then 1
    else if l.FIXED32? then 5
    else 2
  }

  /** A key is the varint of a word with the wire type in bits 0 to 2 and the field number above; packed arrays have type 2. */
  lemma KeyForm(f: Field, k: nat) returns (w: nat, packed: nat)
    requires 0 < f.tag < 0x2000_0000
    ensures FieldTag(f) == VarintBytes(w) && TagBytes(WT_STRING, f.tag) == VarintBytes(packed) && w < TWO32 && packed < TWO32
    ensures Bit(w, k) <==> if k < 3 then Bit(TypeNumber(f.ltype), k) else Bit(f.tag, k - 3)
    ensures Bit(packed, k) <==> if k < 3 then Bit(2, k) else Bit(f.tag, k - 3)
  {
    hide VarintBytes, Bit;
    w := f.tag * 8 + TypeNumber(f.ltype);
    packed := f.tag * 8 + 2;
    BitsOfKey(w, TypeNumber(f.ltype), f.tag, k);
    BitsOfKey(packed, 2, f.tag, k);
  }

  /** And so it is read, from any bytes; the word zero ends the message. */
  lemma KeyRead(bs: seq<byte>, k: nat)
    ensures DecodeTag(bs).TagFail? <==> Varint32(bs).Fail?
    ensures DecodeTag(bs).TagStop? <==> Varint32(bs).Got? && Varint32(bs).value == 0
    ensures DecodeTag(bs).TagGot? ==>
      && DecodeTag(bs).wireType < 8 && DecodeTag(bs).rest == Varint32(bs).rest
      && (Bit(Varint32(bs).value, k) <==> if k < 3 then Bit(DecodeTag(bs).wireType, k) else Bit(DecodeTag(bs).tag, k - 3))
  {
    hide Varint32, Bit;
    var r := Varint32(bs);
    if r.Got? { BitsOfKey(r.value, r.value % 8, r.value / 8, k); }
  }

  // ---------- values, from any bytes ----------

  /** The signed C integer of this many bytes. */
  predicate CInt(size: int, n: int) {
    || (size == 1 && -0x80 <= n < 0x80) || (size == 2 && -0x8000 <= n < 0x8000)
    || (size == 4 && -TWO31 <= n < TWO31) || (size == 8 && -TWO63 <= n < TWO63)
  }

  predicate CUnsigned(size: int, n: int) {
    || (size == 1 && 0 <= n < 0x100) || (size == 2 && 0 <= n < 0x1_0000)
    || (size == 4 && 0 <= n < TWO32) || (size == 8 && 0 <= n < TWO64)
  }

  /** An int field: the number of its C type that is congruent to the varint, modulo 2^64 for eight bytes and 2^32 for fewer. */
  lemma VarintItemExactly(size: int, bs: seq<byte>, n: int, rest: seq<byte>)
    ensures DecodeVarintItem(size, bs) == Got(Int(n), rest) <==>
      && Varint64(bs).Got? && Varint64(bs).rest == rest && CInt(size, n)
      && (Varint64(bs).value - n) % (if size == 8 then TWO64 else TWO32) == 0
  {
    hide Varint64;
    var r := Varint64(bs);
    if r.Got? && ScalarWidth(size) {
      var limit := if size == 8 then TWO63 else TWO31;
      var c := CastSigned(r.value, limit);
      CastCongruent(r.value, limit, c);
      if CInt(size, n) && (r.value - n) % (2 * limit) == 0 { OnlyOne(r.value, 2 * limit, c, n); }
    }
  }

  lemma CastCongruent(v: nat, limit: int, c: int)
    requires (limit == TWO63 || limit == TWO31) && c == CastSigned(v, limit)
    ensures -limit <= c < limit && (v - c) % (2 * limit) == 0
  {
  }

  lemma OnlyOne(v: nat, m: int, a: int, b: int)
    requires (m == TWO64 || m == TWO32) && (v - a) % m == 0 && (v - b) % m == 0 && -m < a - b < m
    ensures a == b
  {
  }

  /** A uint field: the varint itself, when its C type holds it. */
  lemma UvarintItemExactly(size: int, bs: seq<byte>, n: nat, rest: seq<byte>)
    ensures DecodeUvarintItem(size, bs) == Got(Int(n), rest) <==> CUnsigned(size, n) && Varint64(bs) == Got(n, rest)
  {
    hide Varint64;
  }

  /** A sint field: the value whose code the varint is. */
  lemma SvarintItemExactly(size: int, bs: seq<byte>, n: int, rest: seq<byte>)
    ensures DecodeSvarintItem(size, bs) == Got(Int(n), rest) <==> CInt(size, n) && Varint64(bs) == Got(ZigZag(n), rest)
  {
    var zero := 0;
    Varint64Exactly(bs, zero, zero);
    hide Varint64, ZigZag, UnZigZag;
    if Varint64(bs).Got? {
      ZigZagOnto(Varint64(bs).value);
      SmallModulo(Varint64(bs).value, TWO64);
      ValueLimits(size, UnZigZag(Varint64(bs).value));
    }
    if CInt(size, n) { ZigZagBack(n); }
  }

  lemma ZigZagBack(n: int)
    requires -TWO63 <= n < TWO63
    ensures UnZigZag(ZigZag(n)) == n
  {
  }

  lemma ValueLimits(size: int, n: int)
    ensures ScalarWidth(size) && -SignedLimit(size) <= n < SignedLimit(size) <==> CInt(size, n)
  {
  }

  /** A payload: the varint of its length, its bytes, and what follows. */
  lemma PayloadExactly(bs: seq<byte>, data: seq<byte>, rest: seq<byte>)
    ensures DecodePayload(bs) == Got(data, rest) <==> Varint32(bs) == Got(|data|, data + rest)
  {
    hide Varint32;
    var r := Varint32(bs);
    if r.Got? && r.value <= |r.rest| { assert r.rest == r.rest[..r.value] + r.rest[r.value..]; }
    assert (data + rest)[..|data|] == data && (data + rest)[|data|..] == rest;
  }

  /** Bytes, strings and fixed-length bytes: how long a payload each takes, and what it leaves in the field. */
  lemma PayloadItemsExactly(size: nat, bs: seq<byte>, prev: Value)
    requires DecodePayload(bs).Got?
    ensures var data, rest := DecodePayload(bs).value, DecodePayload(bs).rest;
      var b, s, x := DecodeBytesItem(size, bs, prev), DecodeStringItem(size, bs, prev), DecodeFixedLengthItem(size, bs);
      && (b.Got? <==> |data| + 4 <= size && |data| < TWO32)
      && (b.Got? ==> b.rest == rest && b.value.len == |data| && |b.value.buf| == size - 4 && b.value.buf[..|data|] == data)
      && (s.Got? <==> |data| < size)
      && (s.Got? ==> s.rest == rest && |s.value.buf| == size && s.value.buf[..|data|] == data && s.value.buf[|data|] == 0)
      && (x.Got? <==> data == [] || |data| == size)
      && (x.Got? ==> x.rest == rest && |x.value.buf| == size)
      && (x.Got? ==> forall i | 0 <= i < size :: x.value.buf[i] == if data == [] then 0 else data[i])
  {
    hide DecodePayload;
  }
}
