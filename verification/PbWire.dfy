/**
 Base 128 varints, zigzag and fixed-width little-endian integers: the pure
 functions that the stream classes are proved against, and their round trips.
 Unsigned C integers are natural numbers cut to their width with `%`.
 */
module PbWire {
  import opened Common
  import opened Bits

  // ---------- encoders ----------

  function VarintBytes(v: nat): (r: seq<byte>)
    ensures |r| >= 1
  {
    if v <= 0x7F then [v] else [v % 128 + 128] + VarintBytes(v / 128)
  }

  function ZigZag(n: int): (r: nat)
    requires -TWO63 <= n < TWO63
    ensures r < TWO64
  {
    if n < 0 then -2 * n - 1 else 2 * n
  }

  function UnZigZag(v: nat): (r: int)
    requires v < TWO64
    ensures -TWO63 <= r < TWO63
  {
    if v % 2 == 1 then -1 - v / 2 else v / 2
  }

  function LittleEndian(v: nat, n: nat): (r: seq<byte>)
    ensures |r| == n
  {
    if n == 0 then [] else [v % 256] + LittleEndian(v / 256, n - 1)
  }

  function FromLittleEndian(bs: seq<byte>): nat
  {
    if bs == [] then 0 else bs[0] + 256 * FromLittleEndian(bs[1..])
  }

  // ---------- decoders ----------

  /** byte & 0x7F. */
  function Low7(b: byte): (r: nat)
    ensures r < 128
  {
    if b >= 128 then b - 128 else b
  }

  /** acc | (x << bitpos) in an unsigned type with `limit` values; see OrInIsBitOr. */
  function OrIn(acc: nat, x: nat, bitpos: nat, limit: nat): nat
    requires limit > 0
  {
    if acc < Pow2(bitpos) then acc + ShiftLeft(x, bitpos) % limit
    else BitOr(acc, ShiftLeft(x, bitpos) % limit)
  }

  /** The loop of pb_decode_varint, entered with `bitpos` and the bits gathered so far. */
  function Varint64From(bs: seq<byte>, bitpos: nat, acc: nat): (r: Read<nat>)
    ensures r.Got? ==> |r.rest| < |bs| && Suffix(r.rest, bs)
    decreases |bs|
  {
    if bitpos >= 64 || bs == [] then Fail
    else
      var acc' := OrIn(acc, Low7(bs[0]), bitpos, TWO64);
      if bs[0] >= 128 then Varint64From(bs[1..], bitpos + 7, acc') else Got(acc', bs[1..])
  }

  function Varint64(bs: seq<byte>): (r: Read<nat>)
    ensures r.Got? ==> |r.rest| < |bs| && Suffix(r.rest, bs)
  {
    Varint64From(bs, 0, 0)
  }

  /** One round of the multi-byte loop of pb_decode_varint32_eof: the new result, or None on overflow. */
  function Varint32Step(b: byte, bitpos: nat, result: nat): Option<nat>
  {
    if bitpos >= 32 then
      var signExtension := if bitpos < 63 then 0xFF else 0x01;
      if Low7(b) != 0 && (result < TWO31 || b != signExtension) then None else Some(result)
    else Some(OrIn(result, Low7(b), bitpos, TWO32))
  }

  /** `bitpos` is a uint_fast8_t and wraps at 256. */
  function NextBitpos(bitpos: nat): nat {
    if bitpos + 7 >= 256 then bitpos + 7 - 256 else bitpos + 7
  }

  /** The multi-byte loop itself. */
  function Varint32From(bs: seq<byte>, bitpos: nat, result: nat): (r: Read<nat>)
    ensures r.Got? ==> |r.rest| < |bs| && Suffix(r.rest, bs)
    decreases |bs|
  {
    if bs == [] then Fail
    else
      match Varint32Step(bs[0], bitpos, result)
      case None => Fail
      case Some(result') =>
        var bitpos' := NextBitpos(bitpos);
        if bs[0] >= 128 then Varint32From(bs[1..], bitpos', result')
        else if bitpos' == 35 && bs[0] >= 16 then Fail  // byte & 0x70, the top bit being clear
        else Got(result', bs[1..])
  }

  function Varint32(bs: seq<byte>): (r: Read<nat>)
    ensures r.Got? ==> |r.rest| < |bs| && Suffix(r.rest, bs)
  {
    if bs == [] then Fail
    else if bs[0] < 128 then Got(bs[0], bs[1..])
    else Varint32From(bs[1..], 7, Low7(bs[0]))
  }

  function SkipVarint(bs: seq<byte>): (r: Read<()>)
    ensures r.Got? ==> |r.rest| < |bs| && Suffix(r.rest, bs)
    decreases |bs|
  {
    if bs == [] then Fail else if bs[0] >= 128 then SkipVarint(bs[1..]) else Got((), bs[1..])
  }

  // ---------- round trips ----------

  lemma {:induction false} VarintLength(v: nat, n: nat)
    requires n >= 1 && v < Pow2(7 * n)
    ensures |VarintBytes(v)| <= n
    decreases n
  {
    if v > 0x7F {
      if n == 1 { assert false; }
      VarintLength(v / 128, n - 1);
    }
  }

  lemma ConsFirst(a: byte, t: seq<byte>, suffix: seq<byte>)
    ensures ([a] + t + suffix)[0] == a && ([a] + t + suffix)[1..] == t + suffix
    ensures ([a] + suffix)[0] == a && ([a] + suffix)[1..] == suffix
  {
  }

  /** What a decoder sees first of a varint. */
  lemma VarintFirst(v: nat, suffix: seq<byte>)
    ensures VarintBytes(v) != []
    ensures v <= 0x7F ==> (VarintBytes(v) + suffix)[0] == v && (VarintBytes(v) + suffix)[1..] == suffix
    ensures v > 0x7F ==> (VarintBytes(v) + suffix)[0] == v % 128 + 128
    ensures v > 0x7F ==> (VarintBytes(v) + suffix)[1..] == VarintBytes(v / 128) + suffix
  {
    if v <= 0x7F {
      ConsFirst(v, [], suffix);
    } else {
      ConsFirst(v % 128 + 128, VarintBytes(v / 128), suffix);
    }
  }

  /** The arithmetic of one seven-bit step: low part, high part and their bounds. */
  lemma SplitLow(v: nat, bitpos: nat, limit: nat)
    requires v > 0x7F && v * Pow2(bitpos) < limit
    ensures v * Pow2(bitpos) == ShiftLeft(v % 128, bitpos) + v / 128 * Pow2(bitpos + 7)
    ensures ShiftLeft(v % 128, bitpos) < limit
    ensures ShiftLeft(v % 128, bitpos) <= 127 * Pow2(bitpos)
    ensures Pow2(bitpos + 7) <= v / 128 * Pow2(bitpos + 7) < limit
  {
    MulUpTo(v % 128, 127, Pow2(bitpos));
    SplitProduct(v % 128, v / 128, Pow2(bitpos));
    assert v == v % 128 + 128 * (v / 128);
  }

  lemma SplitProduct(lo: nat, hi: nat, p: nat)
    requires hi >= 1
    ensures (lo + 128 * hi) * p == lo * p + hi * (128 * p)
    ensures hi * (128 * p) >= 128 * p
  {
    assert hi * (128 * p) == (128 * hi) * p;
    assert (hi - 1) * (128 * p) >= 0;
    assert (hi - 1) * (128 * p) == hi * (128 * p) - 128 * p;
  }

  lemma BelowWidth(n: nat)
    requires Pow2(n) < TWO64
    ensures n < 64
  {
    if n >= 64 { Pow2Values(n); }
  }

  /** The addition in OrIn is or-ing: the bits shifted in lie above those present. */
  lemma OrInIsBitOr(acc: nat, x: nat, bitpos: nat, width: nat)
    requires bitpos <= width
    ensures OrIn(acc, x, bitpos, Pow2(width)) == BitOr(acc, ShiftLeft(x, bitpos) % Pow2(width))
  {
    var p, q := Pow2(bitpos), Pow2(width - bitpos);
    Pow2Sum(bitpos, width - bitpos);
    ModuloProduct(x, q, p);
    if acc < p { BitOrDisjoint(acc, x % q, bitpos); }
  }

  lemma {:induction false} Pow2Sum(m: nat, n: nat)
    ensures Pow2(m + n) == Pow2(n) * Pow2(m)
    decreases n
  {
    if n > 0 {
      Pow2Sum(m, n - 1);
      Pow2Double(m + n - 1);
      Pow2Double(n - 1);
      DoubleProduct(Pow2(n - 1), Pow2(m));
    }
  }

  lemma DoubleProduct(a: nat, b: nat)
    ensures 2 * (a * b) == (2 * a) * b
  {
  }

  lemma ModuloProduct(x: nat, q: nat, p: nat)
    requires q > 0 && p > 0
    ensures q * p > 0 && x * p % (q * p) == x % q * p
  {
    var d: nat, e: nat := x / q, x % q;
    assert q * p > 0 && e * p < q * p by { LessProduct(e, q, p); }
    RegroupProduct(x, q, p, d, e);
    ModuloUnique(x * p, q * p, d, e * p);
  }

  lemma LessProduct(e: nat, q: nat, p: nat)
    requires e < q && p > 0
    ensures q * p > 0 && e * p < q * p
  {
    MulUpTo(e, q - 1, p);
    assert (q - 1) * p == q * p - p;
  }

  lemma RegroupProduct(x: nat, q: nat, p: nat, d: nat, e: nat)
    requires x == d * q + e
    ensures x * p == d * (q * p) + e * p
  {
    assert (d * q + e) * p == (d * q) * p + e * p;
    assert (d * q) * p == d * (q * p);
  }

  lemma ModuloUnique(a: nat, m: nat, k: nat, r: nat)
    requires m > 0 && r < m && a == k * m + r
    ensures a % m == r
  {
    var d, e := a / m, a % m;
    assert a == d * m + e;
    assert (d - k) * m == d * m - k * m;
    NoSmallMultiple(d - k, m);
  }

  lemma Gather(acc: nat, x: nat, bitpos: nat, limit: nat)
    requires acc < Pow2(bitpos) && ShiftLeft(x, bitpos) < limit
    ensures OrIn(acc, x, bitpos, limit) == acc + ShiftLeft(x, bitpos)
  {
    hide BitOr;
    SmallModulo(ShiftLeft(x, bitpos), limit);
  }

  lemma SmallModulo(x: nat, limit: nat)
    requires x < limit
    ensures x % limit == x
  {
  }

  lemma Varint64Step(bs: seq<byte>, tail: seq<byte>, bitpos: nat, acc: nat, acc': nat)
    requires bitpos < 64 && bs != [] && bs[1..] == tail
    requires acc' == OrIn(acc, Low7(bs[0]), bitpos, TWO64)
    ensures Varint64From(bs, bitpos, acc) ==
      if bs[0] >= 128 then Varint64From(tail, bitpos + 7, acc') else Got(acc', tail)
  {
    hide BitOr, Pow2;
  }

  lemma {:induction false} Varint64Inverse(v: nat, suffix: seq<byte>, bitpos: nat, acc: nat, total: nat)
    requires bitpos < 64 && acc < Pow2(bitpos) && v * Pow2(bitpos) < TWO64 && total == acc + v * Pow2(bitpos)
    ensures Varint64From(VarintBytes(v) + suffix, bitpos, acc) == Got(total, suffix)
    decreases v
  {
    hide Varint64From, BitOr;
    VarintFirst(v, suffix);
    var bs := VarintBytes(v) + suffix;
    if v <= 0x7F {
      Gather(acc, v, bitpos, TWO64);
      Varint64Step(bs, suffix, bitpos, acc, total);
    } else {
      SplitLow(v, bitpos, TWO64);
      BelowWidth(bitpos + 7);
      Gather(acc, v % 128, bitpos, TWO64);
      Varint64Step(bs, VarintBytes(v / 128) + suffix, bitpos, acc, acc + ShiftLeft(v % 128, bitpos));
      Varint64Inverse(v / 128, suffix, bitpos + 7, acc + ShiftLeft(v % 128, bitpos), total);
    }
  }

  /** Every uint64 survives, takes at most ten bytes, and nothing after it is touched. */
  lemma Varint64RoundTrip(v: nat, suffix: seq<byte>)
    requires v < TWO64
    ensures |VarintBytes(v)| <= 10
    ensures Varint64(VarintBytes(v) + suffix) == Got(v, suffix)
  {
    hide Varint64From, VarintBytes;
    Varint64Inverse(v, suffix, 0, 0, v);
    var ten := 10;
    Pow2Values(7 * ten);
    VarintLength(v, ten);
  }

  /** Every int64 survives the zigzag encoding. */
  lemma SvarintRoundTrip(n: int, suffix: seq<byte>)
    requires -TWO63 <= n < TWO63
    ensures UnZigZag(ZigZag(n)) == n
    ensures Varint64(VarintBytes(ZigZag(n)) + suffix) == Got(ZigZag(n), suffix)
  {
    hide Varint64, VarintBytes;
    Varint64RoundTrip(ZigZag(n), suffix);
  }

  lemma Varint32OneStep(bs: seq<byte>, tail: seq<byte>, bitpos: nat, acc: nat, acc': nat)
    requires bitpos == 7 || bitpos == 14 || bitpos == 21 || bitpos == 28
    requires bs != [] && bs[1..] == tail
    requires acc' == OrIn(acc, Low7(bs[0]), bitpos, TWO32)
    ensures Varint32From(bs, bitpos, acc) ==
      if bs[0] >= 128 then Varint32From(tail, bitpos + 7, acc')
      else if bitpos == 28 && bs[0] >= 16 then Fail else Got(acc', tail)
  {
    hide BitOr, Pow2;
  }

  /** Past bit 34 a group must be all zeros, or all ones below a set bit 31; the last byte stands at bit 63 and is 1. */
  predicate Extends(h: nat, bitpos: nat, result: nat)
    decreases h
  {
    if h <= 0x7F then bitpos == 63 && h == 1 && result >= TWO31
    else (h % 128 == 0 || (h % 128 == 0x7F && result >= TWO31)) && Extends(h / 128, bitpos + 7, result)
  }

  lemma HighStep(bs: seq<byte>, tail: seq<byte>, bitpos: nat, result: nat)
    requires 35 <= bitpos <= 63 && bitpos % 7 == 0 && bs != [] && bs[1..] == tail
    ensures Varint32From(bs, bitpos, result) ==
      if Low7(bs[0]) != 0 && (result < TWO31 || bs[0] != if bitpos < 63 then 0xFF else 0x01) then Fail
      else if bs[0] >= 128 then Varint32From(tail, bitpos + 7, result)
      else Got(result, tail)
  {
    hide OrIn, Pow2;
  }

  lemma {:induction false} HighGroups(h: nat, suffix: seq<byte>, bitpos: nat, result: nat)
    requires h > 0 && 35 <= bitpos <= 63 && bitpos % 7 == 0 && h * Pow2(bitpos) < TWO64
    ensures Varint32From(VarintBytes(h) + suffix, bitpos, result) == if Extends(h, bitpos, result) then Got(result, suffix) else Fail
    decreases h
  {
    hide Pow2, VarintBytes, Varint32From;
    VarintFirst(h, suffix);
    var bs := VarintBytes(h) + suffix;
    HighStep(bs, bs[1..], bitpos, result);
    if h > 0x7F {
      SplitLow(h, bitpos, TWO64);
      BelowWidth(bitpos + 7);
      HighGroups(h / 128, suffix, bitpos + 7, result);
    } else if bitpos == 63 {
      Pow2Values(bitpos);
    }
  }

  lemma CutAt28(v: nat, acc: nat, total: nat)
    requires acc < 0x1000_0000 && total == acc + v * 0x1000_0000
    ensures v / 128 == total / (8 * TWO32) && total % TWO32 == (acc + v % 128 * 0x1000_0000) % TWO32
    ensures (total < TWO32 <==> v < 16) && (total < 8 * TWO32 <==> v <= 0x7F)
  {
    SplitSevenBits(v, v / 128, v % 128, acc, total, 0x1000_0000);
    AddMultiple(acc + v % 128 * 0x1000_0000, 8, v / 128);
  }

  lemma SplitSevenBits(v: nat, hi: nat, lo: nat, acc: nat, total: nat, p: nat)
    requires v == 128 * hi + lo && lo < 128 && acc < p && total == acc + v * p
    ensures acc + lo * p < 128 * p && total == acc + lo * p + hi * (128 * p) && total / (128 * p) == hi
  {
    MulUpTo(lo, 127, p);
    RegroupProduct(v, 128, p, hi, lo);
    QuotientIs(total, 128 * p, hi, acc + lo * p);
  }

  /** The first five bytes, from `bitpos` on: the low 32 bits of the total, with what lies above bit 34 still to be read. */
  lemma {:induction false} LowGroups(v: nat, suffix: seq<byte>, bitpos: nat, acc: nat, total: nat)
    requires bitpos == 7 || bitpos == 14 || bitpos == 21 || bitpos == 28
    requires acc < Pow2(bitpos) && total == acc + v * Pow2(bitpos) < TWO64
    ensures Varint32From(VarintBytes(v) + suffix, bitpos, acc) ==
      if total < TWO32 then Got(total, suffix)
      else if total < 8 * TWO32 then Fail
      else Varint32From(VarintBytes(total / (8 * TWO32)) + suffix, 35, total % TWO32)
    decreases v
  {
    hide Varint32From, BitOr, VarintBytes, OrIn;
    VarintFirst(v, suffix);
    var bs := VarintBytes(v) + suffix;
    var acc64, acc32 := OrIn(acc, Low7(bs[0]), bitpos, TWO64), OrIn(acc, Low7(bs[0]), bitpos, TWO32);
    LowBits(acc, bs[0], bitpos, acc64, acc32);
    Varint32OneStep(bs, bs[1..], bitpos, acc, acc32);
    if v > 0x7F { SplitLow(v, bitpos, TWO64); }
    Gather(acc, Low7(bs[0]), bitpos, TWO64);
    if bitpos == 28 {
      Pow2Values(bitpos);
      CutAt28(v, acc, total);
    } else {
      SmallPower(bitpos);
      if v > 0x7F { LowGroups(v / 128, suffix, bitpos + 7, acc32, total); }
    }
  }

  /** The 64-bit values that the 32-bit decoder accepts: those of 32 bits, and those that extend a set bit 31 as a sign does. */
  predicate Readable32(v: nat) {
    v < TWO32 || (v >= 8 * TWO32 && Extends(v / (8 * TWO32), 35, v % TWO32))
  }

  lemma Above34(v: nat, h: nat)
    requires 8 * TWO32 <= v < TWO64 && h == v / (8 * TWO32)
    ensures h > 0 && h * Pow2(35) < TWO64
  {
    var n := 35;
    Pow2Values(n);
    assert v == h * (8 * TWO32) + v % (8 * TWO32);
  }

  /** The first byte and the low groups together. */
  lemma FirstFive(v: nat, suffix: seq<byte>)
    requires v < TWO64
    ensures Varint32(VarintBytes(v) + suffix) ==
      if v < TWO32 then Got(v, suffix)
      else if v < 8 * TWO32 then Fail
      else Varint32From(VarintBytes(v / (8 * TWO32)) + suffix, 35, v % TWO32)
  {
    hide VarintBytes, Varint32From, Pow2;
    VarintFirst(v, suffix);
    var seven := 7;
    Pow2Values(seven);
    if v > 0x7F { LowGroups(v / 128, suffix, 7, v % 128, v); }
  }

  /** The 32-bit decoder on any varint: which values it accepts, what it makes of them, and that nothing after them is touched. */
  lemma Varint32RoundTrip(v: nat, suffix: seq<byte>)
    requires v < TWO64
    ensures Varint32(VarintBytes(v) + suffix) == if Readable32(v) then Got(v % TWO32, suffix) else Fail
  {
    hide VarintBytes, Varint32, Varint32From, Extends, Pow2;
    FirstFive(v, suffix);
    if v >= 8 * TWO32 {
      Above34(v, v / (8 * TWO32));
      HighGroups(v / (8 * TWO32), suffix, 35, v % TWO32);
    }
  }

  /** Every int32, sign-extended to 64 bits as the encoder writes it, is read back as its 32 bits. */
  lemma Int32RoundTrip(n: int, suffix: seq<byte>)
    requires -TWO31 <= n < TWO31
    ensures Varint32(VarintBytes(AsUnsigned64(n)) + suffix) == Got(if n < 0 then n + TWO32 else n, suffix)
  {
    hide VarintBytes, Varint32;
    var v := AsUnsigned64(n);
    if n < 0 {
      assert v / (8 * TWO32) == 0x1FFF_FFFF && v % TWO32 == n + TWO32;
      assert Extends(0x1FFF_FFFF, 35, v % TWO32);
    }
    Varint32RoundTrip(v, suffix);
  }

  // ---------- the two decoders compared ----------

  lemma {:induction false} Multiple32(n: nat)
    requires n >= 35 && n % 7 == 0
    ensures exists k: nat :: Pow2(n) == TWO32 * k
  {
    if n == 35 {
      Pow2Values(n);
      assert Pow2(n) == TWO32 * 8;
    } else {
      Multiple32(n - 7);
      var k: nat :| Pow2(n - 7) == TWO32 * k;
      assert Pow2(n) == TWO32 * (128 * k);
    }
  }

  lemma AddMultiple(a: nat, y: nat, k: nat)
    ensures (a + y * (TWO32 * k)) % TWO32 == a % TWO32
  {
    assert y * (TWO32 * k) == TWO32 * (y * k);
  }

  lemma TopBit(x: nat, y: nat, p: nat)
    requires y == x % 2 && 2 * p == TWO64
    ensures x * p % TWO64 == y * p
  {
    assert x * p == (x / 2 * 2 + y) * p == (x / 2) * TWO64 + y * p;
  }

  /** What the 64-bit decoder gathers at positions 35 to 63 is lost modulo 2^32. */
  lemma HighBits(acc: nat, b: byte, bitpos: nat, acc': nat)
    requires 35 <= bitpos <= 63 && bitpos % 7 == 0 && acc < Pow2(bitpos)
    requires acc' == OrIn(acc, Low7(b), bitpos, TWO64)
    ensures acc' % TWO32 == acc % TWO32 && acc' < Pow2(bitpos + 7)
  {
    hide BitOr;
    var p := Pow2(bitpos);
    var x := Low7(b);
    var y := if bitpos == 63 then x % 2 else x;
    assert ShiftLeft(x, bitpos) % TWO64 == y * p by {
      Pow2Values(63);
      if bitpos == 63 {
        TopBit(x, y, p);
      } else {
        assert p <= Pow2(56) by { assert bitpos == 35 || bitpos == 42 || bitpos == 49 || bitpos == 56; }
        MulUpTo(x, 127, p);
      }
    }
    MulUpTo(y, 127, p);
    Multiple32(bitpos);
    var k: nat :| p == TWO32 * k;
    AddMultiple(acc, y, k);
  }

  lemma {:induction false} AgreeBeyond32(bs: seq<byte>, bitpos: nat, acc32: nat, acc64: nat)
    requires bitpos >= 35 && bitpos % 7 == 0 && acc64 < Pow2(bitpos) && acc64 % TWO32 == acc32
    requires Varint32From(bs, bitpos, acc32).Got? && Varint64From(bs, bitpos, acc64).Got?
    ensures Varint32From(bs, bitpos, acc32).rest == Varint64From(bs, bitpos, acc64).rest
    ensures Varint64From(bs, bitpos, acc64).value % TWO32 == Varint32From(bs, bitpos, acc32).value
    decreases |bs|
  {
    hide BitOr, Pow2;
    var acc' := OrIn(acc64, Low7(bs[0]), bitpos, TWO64);
    HighBits(acc64, bs[0], bitpos, acc');
    if bs[0] >= 128 {
      AgreeBeyond32(bs[1..], bitpos + 7, acc32, acc');
    }
  }

  lemma CutToFour(x: nat, p: nat, acc: nat)
    requires p == 0x1000_0000 && acc < p && x < 128
    ensures x * p % TWO32 == x % 16 * p
    ensures (acc + x * p) % TWO32 == acc + x % 16 * p < TWO32
  {
    assert x == x / 16 * 16 + x % 16;
  }

  lemma SmallPower(bitpos: nat)
    requires bitpos == 7 || bitpos == 14 || bitpos == 21
    ensures Pow2(bitpos) <= 0x20_0000
  {
  }

  /** Up to bit 27 the two decoders gather the same; the byte at bit 28 is cut to four bits by one of them. */
  lemma LowBits(acc: nat, b: byte, bitpos: nat, acc64: nat, acc32: nat)
    requires bitpos == 7 || bitpos == 14 || bitpos == 21 || bitpos == 28
    requires acc < Pow2(bitpos)
    requires acc64 == OrIn(acc, Low7(b), bitpos, TWO64)
    requires acc32 == OrIn(acc, Low7(b), bitpos, TWO32)
    ensures acc64 < Pow2(bitpos + 7) && acc64 % TWO32 == acc32 < TWO32
    ensures bitpos < 28 || b < 16 ==> acc64 == acc32
  {
    hide BitOr;
    var p := Pow2(bitpos);
    var x := Low7(b);
    MulUpTo(x, 127, p);
    if bitpos == 28 {
      Pow2Values(28);
      CutToFour(x, p, acc);
      Gather(acc, x, bitpos, TWO64);
    } else {
      SmallPower(bitpos);
      Gather(acc, x, bitpos, TWO64);
      Gather(acc, x, bitpos, TWO32);
      SmallModulo(acc + x * p, TWO32);
    }
  }

  lemma {:induction false} AgreeBelow32(bs: seq<byte>, bitpos: nat, acc: nat)
    requires bitpos == 7 || bitpos == 14 || bitpos == 21 || bitpos == 28
    requires acc < Pow2(bitpos)
    requires Varint32From(bs, bitpos, acc).Got? && Varint64From(bs, bitpos, acc).Got?
    ensures Varint32From(bs, bitpos, acc).rest == Varint64From(bs, bitpos, acc).rest
    ensures Varint64From(bs, bitpos, acc).value % TWO32 == Varint32From(bs, bitpos, acc).value
    decreases |bs|
  {
    hide BitOr;
    var acc64 := OrIn(acc, Low7(bs[0]), bitpos, TWO64);
    var acc32 := OrIn(acc, Low7(bs[0]), bitpos, TWO32);
    LowBits(acc, bs[0], bitpos, acc64, acc32);
    if bs[0] >= 128 {
      if bitpos == 28 {
        AgreeBeyond32(bs[1..], bitpos + 7, acc32, acc64);
      } else {
        AgreeBelow32(bs[1..], bitpos + 7, acc64);
      }
    }
  }

  /** On any input that both decoders accept they stop at the same byte and agree modulo 2^32. */
  lemma DecodersAgree(bs: seq<byte>)
    requires Varint32(bs).Got? && Varint64(bs).Got?
    ensures Varint32(bs).rest == Varint64(bs).rest
    ensures Varint64(bs).value % TWO32 == Varint32(bs).value
  {
    var x := Low7(bs[0]);
    assert OrIn(0, x, 0, TWO64) == x;
    if bs[0] >= 128 {
      assert x < Pow2(7);
      AgreeBelow32(bs[1..], 7, x);
    }
  }

  lemma {:induction false} LittleEndianRoundTrip(v: nat, n: nat)
    requires v < Pow256(n)
    ensures FromLittleEndian(LittleEndian(v, n)) == v
    decreases n
  {
    if n > 0 {
      LittleEndianRoundTrip(v / 256, n - 1);
      assert LittleEndian(v, n)[1..] == LittleEndian(v / 256, n - 1);
    }
  }
}
