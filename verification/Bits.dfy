/**
 Bit operations on unsigned words, which are natural numbers cut to their width
 with `%`: powers of two, or, shifts, and the meaning of each as a set of bits.
 */
module Bits {
  import opened Common

  /** Two to the n, unfolding by the seven bits a varint byte carries. */
  function Pow2(n: nat): (r: nat)
    ensures r >= 1
  {
    if n >= 7 then 128 * Pow2(n - 7) else [1, 2, 4, 8, 16, 32, 64][n]
  }

  /** Closed values; `n` is not a literal so that the solver does not unroll Pow2 by itself. */
  lemma Pow2Small(n: nat)
    requires n < 7
    ensures Pow2(n + 7) == 0x80 * Pow2(n) && Pow2(n + 14) == 0x4000 * Pow2(n) && Pow2(n + 21) == 0x20_0000 * Pow2(n)
    ensures Pow2(n + 28) == 0x1000_0000 * Pow2(n) && Pow2(n + 35) == 8 * TWO32 * Pow2(n)
  {
    assert Pow2(n + 14) == 128 * Pow2(n + 7) && Pow2(n + 21) == 128 * Pow2(n + 14);
    assert Pow2(n + 28) == 128 * Pow2(n + 21) && Pow2(n + 35) == 128 * Pow2(n + 28);
  }

  lemma {:induction false} Pow2Values(n: nat)
    requires n == 7 || n == 28 || n == 35 || n >= 63
    ensures n == 7 ==> Pow2(n) == 0x80
    ensures n == 28 ==> Pow2(n) == 0x1000_0000
    ensures n == 35 ==> Pow2(n) == 8 * TWO32
    ensures n == 63 ==> Pow2(n) == TWO63
    ensures n >= 64 ==> Pow2(n) >= TWO64
  {
    if n >= 71 {
      Pow2Values(n - 7);
    } else {
      var k := n % 7;
      Pow2Small(k);
      if n >= 63 {
        assert Pow2(k + 42) == 128 * Pow2(k + 35) && Pow2(k + 49) == 128 * Pow2(k + 42);
        assert Pow2(k + 56) == 128 * Pow2(k + 49) && Pow2(k + 63) == 128 * Pow2(k + 56);
        assert Pow2(k + 70) == 128 * Pow2(k + 63);
      }
    }
  }

  lemma {:induction false} Pow2Double(n: nat)
    ensures Pow2(n + 1) == 2 * Pow2(n)
  {
    if n >= 7 { Pow2Double(n - 7); }
  }

  /** Bitwise or. */
  function BitOr(a: nat, b: nat): nat
  {
    if a == 0 then b
    else (if a % 2 == 1 || b % 2 == 1 then 1 else 0) + 2 * BitOr(a / 2, b / 2)
  }

  /** Or-ing in bits above those already present is addition. */
  lemma {:induction false} BitOrDisjoint(a: nat, x: nat, n: nat)
    requires a < Pow2(n)
    ensures BitOr(a, x * Pow2(n)) == a + x * Pow2(n)
    decreases a
  {
    if a > 0 {
      assert n > 0;
      Pow2Double(n - 1);
      var q := x * Pow2(n - 1);
      assert x * Pow2(n) == 2 * q;
      BitOrDisjoint(a / 2, x, n - 1);
      HalfOfDouble(q);
    }
  }

  lemma HalfOfDouble(q: nat)
    ensures 2 * q % 2 == 0 && 2 * q / 2 == q
  {
  }

  /** x << bitpos, before the result is cut to the width of its type. */
  function ShiftLeft(x: nat, bitpos: nat): nat
  {
    x * Pow2(bitpos)
  }

  /** 256 to the n. */
  function Pow256(n: nat): (r: nat)
    ensures r >= 1
  {
    if n == 0 then 1 else 256 * Pow256(n - 1)
  }

  // ---------- single bits ----------

  predicate Bit(w: nat, k: nat) {
    if k == 0 then w % 2 == 1 else Bit(w / 2, k - 1)
  }

  lemma {:induction false} BitOfOr(a: nat, b: nat, k: nat)
    ensures Bit(BitOr(a, b), k) <==> Bit(a, k) || Bit(b, k)
    decreases k
  {
    if a == 0 {
      NoBits(k);
    } else {
      var c := (if a % 2 == 1 || b % 2 == 1 then 1 else 0) + 2 * BitOr(a / 2, b / 2);
      assert c / 2 == BitOr(a / 2, b / 2);
      if k > 0 { BitOfOr(a / 2, b / 2, k - 1); }
    }
  }

  lemma {:induction false} NoBits(k: nat)
    ensures !Bit(0, k)
  {
    if k > 0 { NoBits(k - 1); }
  }

  lemma {:induction false} BitOfPower(n: nat, k: nat)
    ensures Bit(Pow2(n), k) <==> k == n
    decreases n
  {
    if n > 0 {
      Pow2Double(n - 1);
      HalfOfDouble(Pow2(n - 1));
      if k > 0 { BitOfPower(n - 1, k - 1); }
    } else if k > 0 {
      NoBits(k - 1);
    }
  }

  lemma {:induction false} BitOfShift(m: nat, s: nat, k: nat)
    ensures Bit(ShiftLeft(m, s), k) <==> k >= s && Bit(m, k - s)
    decreases s
  {
    if s > 0 {
      Pow2Double(s - 1);
      var h := ShiftLeft(m, s - 1);
      DoubleShift(m, Pow2(s - 1));
      HalfOfDouble(h);
      if k > 0 { BitOfShift(m, s - 1, k - 1); }
    }
  }

  lemma DoubleShift(m: nat, p: nat)
    ensures m * (2 * p) == 2 * (m * p)
  {
  }

  lemma {:induction false} BitOfCut(v: nat, w: nat, k: nat)
    ensures Bit(v % Pow2(w), k) <==> k < w && Bit(v, k)
    decreases w
  {
    if w == 0 {
      NoBits(k);
    } else {
      Pow2Double(w - 1);
      HalfOfCut(v, Pow2(w - 1));
      if k > 0 { BitOfCut(v / 2, w - 1, k - 1); }
    }
  }

  lemma HalfOfCut(v: nat, p: nat)
    requires p > 0
    ensures v % (2 * p) / 2 == v / 2 % p && v % (2 * p) % 2 == v % 2
  {
    var q, r := v / (2 * p), v % (2 * p);
    assert v == 2 * (q * p) + r;
    assert v / 2 == q * p + r / 2;
    var d := v / 2 / p;
    assert v / 2 == d * p + v / 2 % p;
    assert (q - d) * p == q * p - d * p;
    NoSmallMultiple(q - d, p);
  }

  lemma NoSmallMultiple(t: int, m: int)
    requires m > 0 && -m < t * m < m
    ensures t == 0
  {
  }

  lemma QuotientIs(v: nat, m: nat, q: nat, r: nat)
    requires m > 0 && r < m && v == q * m + r
    ensures v / m == q
  {
    var d, e := v / m, v % m;
    assert v == d * m + e;
    assert (d - q) * m == d * m - q * m;
    NoSmallMultiple(d - q, m);
  }

  lemma MulUpTo(a: nat, b: nat, m: nat)
    requires a <= b
    ensures a * m <= b * m
  {
  }

  lemma {:induction false} BitOrBound(a: nat, b: nat, w: nat)
    requires a < Pow2(w) && b < Pow2(w)
    ensures BitOr(a, b) < Pow2(w)
    decreases a
  {
    if a > 0 {
      assert w > 0;
      Pow2Double(w - 1);
      BitOrBound(a / 2, b / 2, w - 1);
    }
  }

  lemma {:induction false} Pow2Less(m: nat, n: nat)
    requires m < n
    ensures Pow2(m) < Pow2(n)
    decreases n
  {
    Pow2Double(n - 1);
    if m < n - 1 { Pow2Less(m, n - 1); }
  }

  lemma Word64(w: nat)
    requires w == 64
    ensures Pow2(w) == TWO64
  {
    Pow2Values(w - 1);
    Pow2Double(w - 1);
  }

  // ---------- big-endian numbers ----------

  /** Big-endian, most significant byte first. */
  function BigEndian(bs: seq<byte>): nat {
    if bs == [] then 0 else BigEndian(bs[..|bs| - 1]) * 256 + bs[|bs| - 1]
  }

  /** The lowest k bytes of a number, most significant first. */
  function BigEndianBytes(n: nat, k: nat): (bs: seq<byte>)
    ensures |bs| == k
  {
    if k == 0 then [] else BigEndianBytes(n / 256, k - 1) + [n % 256]
  }

  lemma {:induction false} BytesOfBigEndian(bs: seq<byte>)
    ensures BigEndianBytes(BigEndian(bs), |bs|) == bs
  {
    if bs != [] {
      var front, last := bs[..|bs| - 1], bs[|bs| - 1];
      LastByte(BigEndian(front) * 256 + last, BigEndian(front), last);
      BytesOfBigEndian(front);
      assert bs == front + [last];
    }
  }

  lemma {:induction false} BigEndianOfBytes(n: nat, k: nat)
    requires n < Pow256(k)
    ensures BigEndian(BigEndianBytes(n, k)) == n
    decreases k
  {
    if k > 0 {
      BigEndianOfBytes(n / 256, k - 1);
      assert BigEndianBytes(n, k)[..k - 1] == BigEndianBytes(n / 256, k - 1);
    }
  }

  lemma LastByte(n: nat, top: nat, b: nat)
    requires b < 256
    ensures n == top * 256 + b <==> top == n / 256 && b == n % 256
  {
  }

  lemma {:induction false} BigEndianSplit(bs: seq<byte>, k: nat)
    requires k <= |bs|
    ensures BigEndian(bs[k..]) < Pow256(|bs| - k)
    ensures BigEndian(bs) == BigEndian(bs[..k]) * Pow256(|bs| - k) + BigEndian(bs[k..])
    decreases |bs|
  {
    if k == |bs| {
      assert bs[..k] == bs;
    } else {
      var t := bs[..|bs| - 1];
      BigEndianSplit(t, k);
      assert t[..k] == bs[..k] && bs[k..][..|bs| - k - 1] == t[k..];
      OneMoreByte(BigEndian(bs[..k]), Pow256(|t| - k), BigEndian(t[k..]), bs[|bs| - 1]);
    }
  }

  lemma OneMoreByte(a: nat, p: nat, b: nat, x: byte)
    ensures (a * p + b) * 256 + x == a * (256 * p) + (b * 256 + x)
  {
  }

  lemma BigEndianBound(bs: seq<byte>)
    ensures BigEndian(bs) < Pow256(|bs|)
  {
    var zero: nat := 0;
    BigEndianSplit(bs, zero);
    assert bs[zero..] == bs;
  }

  lemma PowersOf256(n: nat)
    requires n == 2 || n == 4 || n == 6 || n == 8
    ensures n == 2 ==> Pow256(n) == 0x1_0000
    ensures n == 4 ==> Pow256(n) == TWO32
    ensures n == 6 ==> Pow256(n) == TWO48
    ensures n == 8 ==> Pow256(n) == TWO64
  {
    if n > 2 {
      assert Pow256(n - 4) * 0x1_0000_0000 == Pow256(n);
    }
  }
}
