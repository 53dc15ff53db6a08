/**
 Elements as a whole: reading one does not depend on what follows it, and what
 is read is in the only form that is written.
 */
module DerElement {
  import opened Common
  import opened Bits
  import opened Der

  predicate IsElement(c: seq<byte>) {
    GetElement(c).Got? && GetElement(c).rest == []
  }

  // ---------- what follows does not matter ----------

  lemma {:induction false} NumberThen(bs: seq<byte>, v: nat, rest: seq<byte>)
    requires Base128(bs, v).Got?
    ensures Base128(bs + rest, v) == Got(Base128(bs, v).value, Base128(bs, v).rest + rest)
    decreases |bs|
  {
    hide SevenMore;
    assert (bs + rest)[1..] == bs[1..] + rest;
    if bs[0] >= 0x80 { NumberThen(bs[1..], SevenMore(v, bs[0]), rest); }
  }

  lemma {:induction false} NumberLocal(bs: seq<byte>, v: nat, rest: seq<byte>)
    requires Base128(bs + rest, v).Got? && |Base128(bs + rest, v).rest| >= |rest|
    ensures Base128(bs, v).Got?
    decreases |bs|
  {
    var all := bs + rest;
    hide SevenMore;
    var v' := SevenMore(v, all[0]);
    if bs == [] { assert false; }
    assert all[1..] == bs[1..] + rest && all[0] == bs[0];
    assert all[0] >= 0x80 ==> Base128(all, v) == Base128(all[1..], v');
    if bs[0] >= 0x80 { NumberLocal(bs[1..], v', rest); }
  }

  lemma TagThen(bs: seq<byte>, rest: seq<byte>)
    requires GetTag(bs).Got?
    ensures GetTag(bs + rest) == Got(GetTag(bs).value, GetTag(bs).rest + rest)
  {
    assert (bs + rest)[1..] == bs[1..] + rest;
    if bs[0] % 32 == 31 { NumberThen(bs[1..], 0, rest); }
  }

  lemma TagLocal(bs: seq<byte>, rest: seq<byte>)
    requires GetTag(bs + rest).Got? && |GetTag(bs + rest).rest| >= |rest|
    ensures GetTag(bs).Got?
  {
    var all := bs + rest;
    assert bs != [];
    assert all[1..] == bs[1..] + rest;
    if bs[0] % 32 == 31 {
      NumberLocal(bs[1..], 0, rest);
      NumberThen(bs[1..], 0, rest);
    }
  }

  lemma LengthThen(bs: seq<byte>, rest: seq<byte>)
    requires GetLength(bs).Got?
    ensures GetLength(bs + rest) == Got(GetLength(bs).value, GetLength(bs).rest + rest)
  {
    if bs[0] < 0x80 {
      assert (bs + rest)[1..] == bs[1..] + rest;
    } else {
      var k := bs[0] - 0x80;
      assert (bs + rest)[1..1 + k] == bs[1..1 + k] && (bs + rest)[1 + k..] == bs[1 + k..] + rest;
    }
  }

  lemma LengthLocal(bs: seq<byte>, rest: seq<byte>)
    requires GetLength(bs + rest).Got? && |GetLength(bs + rest).rest| >= |rest|
    ensures GetLength(bs).Got?
  {
    var all := bs + rest;
    assert bs != [] && all[0] == bs[0];
    if bs[0] >= 0x80 {
      var k := bs[0] - 0x80;
      assert |all[1 + k..]| >= |rest|;
      assert all[1..1 + k] == bs[1..1 + k];
    }
  }

  lemma ElementThen(c: seq<byte>, rest: seq<byte>)
    requires IsElement(c)
    ensures GetElement(c + rest).Got? && GetElement(c + rest).value.whole == c && GetElement(c + rest).rest == rest
  {
    hide GetTag, GetLength;
    TagThen(c, rest);
    var after := GetTag(c).rest;
    LengthThen(after, rest);
    var n, left := GetLength(after).value, GetLength(after).rest;
    assert |left| == n;
    assert (c + rest)[..|c|] == c && (c + rest)[|c|..] == rest;
  }

  /** What an element is read from is an element by itself. */
  lemma WholeIsElement(bs: seq<byte>)
    requires GetElement(bs).Got?
    ensures IsElement(GetElement(bs).value.whole)
  {
    hide GetTag, GetLength;
    var w, rest := GetElement(bs).value.whole, GetElement(bs).rest;
    assert bs == w + rest;
    TagLocal(w, rest);
    TagThen(w, rest);
    LengthLocal(GetTag(w).rest, rest);
    LengthThen(GetTag(w).rest, rest);
  }

  // ---------- the only form ----------

  lemma {:induction false} LeadPositive(d: seq<byte>)
    requires d != [] && d[0] > 0
    ensures BigEndian(d) > 0
  {
    if |d| > 1 { LeadPositive(d[..|d| - 1]); }
  }

  lemma {:induction false} DigitsOf(d: seq<byte>)
    requires d != [] && (|d| == 1 || d[0] > 0)
    ensures Digits(BigEndian(d)) == d
  {
    var front, last := d[..|d| - 1], d[|d| - 1];
    assert d == front + [last];
    LastByte(BigEndian(d), BigEndian(front), last);
    if front != [] {
      LeadPositive(front);
      DigitsOf(front);
    } else {
      assert BigEndian(front) == 0;
    }
  }

  lemma LengthCanonical(bs: seq<byte>)
    requires GetLength(bs).Got? && GetLength(bs).value <= MAX_CONTENT
    ensures bs == Length(GetLength(bs).value) + GetLength(bs).rest
  {
    hide BigEndian, Digits;
    if bs[0] >= 0x80 {
      var k := bs[0] - 0x80;
      var d := bs[1..1 + k];
      DigitsOf(d);
      assert bs == [bs[0]] + d + bs[1 + k..];
    } else {
      assert bs == [bs[0]] + bs[1..];
    }
  }

  /** An element that is accepted under a tag of one byte is what would be written. */
  lemma FrontCanonical(bs: seq<byte>, tag: byte)
    requires Asn1Front(bs, tag).Got? && |Asn1Front(bs, tag).value| <= MAX_CONTENT
    ensures bs == Tlv(tag, Asn1Front(bs, tag).value) + Asn1Front(bs, tag).rest
  {
    hide GetLength, Length;
    var after := bs[1..];
    assert GetTag(bs) == Got(tag, after) && bs == [tag] + after;
    LengthCanonical(after);
    var n, rest := GetLength(after).value, GetLength(after).rest;
    var o := |bs| - |rest|;
    assert rest == bs[o..] && rest == bs[o..o + n] + bs[o + n..];
  }

  /** So are the contents of an integer. */
  lemma IntCanonical(content: seq<byte>)
    requires UintOf(content).Some?
    ensures content == IntContent(UintOf(content).value)
  {
    hide BigEndian, Digits;
    if |content| > 1 && content[0] == 0 {
      assert content == [0] + content[1..];
      ZeroInFront(content[1..]);
      DigitsOf(content[1..]);
    } else {
      DigitsOf(content);
    }
  }

  lemma {:induction false} DigitsMore(m: nat, n: nat)
    requires m <= n
    ensures |Digits(m)| <= |Digits(n)|
  {
    if m >= 256 { DigitsMore(m / 256, n / 256); }
  }

  /** The longer the contents, the longer the element. */
  lemma TlvMore(tag: byte, c: seq<byte>, d: seq<byte>)
    requires |c| <= |d| <= MAX_CONTENT
    ensures |Tlv(tag, c)| <= |Tlv(tag, d)|
  {
    DigitsMore(|c|, |d|);
  }
}
