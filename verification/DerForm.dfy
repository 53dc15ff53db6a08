/**
 The bytes of an element (sections 8.1 and 8.3 of ITU-T X.690): class, form and
 number in the tag, the two forms of the length, two's complement integers, and
 tags of more than one byte. What is read is exactly what has this form.
 */
module DerForm {
  import opened Common
  import opened Bits
  import opened Der
  import opened DerElement

  // ---------- the tag ----------

  /** Class in bits 7 and 6, constructed in bit 5, number in bits 4 to 0. */
  predicate HasTag(b: byte, cls: nat, constructed: bool, number: nat) {
    b / 64 == cls && (b / 32 % 2 == 1 <==> constructed) && b % 32 == number
  }

  /** The universal tags that are written: BOOLEAN 1, INTEGER 2, OCTET STRING 4, and the constructed SEQUENCE 16. */
  lemma UniversalTags(content: seq<byte>)
    ensures HasTag(Tlv(BOOLEAN, content)[0], 0, false, 1) && HasTag(Tlv(INTEGER, content)[0], 0, false, 2)
    ensures HasTag(Tlv(OCTET_STRING, content)[0], 0, false, 4) && HasTag(Tlv(SEQUENCE, content)[0], 0, true, 16)
  {
  }

  /** And those that are read. */
  lemma UniversalTagsRead(bs: seq<byte>)
    ensures UintElement(bs).Got? ==> bs != [] && HasTag(bs[0], 0, false, 2)
    ensures Inner(bs, OCTET_STRING).Some? ==> bs != [] && HasTag(bs[0], 0, false, 4)
    ensures Inner(bs, BOOLEAN).Some? ==> bs != [] && HasTag(bs[0], 0, false, 1)
    ensures Asn1Front(bs, SEQUENCE).Got? ==> bs != [] && HasTag(bs[0], 0, true, 16)
    ensures Asn1Front(bs, OCTET_STRING).Got? ==> bs != [] && HasTag(bs[0], 0, false, 4)
  {
    hide GetLength, Base128;
  }

  // ---------- the length ----------

  /** Up to 127 one byte; above that the number of bytes that follow with the top bit set, and the length without leading zeros. */
  lemma LengthForm(n: nat)
    requires n < 0xFFFF_FFFF
    ensures var l := Length(n);
      && |l| >= 1 && (n < 128 ==> l == [n])
      && (n >= 128 ==> 2 <= |l| <= 5 && l[0] == 128 + (|l| - 1) && l[1] != 0 && BigEndian(l[1..]) == n)
  {
    DigitsInverse(n);
    FourDigits(n);
  }

  // ---------- integers ----------

  /** The most significant byte first, the sign bit clear, and no byte more than that takes. */
  lemma IntegerForm(n: nat)
    ensures var c := IntContent(n);
      && |c| >= 1 && c[0] < 128 && BigEndian(c) == n && (|c| > 1 ==> c[0] != 0 || c[1] >= 128)
  {
    hide BigEndian;
    DigitsInverse(n);
    var d := Digits(n);
    ZeroInFront(d);
    if |d| == 1 { OneDigit(d[0]); }
    assert IntContent(n) == if d[0] >= 0x80 then [0] + d else d;
    SingleDigit(n);
  }

  lemma SingleDigit(n: nat)
    ensures |Digits(n)| == 1 <==> n < 256
  {
    hide BigEndian;
  }

  /** An INTEGER in front of anything is read as n exactly when it is that of n. */
  lemma IntegerExactly(bs: seq<byte>, n: nat, rest: seq<byte>)
    requires |bs| <= MAX_CONTENT
    ensures UintElement(bs) == Got(n, rest) <==> n < TWO64 && bs == Tlv(INTEGER, IntContent(n)) + rest
  {
    hide Asn1Front, UintOf, IntContent, Tlv;
    if UintElement(bs) == Got(n, rest) {
      FrontCanonical(bs, INTEGER);
      IntCanonical(Asn1Front(bs, INTEGER).value);
    }
    if n < TWO64 && bs == Tlv(INTEGER, IntContent(n)) + rest {
      UintInverse(n);
      ElementInverse(INTEGER, IntContent(n), rest);
    }
  }

  /** An element of a one-byte tag in front of anything is read exactly when it is the one that would be written. */
  lemma FrontExactly(bs: seq<byte>, tag: byte, content: seq<byte>, rest: seq<byte>)
    requires |bs| <= MAX_CONTENT && tag % 32 != 31
    ensures Asn1Front(bs, tag) == Got(content, rest) <==> bs == Tlv(tag, content) + rest
  {
    hide GetElement, Length;
    if Asn1Front(bs, tag) == Got(content, rest) { FrontCanonical(bs, tag); }
    if bs == Tlv(tag, content) + rest { ElementInverse(tag, content, rest); }
  }

  /** The same of an element that must be all there is. */
  lemma InnerExactly(c: seq<byte>, tag: byte, content: seq<byte>)
    requires |c| <= MAX_CONTENT && tag % 32 != 31
    ensures Inner(c, tag) == Some(content) <==> c == Tlv(tag, content)
  {
    hide Asn1Front, Tlv;
    FrontExactly(c, tag, content, []);
    assert Tlv(tag, content) + [] == Tlv(tag, content);
  }

  // ---------- tags of more than one byte ----------

  /** A number in groups of seven bits, the most significant first; all but the last byte have the top bit set. */
  function Groups(n: nat): (r: seq<byte>)
    ensures |r| >= 1
  {
    if n < 128 then [n] else MoreGroups(n / 128) + [n % 128]
  }

  function MoreGroups(n: nat): (r: seq<byte>) {
    if n == 0 then [] else MoreGroups(n / 128) + [128 + n % 128]
  }

  lemma {:induction false} ReadMore(n: nat, bs: seq<byte>)
    requires n < TWO57
    ensures n > 0 ==> Base128(MoreGroups(n) + bs, 0) == Base128(bs, n)
    decreases n
  {
    hide Base128;
    if n > 0 {
      var front, b: byte := MoreGroups(n / 128), 128 + n % 128;
      assert MoreGroups(n) + bs == front + ([b] + bs);
      if n / 128 > 0 {
        ReadMore(n / 128, [b] + bs);
      } else {
        assert front == [] && front + ([b] + bs) == [b] + bs;
      }
      ReadGroup(b, bs, n / 128);
      assert n / 128 * 128 + n % 128 == n;
    }
  }

  lemma ReadGroup(b: byte, bs: seq<byte>, v: nat)
    requires v < TWO57 && !(v == 0 && b == 128)
    ensures Base128([b] + bs, v) == if b >= 128 then Base128(bs, v * 128 + (b - 128)) else Got(v * 128 + b, bs)
  {
    assert ([b] + bs)[1..] == bs;
  }

  /** A number below 2^64 in this form is read back, before anything. */
  lemma GroupsRead(n: nat, rest: seq<byte>)
    requires n < TWO64
    ensures Base128(Groups(n) + rest, 0) == Got(n, rest)
  {
    hide Base128;
    if n < 128 {
      ReadGroup(n, rest, 0);
    } else {
      assert Groups(n) + rest == MoreGroups(n / 128) + ([n % 128] + rest);
      ReadMore(n / 128, [n % 128] + rest);
      ReadGroup(n % 128, rest, n / 128);
    }
  }

  lemma GroupAdded(v: nat, b: byte)
    requires v > 0 || b != 128
    ensures var v' := v * 128 + b % 128;
      && (b >= 128 ==> MoreGroups(v') == MoreGroups(v) + [b] && v' > 0)
      && (b < 128 ==> Groups(v') == MoreGroups(v) + [b])
  {
    var v' := v * 128 + b % 128;
    assert v' / 128 == v && v' % 128 == b % 128;
  }

  lemma ReadFails(bs: seq<byte>, v: nat)
    requires Base128(bs, v).Got?
    ensures bs != [] && v < TWO57 && !(v == 0 && bs[0] == 128)
  {
  }

  lemma {:induction false} GroupsOnly(bs: seq<byte>, v: nat)
    requires Base128(bs, v).Got?
    ensures Base128(bs, v).value < TWO64 && MoreGroups(v) + bs == Groups(Base128(bs, v).value) + Base128(bs, v).rest
    decreases |bs|
  {
    hide Base128, Groups, MoreGroups;
    ReadFails(bs, v);
    var b, t := bs[0], bs[1..];
    assert bs == [b] + t;
    ReadGroup(b, t, v);
    GroupAdded(v, b);
    assert MoreGroups(v) + bs == MoreGroups(v) + [b] + t;
    if b >= 128 { GroupsOnly(t, v * 128 + (b - 128)); }
  }

  /** A tag whose low bits are all ones: what follows is its number, from 31 to 2^29 - 1, in as few groups as it takes. */
  lemma LongTagExactly(b: byte, bs: seq<byte>, n: nat, rest: seq<byte>)
    requires b % 32 == 31
    ensures GetTag([b] + bs) == Got(256 * n + b, rest) <==> 31 <= n < 0x2000_0000 && bs == Groups(n) + rest
    ensures GetTag([b] + bs).Got? ==> exists m: nat :: GetTag([b] + bs).value == 256 * m + b
  {
    hide Base128, Groups;
    assert ([b] + bs)[1..] == bs;
    if Base128(bs, 0).Got? {
      GroupsOnly(bs, 0);
      assert MoreGroups(0) + bs == bs;
    }
    if 31 <= n < 0x2000_0000 && bs == Groups(n) + rest { GroupsRead(n, rest); }
  }
}
