/**
 The part of DER that sessions are stored in (sections 8.1 and 10 of ITU-T
 X.690): tag, minimal definite length and contents; unsigned integers, octet
 strings and booleans. Writers append to a buffer, readers move a cursor.
 */
module Der {
  import opened Common
  import opened Bits

  const BOOLEAN: byte := 0x01
  const INTEGER: byte := 0x02
  const OCTET_STRING: byte := 0x04
  const SEQUENCE: byte := 0x30

  const MAX_CONTENT: nat := 0xFFFF_FFFE

  /** The big-endian digits of a number, without leading zeros. */
  function Digits(n: nat): (r: seq<byte>)
    ensures |r| >= 1
  {
    if n < 256 then [n] else Digits(n / 256) + [n % 256]
  }

  function Length(n: nat): (r: seq<byte>)
  {
    if n <= 0x7F then [n] else if n <= MAX_CONTENT then [0x80 + |Digits(n)| % 128] + Digits(n) else []
  }

  function Tlv(tag: byte, content: seq<byte>): seq<byte> {
    [tag] + Length(|content|) + content
  }

  // ---------- reading ----------

  const MAX_TAG_NUMBER: nat := 0x1FFF_FFFF

  datatype Element = Element(tag: nat, content: seq<byte>, whole: seq<byte>)

  function SevenMore(v: nat, b: byte): nat {
    v * 128 + b % 128
  }

  /** parse_base128_integer, with what has been gathered; the shift out of 64 bits is refused. */
  function Base128(bs: seq<byte>, v: nat): (r: Read<nat>)
    ensures r.Got? ==> |r.rest| < |bs| && Suffix(r.rest, bs)
    decreases |bs|
  {
    if bs == [] || v >= TWO57 || (v == 0 && bs[0] == 0x80) then Fail
    else
      var v' := SevenMore(v, bs[0]);
      if bs[0] >= 0x80 then Base128(bs[1..], v') else Got(v', bs[1..])
  }

  /** parse_asn1_tag: a tag of one byte is that byte; the number of a longer one keeps it apart from all of those. */
  function GetTag(bs: seq<byte>): (r: Read<nat>)
    ensures r.Got? ==> |r.rest| < |bs| && Suffix(r.rest, bs)
    ensures bs != [] && bs[0] % 32 != 31 ==> r == Got(bs[0], bs[1..])
    ensures r.Got? && r.value < 256 ==> bs[0] % 32 != 31
  {
    if bs == [] then Fail
    else if bs[0] % 32 != 31 then Got(bs[0], bs[1..])
    else
      match Base128(bs[1..], 0)
      case Fail => Fail
      case Got(n, rest) => if n > MAX_TAG_NUMBER || n < 31 then Fail else Got(256 * n + bs[0], rest)
  }

  /** The header's length field and what follows it. */
  function GetLength(bs: seq<byte>): (r: Read<nat>)
    ensures r.Got? ==> |r.rest| < |bs| && Suffix(r.rest, bs)
  {
    if bs == [] then Fail
    else if bs[0] < 0x80 then Got(bs[0], bs[1..])
    else
      var k := bs[0] - 0x80;
      if k == 0 || k > 4 || |bs| - 1 < k then Fail
      else
        var n := BigEndian(bs[1..1 + k]);
        if n < 128 || bs[1] == 0 then Fail else Got(n, bs[1 + k..])
  }

  /** cbs_get_any_asn1_element, for DER. */
  function GetElement(bs: seq<byte>): (r: Read<Element>)
    ensures r.Got? ==> |r.rest| < |bs| && bs == r.value.whole + r.rest && |r.value.content| <= |r.value.whole|
  {
    match GetTag(bs)
    case Fail => Fail
    case Got(tag, after) =>
      match GetLength(after)
      case Fail => Fail
      case Got(n, rest) =>
        if |rest| < n then Fail
        else
          var k := |bs| - |rest| + n;
          Got(Element(tag, bs[k - n..k], bs[..k]), bs[k..])
  }

  /** CBS_get_asn1. */
  function Asn1Front(bs: seq<byte>, tag: byte): (r: Read<seq<byte>>)
    ensures r.Got? ==> |r.rest| + |r.value| <= |bs| && |r.rest| < |bs|
  {
    match GetElement(bs)
    case Fail => Fail
    case Got(e, rest) => if e.tag == tag then Got(e.content, rest) else Fail
  }

  /** CBS_peek_asn1_tag. */
  predicate Peek(bs: seq<byte>, tag: byte) {
    bs != [] && bs[0] == tag && bs[0] % 32 != 31
  }

  lemma {:induction false} DigitsInverse(n: nat)
    ensures BigEndian(Digits(n)) == n && (n > 0 ==> Digits(n)[0] != 0)
  {
    var d := Digits(n);
    assert d[|d| - 1] == n % 256 && d[..|d| - 1] == if n < 256 then [] else Digits(n / 256);
    if n >= 256 { DigitsInverse(n / 256); }
  }

  lemma {:induction false} DigitsLength(n: nat, k: nat)
    requires k >= 1 && n < Pow256(k)
    ensures |Digits(n)| <= k
    decreases k
  {
    if n >= 256 {
      if k == 1 { assert false; }
      DigitsLength(n / 256, k - 1);
    }
  }

  lemma FourDigits(n: nat)
    requires n <= MAX_CONTENT
    ensures |Digits(n)| <= 4
  {
    var four := 4;
    assert Pow256(four) == 0x1_0000_0000;
    DigitsLength(n, four);
  }

  lemma AfterByte(x: byte, d: seq<byte>, rest: seq<byte>)
    ensures var bs := [x] + d + rest; bs[0] == x && bs[1..1 + |d|] == d && bs[1 + |d|..] == rest
  {
  }

  lemma LongForm(bs: seq<byte>, d: seq<byte>, rest: seq<byte>)
    requires 1 <= |d| <= 4 && d[0] != 0 && BigEndian(d) >= 128 && |bs| == 1 + |d| + |rest|
    requires bs[0] == 0x80 + |d| && bs[1..1 + |d|] == d && bs[1 + |d|..] == rest
    ensures GetLength(bs) == Got(BigEndian(d), rest)
  {
    hide BigEndian;
    assert bs[1] == d[0];
  }

  lemma LengthInverse(n: nat, rest: seq<byte>)
    requires n <= MAX_CONTENT
    ensures GetLength(Length(n) + rest) == Got(n, rest)
  {
    hide Digits, BigEndian;
    if n > 0x7F {
      DigitsInverse(n);
      FourDigits(n);
      AfterByte(0x80 + |Digits(n)|, Digits(n), rest);
      LongForm(Length(n) + rest, Digits(n), rest);
    }
  }

  lemma Front(tag: byte, a: seq<byte>, c: seq<byte>, rest: seq<byte>)
    ensures ([tag] + a + c + rest)[0] == tag && ([tag] + a + c + rest)[1..] == a + (c + rest)
    ensures (c + rest)[..|c|] == c && (c + rest)[|c|..] == rest
    ensures ([tag] + a + c + rest)[..1 + |a| + |c|] == [tag] + a + c
  {
  }

  /** What is written is read back, whatever follows. */
  lemma ElementInverse(tag: byte, content: seq<byte>, rest: seq<byte>)
    requires tag % 32 != 31 && |content| <= MAX_CONTENT
    ensures GetElement(Tlv(tag, content) + rest) == Got(Element(tag, content, Tlv(tag, content)), rest)
    ensures Asn1Front(Tlv(tag, content) + rest, tag) == Got(content, rest)
  {
    hide Length, GetLength;
    Front(tag, Length(|content|), content, rest);
    LengthInverse(|content|, content + rest);
  }

  // ---------- unsigned integers ----------

  /** Minimal, with a zero in front when the top bit would make it negative. */
  function IntContent(n: nat): seq<byte> {
    (if Digits(n)[0] >= 0x80 then [0] else []) + Digits(n)
  }

  /** The contents of an INTEGER as a uint64: not empty, not negative, no extra zero, not too large. */
  function UintOf(content: seq<byte>): Option<nat> {
    if content == [] || content[0] >= 0x80 || (|content| > 1 && content[0] == 0 && content[1] < 0x80) then None
    else if BigEndian(content) >= TWO64 then None
    else Some(BigEndian(content))
  }

  lemma {:induction false} ZeroInFront(bs: seq<byte>)
    ensures BigEndian([0] + bs) == BigEndian(bs)
    decreases |bs|
  {
    if bs != [] {
      ZeroInFront(bs[..|bs| - 1]);
      assert ([0] + bs)[..|bs|] == [0] + bs[..|bs| - 1];
    } else {
      var z: seq<byte> := [0];
      assert [0] + bs == z && z[..0] == [];
    }
  }

  lemma UintInverse(n: nat)
    requires n < TWO64
    ensures UintOf(IntContent(n)) == Some(n) && |IntContent(n)| <= 9
  {
    DigitsInverse(n);
    ZeroInFront(Digits(n));
    var eight := 8;
    PowersOf256(eight);
    DigitsLength(n, eight);
    var d := Digits(n);
    assert IntContent(n) == if d[0] >= 0x80 then [0] + d else d;
    assert n == 0 ==> |d| == 1;
  }

  lemma TopBytes(v: nat, k: nat)
    ensures v / Pow256(k + 1) == v / Pow256(k) / 256
  {
    var p := Pow256(k);
    var q, r := v / p / 256, v / p % 256;
    assert v == (q * 256 + r) * p + v % p;
    assert (q * 256 + r) * p == q * (256 * p) + r * p;
    MulUpTo(r, 255, p);
    QuotientIs(v, 256 * p, q, r * p + v % p);
  }

  lemma DigitsGrow(top: nat, b: byte)
    requires top > 0
    ensures Digits(top * 256 + b) == Digits(top) + [b] && Digits(top * 256 + b)[0] == Digits(top)[0]
  {
  }

  // ---------- the writer ----------

  class Cbb {
    var buf: seq<byte>

    constructor ()
      ensures buf == []
    {
      buf := [];
    }

    method AddBytes(data: seq<byte>)
      modifies this
      ensures buf == old(buf) + data
    {
      buf := buf + data;
    }

    /** CBB_add_asn1 and the flush that fills in the length; false when the contents are too long for one. */
    method AddTlv(tag: byte, content: seq<byte>) returns (ok: bool)
      modifies this
      ensures ok <==> |content| < 0xFFFF_FFFF
      ensures buf == if ok then old(buf) + Tlv(tag, content) else old(buf)
    {
      if |content| > MAX_CONTENT { return false; }
      buf := buf + Tlv(tag, content);
      return true;
    }

    /** CBB_add_asn1_uint64. */
    method AddUint64(value: nat)
      requires value < TWO64
      modifies this
      ensures buf == old(buf) + Tlv(INTEGER, IntContent(value))
    {
      var child := UintContent(value);
      UintInverse(value);
      var ok := AddTlv(INTEGER, child);
    }

    /** CBB_add_asn1_octet_string. */
    method AddOctetString(data: seq<byte>) returns (ok: bool)
      modifies this
      ensures ok <==> |data| <= MAX_CONTENT
      ensures buf == if ok then old(buf) + Tlv(OCTET_STRING, data) else old(buf)
    {
      ok := AddTlv(OCTET_STRING, data);
    }

    /** CBB_add_asn1_bool. */
    method AddBool(b: bool)
      modifies this
      ensures buf == old(buf) + Tlv(BOOLEAN, [if b then 0xFF else 0])
    {
      var ok := AddTlv(BOOLEAN, [if b then 0xFF else 0]);
    }
  }

  /** The number that the first i of the eight bytes of a value make. */
  function Leading(value: nat, i: nat): nat
    requires i <= 8
  {
    Over(value, Pow256(8 - i))
  }

  function Over(v: nat, p: nat): nat
    requires p > 0
  {
    v / p
  }

  lemma LeadingStep(value: nat, i: nat)
    requires i < 8
    ensures Leading(value, i + 1) / 256 == Leading(value, i)
  {
    TopBytes(value, 7 - i);
  }

  lemma LeadingEnds(value: nat)
    requires value < TWO64
    ensures Leading(value, 0) == 0 && Leading(value, 8) == value
  {
    var zero, eight := 0, 8;
    PowersOf256(eight);
    assert Pow256(zero) == 1;
  }

  /** The loop of CBB_add_asn1_uint64 over the eight bytes of the value. */
  method UintContent(value: nat) returns (child: seq<byte>)
    requires value < TWO64
    ensures child == IntContent(value)
  {
    hide Digits, Pow256, Leading;
    child := [];
    var started := false;
    var i := 0;
    LeadingEnds(value);
    while i < 8
      invariant 0 <= i <= 8 && (started <==> Leading(value, i) > 0)
      invariant child == if started then IntContent(Leading(value, i)) else []
    {
      var b: byte := Leading(value, i + 1) % 256;
      LeadingStep(value, i);
      if started {
        DigitsGrow(Leading(value, i), b);
        child := child + [b];
      } else if b != 0 {
        OneDigit(b);
        if b >= 0x80 { child := child + [0]; }
        started := true;
        child := child + [b];
      }
      i := i + 1;
    }
    if !started {
      OneDigit(0);
      child := child + [0];
    }
  }

  lemma OneDigit(b: byte)
    ensures Digits(b) == [b]
  {
  }

  // ---------- the reader ----------

  /** The loop of parse_base128_integer. */
  method NumberLoop(bs: seq<byte>) returns (r: Read<nat>)
    ensures r == Base128(bs, 0)
  {
    var rest, v: nat := bs, 0;
    while true
      invariant Base128(rest, v) == Base128(bs, 0)
      decreases |rest|
    {
      if |rest| == 0 || v >= TWO57 { return Fail; }
      var b := rest[0];
      if v == 0 && b == 0x80 { return Fail; }
      v := SevenMore(v, b);
      rest := rest[1..];
      if b < 0x80 { return Got(v, rest); }
    }
  }

  /** parse_asn1_tag. */
  method ReadTag(bs: seq<byte>) returns (r: Read<nat>)
    ensures r == GetTag(bs)
  {
    if |bs| == 0 { return Fail; }
    if bs[0] % 32 != 31 { return Got(bs[0], bs[1..]); }
    var number := NumberLoop(bs[1..]);
    if number.Fail? || number.value > MAX_TAG_NUMBER || number.value < 31 { return Fail; }
    return Got(256 * number.value + bs[0], number.rest);
  }

  /** cbs_get_any_asn1_element. */
  method ReadElement(bs: seq<byte>) returns (r: Read<Element>)
    ensures r == GetElement(bs)
  {
    hide GetTag, GetLength;
    var tag := ReadTag(bs);
    if tag.Fail? { return Fail; }
    var length := GetLength(tag.rest);
    if length.Fail? || |length.rest| < length.value { return Fail; }
    var k := |bs| - |length.rest| + length.value;
    return Got(Element(tag.value, bs[k - length.value..k], bs[..k]), bs[k..]);
  }

  /** An optional element: malformed, not there, or there with its contents. */
  datatype Optional<+T> = Malformed | Absent | Present(value: T)

  /** An optional explicit tag around one element of the inner type. */
  function Inner(content: seq<byte>, tag: byte): Option<seq<byte>> {
    match Asn1Front(content, tag)
    case Fail => None
    case Got(c, rest) => if rest == [] then Some(c) else None
  }

  function UintElement(bs: seq<byte>): (r: Read<nat>)
    ensures r.Got? ==> |r.rest| < |bs| && r.value < TWO64
  {
    match Asn1Front(bs, INTEGER)
    case Fail => Fail
    case Got(content, rest) => match UintOf(content) case None => Fail case Some(n) => Got(n, rest)
  }

  class Cbs {
    var rest: seq<byte>

    constructor (bs: seq<byte>)
      ensures rest == bs
    {
      rest := bs;
    }

    /** CBS_get_asn1. */
    method GetAsn1(tag: byte) returns (out: Option<seq<byte>>)
      modifies this
      ensures match Asn1Front(old(rest), tag) {
        case Fail => out == None && rest == old(rest)
        case Got(c, r) => out == Some(c) && rest == r
      }
    {
      var element := ReadElement(rest);
      match element {
        case Fail => return None;
        case Got(e, after) =>
          if e.tag != tag { return None; }
          rest := after;
          return Some(e.content);
      }
    }

    /** CBS_get_asn1_uint64. */
    method GetUint64() returns (out: Option<nat>)
      modifies this
      ensures match UintElement(old(rest)) {
        case Fail => out == None
        case Got(n, r) => out == Some(n) && rest == r
      }
    {
      var bytes := GetAsn1(INTEGER);
      if bytes.None? { return None; }
      out := UintLoop(bytes.value);
    }

    /** CBS_get_optional_asn1. */
    method GetOptional(tag: byte) returns (out: Optional<seq<byte>>)
      modifies this
      ensures out.Absent? <==> !Peek(old(rest), tag)
      ensures out.Absent? ==> rest == old(rest)
      ensures Peek(old(rest), tag) ==> match Asn1Front(old(rest), tag) {
        case Fail => out == Malformed
        case Got(c, r) => out == Present(c) && rest == r
      }
    {
      if !Peek(rest, tag) { return Absent; }
      var c := GetAsn1(tag);
      return if c.None? then Malformed else Present(c.value);
    }

    /** CBS_get_optional_asn1_octet_string and SSL_SESSION_parse_crypto_buffer. */
    method GetOptionalOctetString(tag: byte) returns (out: Optional<seq<byte>>)
      modifies this
      ensures out.Absent? <==> !Peek(old(rest), tag)
      ensures out.Absent? ==> rest == old(rest)
      ensures Peek(old(rest), tag) ==> match Asn1Front(old(rest), tag) {
        case Fail => out == Malformed
        case Got(c, r) => match Inner(c, OCTET_STRING) {
          case None => out == Malformed
          case Some(v) => out == Present(v) && rest == r
        }
      }
    {
      var child := GetOptional(tag);
      if !child.Present? { return if child.Absent? then Absent else Malformed; }
      var value := Inner(child.value, OCTET_STRING);
      return if value.None? then Malformed else Present(value.value);
    }
  }

  lemma {:induction false} StillGrows(content: seq<byte>, i: nat)
    requires i < |content|
    ensures BigEndian(content) >= BigEndian(content[..i]) * 256
    decreases |content|
  {
    var t := content[..|content| - 1];
    if i < |t| {
      StillGrows(t, i);
      assert t[..i] == content[..i];
    }
  }

  /** The checks and the loop of CBS_get_asn1_uint64. */
  method UintLoop(data: seq<byte>) returns (out: Option<nat>)
    ensures out == UintOf(data)
  {
    if |data| == 0 { return None; }
    if data[0] >= 0x80 { return None; }
    if data[0] == 0 && |data| > 1 && data[1] < 0x80 { return None; }
    var v := 0;
    var i := 0;
    while i < |data|
      invariant 0 <= i <= |data| && v == BigEndian(data[..i]) < TWO64
    {
      if v >= TWO56 {
        StillGrows(data, i);
        return None;
      }
      assert data[..i + 1][..i] == data[..i];
      v := v * 256 + data[i];
      i := i + 1;
    }
    assert data[..i] == data;
    return Some(v);
  }
}
