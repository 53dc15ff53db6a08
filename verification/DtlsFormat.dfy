/**
 The DTLS handshake fragment: a 12-byte header (type, message length, message
 sequence number, fragment offset, fragment length) and the fragment's bytes,
 as in section 4.2.2 of RFC 6347.
 */
module DtlsFormat {
  import opened Common
  import opened Bits

  const HEADER_LENGTH: nat := 12
  const RECORD_HEADER_LENGTH: nat := 13

  datatype Fragment = Fragment(typ: byte, msgLen: nat, number: nat, off: nat, body: seq<byte>)

  predicate Fits(f: Fragment) {
    f.msgLen < 0x100_0000 && f.number < 0x1_0000 && f.off < 0x100_0000 && |f.body| < 0x100_0000
  }

  function U24(n: nat): seq<byte>
    requires n < 0x100_0000
  {
    [n / 65536, n / 256 % 256, n % 256]
  }

  function FromU16(bs: seq<byte>): (n: nat)
    requires |bs| == 2
    ensures n < 0x1_0000
  {
    bs[0] as int * 256 + bs[1]
  }

  function FromU24(bs: seq<byte>): (n: nat)
    requires |bs| == 3
    ensures n < 0x100_0000
  {
    bs[0] as int * 65536 + bs[1] as int * 256 + bs[2]
  }

  /** The first two of the eight bytes are the epoch, whatever the other six are. */
  lemma EpochIsTop(bs: seq<byte>)
    requires |bs| == 8
    ensures BigEndian(bs) < TWO64 && BigEndian(bs) / TWO48 == FromU16(bs[..2])
  {
    var zero, six, eight := 0, 6, 8;
    BigEndianSplit(bs, zero);
    PowersOf256(eight);
    BigEndianSplit(bs, 2);
    PowersOf256(six);
    assert bs[zero..] == bs && bs[..2][..1][..0] == [] && bs[..2][..1] == [bs[0]];
    assert BigEndian(bs[..2]) == FromU16(bs[..2]);
  }

  function FragmentBytes(f: Fragment): (bs: seq<byte>)
    requires Fits(f)
    ensures |bs| == HEADER_LENGTH + |f.body|
  {
    [f.typ] + U24(f.msgLen) + U16(f.number) + U24(f.off) + U24(|f.body|) + f.body
  }

  /** dtls1_parse_fragment. */
  function ParseFragment(bs: seq<byte>): (r: Read<Fragment>)
    ensures r.Got? ==> Fits(r.value) && |bs| == HEADER_LENGTH + |r.value.body| + |r.rest|
  {
    if |bs| < HEADER_LENGTH then Fail
    else
      var len := FromU24(bs[9..12]);
      if |bs| - HEADER_LENGTH < len then Fail
      else
        Got(Fragment(bs[0], FromU24(bs[1..4]), FromU16(bs[4..6]), FromU24(bs[6..9]), bs[12..12 + len]), bs[12 + len..])
  }

  lemma Parts(t: byte, a: seq<byte>, b: seq<byte>, c: seq<byte>, d: seq<byte>, body: seq<byte>, rest: seq<byte>)
    requires |a| == |c| == |d| == 3 && |b| == 2
    ensures var bs := [t] + a + b + c + d + body + rest;
      && bs[0] == t && bs[1..4] == a && bs[4..6] == b && bs[6..9] == c && bs[9..12] == d
      && bs[12..12 + |body|] == body && bs[12 + |body|..] == rest
  {
  }

  lemma U16Inverse(n: nat)
    requires n < 0x1_0000
    ensures FromU16(U16(n)) == n
  {
  }

  lemma U24Inverse(n: nat)
    requires n < 0x100_0000
    ensures FromU24(U24(n)) == n
  {
    assert n == 256 * (n / 256) + n % 256 && n / 256 == 256 * (n / 65536) + n / 256 % 256;
  }

  /** What is written is parsed back, and the parser stops at its end. */
  lemma ParseRoundTrip(f: Fragment, rest: seq<byte>)
    requires Fits(f)
    ensures ParseFragment(FragmentBytes(f) + rest) == Got(f, rest)
  {
    Parts(f.typ, U24(f.msgLen), U16(f.number), U24(f.off), U24(|f.body|), f.body, rest);
    U24Inverse(f.msgLen);
    U16Inverse(f.number);
    U24Inverse(f.off);
    U24Inverse(|f.body|);
  }

  lemma U24Onto(bs: seq<byte>)
    requires |bs| == 3
    ensures U24(FromU24(bs)) == bs
  {
    var n := FromU24(bs);
    assert n / 256 == bs[0] as int * 256 + bs[1];
  }

  lemma SplitBytes(bs: seq<byte>, n: nat)
    requires 12 + n <= |bs|
    ensures bs == [bs[0]] + bs[1..4] + bs[4..6] + bs[6..9] + bs[9..12] + bs[12..12 + n] + bs[12 + n..]
  {
  }

  /** Nothing else parses: the parser accepts exactly the written forms. */
  lemma ParseInverse(bs: seq<byte>)
    requires ParseFragment(bs).Got?
    ensures bs == FragmentBytes(ParseFragment(bs).value) + ParseFragment(bs).rest
  {
    var f := ParseFragment(bs).value;
    U24Onto(bs[1..4]);
    U24Onto(bs[6..9]);
    U24Onto(bs[9..12]);
    assert U16(f.number) == bs[4..6];
    SplitBytes(bs, |f.body|);
  }

  lemma TwoBytes(bs: seq<byte>)
    requires |bs| == 2
    ensures BigEndian(bs) == FromU16(bs)
  {
    var t := bs[..1];
    assert t[..0] == [] && BigEndian(t) == bs[0];
  }

  lemma ThreeBytes(bs: seq<byte>)
    requires |bs| == 3
    ensures BigEndian(bs) == FromU24(bs)
  {
    TwoBytes(bs[..2]);
  }

  /** Where each part of the header stands, as a number with the most significant byte first. */
  lemma FragmentLayout(f: Fragment)
    requires Fits(f)
    ensures var bs := FragmentBytes(f);
      && |bs| == 12 + |f.body| && bs[0] == f.typ && BigEndian(bs[1..4]) == f.msgLen && BigEndian(bs[4..6]) == f.number
      && BigEndian(bs[6..9]) == f.off && BigEndian(bs[9..12]) == |f.body| && bs[12..] == f.body
  {
    hide BigEndian;
    Parts(f.typ, U24(f.msgLen), U16(f.number), U24(f.off), U24(|f.body|), f.body, []);
    assert FragmentBytes(f) + [] == FragmentBytes(f);
    U24Inverse(f.msgLen);
    U16Inverse(f.number);
    U24Inverse(f.off);
    U24Inverse(|f.body|);
    ThreeBytes(U24(f.msgLen));
    TwoBytes(U16(f.number));
    ThreeBytes(U24(f.off));
    ThreeBytes(U24(|f.body|));
  }
}
