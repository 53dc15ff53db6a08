/**
 The bytes of a stored session, field by field, and what the parser makes of any
 bytes at each field: the tag that stands there, the one form of its contents,
 what is skipped, and that nothing may follow.
 */
module SessionForm {
  import opened Common
  import opened Bits
  import opened Der
  import opened DerElement
  import opened DerForm
  import opened SessionFormat
  import opened SessionReading
  import opened SessionRestore

  // ---------- the tags ----------

  /** Field n stands under the constructed context-specific tag n, and the whole is a SEQUENCE. */
  lemma FieldTags(s: Session, n: nat)
    requires Typed(s) && n <= LAST_TAG
    ensures Part(s, n) != [] <==> Field(s, n).Some?
    ensures Part(s, n) != [] ==> HasTag(Part(s, n)[0], 2, true, n)
    ensures HasTag(Bytes(s)[0], 0, true, 16)
  {
    hide Field, Body;
  }

  /** The parser takes an element as field n only under that tag, and without it sees no field. */
  lemma FieldTagsRead(bs: seq<byte>, n: nat)
    requires n <= LAST_TAG
    ensures OptionalIn(bs, Tag(n)) == Got(None, bs) <==> bs == [] || !HasTag(bs[0], 2, true, n)
    ensures OptionalIn(bs, Tag(n)).Got? && OptionalIn(bs, Tag(n)).value.Some? ==> bs != [] && HasTag(bs[0], 2, true, n)
    ensures MandatoryIn(bs, n).Got? ==> bs != [] && HasTag(bs[0], 2, true, n)
  {
    hide GetLength, Base128, UintElement;
    var b := if bs == [] then 0 else bs[0];
    assert HasTag(b, 2, true, n) <==> b == 160 + n;
  }

  // ---------- each kind of field, from any bytes ----------

  /** Field n with these contents, or nothing. */
  function Explicit(n: nat, content: Option<seq<byte>>): seq<byte>
    requires n <= LAST_TAG
  {
    match content case None => [] case Some(c) => Tlv(Tag(n), c)
  }

  predicate Absent(bs: seq<byte>, n: nat) {
    bs == [] || !HasTag(bs[0], 2, true, n)
  }

  lemma OptionalExactly(bs: seq<byte>, n: nat, c: Option<seq<byte>>, rest: seq<byte>)
    requires n <= LAST_TAG && |bs| <= MAX_CONTENT
    ensures OptionalIn(bs, Tag(n)) == Got(c, rest) <==> bs == Explicit(n, c) + rest && (c.None? ==> Absent(bs, n))
  {
    FieldTagsRead(bs, n);
    hide Asn1Front, Length;
    if c.Some? {
      FrontExactly(bs, Tag(n), c.value, rest);
      assert bs == Tlv(Tag(n), c.value) + rest ==> bs[0] == Tag(n);
    } else {
      assert [] + rest == rest;
    }
  }

  /** An integer: the INTEGER of its value under the tag and nothing else there, or its default when there is no such field. */
  lemma UintExactly(bs: seq<byte>, n: nat, default: nat, limit: nat, v: nat, rest: seq<byte>)
    requires n <= LAST_TAG && default <= limit < TWO64 && |bs| <= MAX_CONTENT
    ensures UintIn(bs, n, default, limit) == Got(v, rest) <==>
      || (Absent(bs, n) && v == default && rest == bs)
      || (v <= limit && bs == Explicit(n, Some(Tlv(INTEGER, IntContent(v)))) + rest)
  {
    hide OptionalIn, UintElement, Tlv, IntContent, HasTag;
    FieldTagsRead(bs, n);
    var c := Tlv(INTEGER, IntContent(v));
    OptionalExactly(bs, n, Some(c), rest);
    assert c + [] == c;
    if v <= limit {
      AloneAndShort(v);
      IntegerExactly(c, v, []);
    }
    match OptionalIn(bs, Tag(n))
    case Got(Some(d), r) =>
      OptionalExactly(bs, n, Some(d), r);
      ContentShorter(bs, n, d, r);
      IntegerExactly(d, v, []);
    case Got(None, r) => NoneExactly(bs, n, r);
    case Fail =>
  }

  lemma NoneExactly(bs: seq<byte>, n: nat, rest: seq<byte>)
    requires n <= LAST_TAG && |bs| <= MAX_CONTENT
    ensures OptionalIn(bs, Tag(n)) == Got(None, rest) <==> rest == bs && Absent(bs, n)
  {
    OptionalExactly(bs, n, None, rest);
    assert [] + rest == rest;
  }

  lemma AloneAndShort(v: nat)
    requires v < TWO64
    ensures |Tlv(INTEGER, IntContent(v))| <= 11
  {
    UintInverse(v);
  }

  lemma ContentShorter(bs: seq<byte>, n: nat, c: seq<byte>, rest: seq<byte>)
    requires n <= LAST_TAG && bs == Explicit(n, Some(c)) + rest
    ensures |c| <= |bs|
  {
  }

  /** A mandatory integer: the INTEGER comes first under the tag; what stands behind it there is not looked at. */
  lemma MandatoryExactly(bs: seq<byte>, n: nat, v: nat, rest: seq<byte>)
    requires n <= LAST_TAG && |bs| <= MAX_CONTENT
    ensures MandatoryIn(bs, n) == Got(v, rest) <==>
      v < TWO64 && exists more :: bs == Explicit(n, Some(Tlv(INTEGER, IntContent(v)) + more)) + rest
  {
    hide Asn1Front, UintElement, Tlv, IntContent;
    if MandatoryIn(bs, n) == Got(v, rest) {
      var c := Asn1Front(bs, Tag(n)).value;
      FrontExactly(bs, Tag(n), c, rest);
      ContentShorter(bs, n, c, rest);
      var more := UintElement(c).rest;
      IntegerExactly(c, v, more);
      assert bs == Explicit(n, Some(Tlv(INTEGER, IntContent(v)) + more)) + rest;
    }
    if v < TWO64 && exists more :: bs == Explicit(n, Some(Tlv(INTEGER, IntContent(v)) + more)) + rest {
      var more :| bs == Explicit(n, Some(Tlv(INTEGER, IntContent(v)) + more)) + rest;
      var c := Tlv(INTEGER, IntContent(v)) + more;
      FrontExactly(bs, Tag(n), c, rest);
      ContentShorter(bs, n, c, rest);
      IntegerExactly(c, v, more);
    }
  }

  /** An octet string. */
  lemma OctetsExactly(bs: seq<byte>, n: nat, d: Option<seq<byte>>, rest: seq<byte>)
    requires n <= LAST_TAG && |bs| <= MAX_CONTENT
    ensures OctetsIn(bs, n) == Got(d, rest) <==>
      bs == Explicit(n, if d.None? then None else Some(Tlv(OCTET_STRING, d.value))) + rest && (d.None? ==> Absent(bs, n))
  {
    hide OptionalIn, Inner, Tlv, HasTag;
    OptionalExactly(bs, n, if d.None? then None else Some(Tlv(OCTET_STRING, d.value)), rest);
    if d.Some? && bs == Explicit(n, Some(Tlv(OCTET_STRING, d.value))) + rest {
      ContentShorter(bs, n, Tlv(OCTET_STRING, d.value), rest);
      InnerExactly(Tlv(OCTET_STRING, d.value), OCTET_STRING, d.value);
    }
    match OptionalIn(bs, Tag(n))
    case Got(Some(c), r) =>
      OptionalExactly(bs, n, Some(c), r);
      ContentShorter(bs, n, c, r);
      if Inner(c, OCTET_STRING).Some? { InnerExactly(c, OCTET_STRING, Inner(c, OCTET_STRING).value); }
    case _ =>
  }

  /** A boolean: one byte, all ones or zero, or its default when there is no such field. */
  lemma BoolExactly(bs: seq<byte>, n: nat, default: bool, b: bool, rest: seq<byte>)
    requires n <= LAST_TAG && |bs| <= MAX_CONTENT
    ensures BoolIn(bs, n, default) == Got(b, rest) <==>
      || (Absent(bs, n) && b == default && rest == bs)
      || bs == Explicit(n, Some([1, 1, if b then 255 else 0])) + rest
  {
    hide OptionalIn, Inner, HasTag;
    var c := [1, 1, if b then 255 else 0];
    assert c == Tlv(BOOLEAN, [if b then 255 else 0]);
    hide Tlv;
    FieldTagsRead(bs, n);
    OptionalExactly(bs, n, Some(c), rest);
    InnerExactly(c, BOOLEAN, [if b then 255 else 0]);
    match OptionalIn(bs, Tag(n))
    case Got(Some(d), r) =>
      OptionalExactly(bs, n, Some(d), r);
      ContentShorter(bs, n, d, r);
      if Inner(d, BOOLEAN).Some? { InnerExactly(d, BOOLEAN, Inner(d, BOOLEAN).value); }
    case Got(None, r) => NoneExactly(bs, n, r);
    case Fail =>
  }

  // ---------- what is skipped, and what may not follow ----------

  /** An old host name between the verify result and the PSK identity is not looked at, whatever is in it. */
  lemma HostNameIgnored(v: Option<nat>, c: seq<byte>, rest: seq<byte>)
    requires |c| <= MAX_CONTENT && (v.Some? ==> v.value <= LONG_MAX) && Absent(rest, 5) && Absent(rest, 6)
    ensures var before := Explicit(5, if v.None? then None else Some(Tlv(INTEGER, IntContent(v.value))));
      TicketIn(before + (Explicit(6, Some(c)) + rest)) == TicketIn(before + rest)
  {
    hide UintIn, OctetsIn, StowedIn, HasTag;
    var host := Explicit(6, Some(c));
    HostRead(c, rest);
    VerifyRead(v, host + rest);
    VerifyRead(v, rest);
    FieldTagsRead(rest, 6);
  }

  lemma HostRead(c: seq<byte>, rest: seq<byte>)
    requires |c| <= MAX_CONTENT
    ensures OptionalIn(Explicit(6, Some(c)) + rest, Tag(6)) == Got(Some(c), rest)
    ensures Absent(Explicit(6, Some(c)) + rest, 5)
  {
    hide GetElement, Length;
    ElementInverse(Tag(6), c, rest);
  }

  lemma VerifyRead(v: Option<nat>, rest: seq<byte>)
    requires (v.Some? ==> v.value <= LONG_MAX) && (v.None? ==> Absent(rest, 5))
    ensures UintIn(Explicit(5, if v.None? then None else Some(Tlv(INTEGER, IntContent(v.value)))) + rest, 5, 0, LONG_MAX) ==
      Got(if v.None? then 0 else v.value, rest)
  {
    if v.None? {
      FieldTagsRead(rest, 5);
      assert [] + rest == rest;
    } else {
      hide GetElement, IntContent, Length;
      AloneAndShort(v.value);
      UintAlone(v.value);
      ElementInverse(Tag(5), Tlv(INTEGER, IntContent(v.value)), rest);
    }
  }

  /** Fields 21 to 26 take all that is left of the contents: whatever else stands there, the session is refused. */
  lemma NothingElse(bs: seq<byte>, timeout: nat)
    requires timeout < TWO32 && |bs| <= MAX_CONTENT && LastIn(bs, timeout).Got?
    ensures exists c21, c22, c23, c24, c25, c26 ::
      bs == Explicit(21, c21) + (Explicit(22, c22) + (Explicit(23, c23) + (Explicit(24, c24) + (Explicit(25, c25) + Explicit(26, c26)))))
  {
    hide AgeIn, BoolIn, UintIn, StowedIn, Explicit;
    var r1 := AgeIn(bs).rest;
    var c21 := AgeWhole(bs);
    var r2 := BoolIn(r1, 22, true).rest;
    var c22 := BoolWhole(r1, 22, true);
    var r3 := UintIn(r2, 23, 0, 0xFFFF).rest;
    var c23 := UintWholeAt(r2, 23, 0, 0xFFFF);
    var r4 := UintIn(r3, 24, 0, TWO32 - 1).rest;
    var c24 := UintWholeAt(r3, 24, 0, TWO32 - 1);
    var r5 := UintIn(r4, 25, timeout, TWO32 - 1).rest;
    var c25 := UintWholeAt(r4, 25, timeout, TWO32 - 1);
    var c26 := StowedWhole(r5, 26);
    assert Explicit(26, c26) + [] == Explicit(26, c26);
  }

  lemma OneOptional(bs: seq<byte>, n: nat) returns (c: Option<seq<byte>>)
    requires n <= LAST_TAG && |bs| <= MAX_CONTENT && OptionalIn(bs, Tag(n)).Got?
    ensures bs == Explicit(n, c) + OptionalIn(bs, Tag(n)).rest
  {
    hide OptionalIn, Explicit;
    c := OptionalIn(bs, Tag(n)).value;
    OptionalExactly(bs, n, c, OptionalIn(bs, Tag(n)).rest);
  }

  lemma AgeWhole(bs: seq<byte>) returns (c: Option<seq<byte>>)
    requires |bs| <= MAX_CONTENT && AgeIn(bs).Got?
    ensures bs == Explicit(21, c) + AgeIn(bs).rest
  {
    hide OptionalIn, Explicit, Inner;
    c := OneOptional(bs, 21);
  }

  lemma BoolWhole(bs: seq<byte>, n: nat, default: bool) returns (c: Option<seq<byte>>)
    requires n <= LAST_TAG && |bs| <= MAX_CONTENT && BoolIn(bs, n, default).Got?
    ensures bs == Explicit(n, c) + BoolIn(bs, n, default).rest
  {
    hide OptionalIn, Explicit, Inner;
    c := OneOptional(bs, n);
  }

  lemma UintWholeAt(bs: seq<byte>, n: nat, default: nat, limit: nat) returns (c: Option<seq<byte>>)
    requires n <= LAST_TAG && default <= limit && |bs| <= MAX_CONTENT && UintIn(bs, n, default, limit).Got?
    ensures bs == Explicit(n, c) + UintIn(bs, n, default, limit).rest
  {
    hide OptionalIn, Explicit, UintElement;
    c := OneOptional(bs, n);
  }

  lemma StowedWhole(bs: seq<byte>, n: nat) returns (c: Option<seq<byte>>)
    requires n <= LAST_TAG && |bs| <= MAX_CONTENT && StowedIn(bs, n).Got?
    ensures bs == Explicit(n, c) + StowedIn(bs, n).rest
  {
    hide OptionalIn, Explicit, Inner;
    c := OneOptional(bs, n);
  }

  /** The bounds, as numbers: protocol versions SSL 3.0 to TLS 1.3 draft 23 and DTLS 1.0 and 1.2, and the lengths of what is bounded. */
  lemma Bounds(s: Session, known: nat -> bool)
    ensures Restorable(s, known) <==>
      && Typed(s) && s.sslVersion in {0x0300, 0x0301, 0x0302, 0x0303, 0x7F17, 0xFEFF, 0xFEFD} && known(s.cipher)
      && |s.sessionId| <= 32 && |s.masterKey| <= 48 && |s.sidCtx| <= 32 && |s.originalHash| <= 64 && s.verifyResult >= 0
      && (s.pskIdentity.Some? ==> 0 !in s.pskIdentity.value) && (s.sha256.Some? ==> |s.sha256.value| == 32)
      && (s.sha256.None? && s.certs != [] ==> s.certs[0] != [])
      && (s.sha256.None? ==> forall i | 1 <= i < |s.certs| :: IsElement(s.certs[i]))
  {
    hide IsElement;
  }
}
