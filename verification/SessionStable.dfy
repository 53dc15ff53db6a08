/**
 Whatever bytes are accepted as a session: the session can be stored again. It
 never takes more than four bytes more, those of a session ID context that was
 missing and is written as an empty one.
 */
module SessionStable {
  import opened Common
  import opened Bits
  import opened Der
  import opened DerElement
  import opened SessionFormat
  import opened SessionReading
  import opened SessionRestore

  /** The bytes that field n takes with these contents. */
  function Cost(n: nat, c: Option<seq<byte>>): nat
    requires n <= LAST_TAG
  {
    match c case None => 0 case Some(d) => |Tlv(Tag(n), d)|
  }

  lemma CostMore(n: nat, c: seq<byte>, d: seq<byte>)
    requires n <= LAST_TAG && |c| <= |d| <= MAX_CONTENT
    ensures Cost(n, Some(c)) <= Cost(n, Some(d))
  {
    TlvMore(Tag(n), c, d);
  }

  // ---------- one field ----------

  lemma OptionalCost(bs: seq<byte>, n: nat)
    requires n <= LAST_TAG && |bs| <= MAX_CONTENT && OptionalIn(bs, Tag(n)).Got?
    ensures var r := OptionalIn(bs, Tag(n)); |r.rest| + Cost(n, r.value) == |bs|
  {
    hide Asn1Front, Length;
    if Peek(bs, Tag(n)) { FrontCanonical(bs, Tag(n)); }
  }

  /** An INTEGER in front is in its only form. */
  lemma UintWhole(bs: seq<byte>)
    requires |bs| <= MAX_CONTENT && UintElement(bs).Got?
    ensures bs == Tlv(INTEGER, IntContent(UintElement(bs).value)) + UintElement(bs).rest
  {
    hide Asn1Front, UintOf, IntContent, Tlv;
    FrontCanonical(bs, INTEGER);
    IntCanonical(Asn1Front(bs, INTEGER).value);
  }

  lemma InnerWhole(c: seq<byte>, tag: byte)
    requires |c| <= MAX_CONTENT && Inner(c, tag).Some?
    ensures c == Tlv(tag, Inner(c, tag).value)
  {
    hide Asn1Front, Tlv;
    FrontCanonical(c, tag);
    assert Tlv(tag, Inner(c, tag).value) + [] == Tlv(tag, Inner(c, tag).value);
  }

  lemma UintCost(bs: seq<byte>, n: nat, default: nat, limit: nat)
    requires n <= LAST_TAG && default <= limit && |bs| <= MAX_CONTENT && UintIn(bs, n, default, limit).Got?
    ensures var r := UintIn(bs, n, default, limit); |r.rest| + Cost(n, Uint(r.value != default, r.value)) <= |bs|
  {
    hide Asn1Front, UintElement, IntContent, Tlv, Peek;
    OptionalCost(bs, n);
    var c := OptionalIn(bs, Tag(n)).value;
    if c.Some? {
      UintWhole(c.value);
      assert UintElement(c.value).rest == [];
      assert Tlv(INTEGER, IntContent(UintElement(c.value).value)) + [] == Tlv(INTEGER, IntContent(UintElement(c.value).value));
    }
  }

  /** Whatever stands behind the integer is not written again. */
  lemma MandatoryCost(bs: seq<byte>, n: nat)
    requires n <= LAST_TAG && |bs| <= MAX_CONTENT && MandatoryIn(bs, n).Got?
    ensures var r := MandatoryIn(bs, n); |r.rest| + Cost(n, Uint(true, r.value)) <= |bs|
  {
    hide Asn1Front, UintElement, IntContent, Tlv;
    FrontCanonical(bs, Tag(n));
    var c := Asn1Front(bs, Tag(n)).value;
    UintWhole(c);
    CostMore(n, Tlv(INTEGER, IntContent(UintElement(c).value)), c);
  }

  lemma OctetsCost(bs: seq<byte>, n: nat)
    requires n <= LAST_TAG && |bs| <= MAX_CONTENT && OctetsIn(bs, n).Got?
    ensures var r := OctetsIn(bs, n); |r.rest| + Cost(n, Octets(r.value)) == |bs|
  {
    hide Inner, Tlv, Peek;
    OptionalCost(bs, n);
    var c := OptionalIn(bs, Tag(n)).value;
    if c.Some? { InnerWhole(c.value, OCTET_STRING); }
  }

  lemma BoolCost(bs: seq<byte>, n: nat, default: bool)
    requires n <= LAST_TAG && |bs| <= MAX_CONTENT && BoolIn(bs, n, default).Got?
    ensures var r := BoolIn(bs, n, default);
      |r.rest| + Cost(n, Flag(r.value, default)) <= |bs|
  {
    hide Inner, Tlv, Peek;
    OptionalCost(bs, n);
    var c := OptionalIn(bs, Tag(n)).value;
    if c.Some? { InnerWhole(c.value, BOOLEAN); }
  }

  lemma AgeCost(bs: seq<byte>)
    requires |bs| <= MAX_CONTENT && AgeIn(bs).Got?
    ensures var r := AgeIn(bs);
      |r.rest| + Cost(21, Octets(AgeBytes(r.value))) == |bs|
  {
    hide OctetsIn, Octets, BigEndian, BigEndianBytes;
    OctetsCost(bs, 21);
    var v := OctetsIn(bs, 21).value;
    if v.Some? { BytesOfBigEndian(v.value); }
  }

  // ---------- groups of fields ----------

  lemma HeadCost(bs: seq<byte>, known: nat -> bool)
    requires |bs| <= MAX_CONTENT && HeadIn(bs, known).Got?
    ensures var r := HeadIn(bs, known);
      && r.value.sslVersion < 0x1_0000
      && bs == Tlv(INTEGER, IntContent(1)) + Tlv(INTEGER, IntContent(r.value.sslVersion)) + Tlv(OCTET_STRING, U16(r.value.cipher)) +
        Tlv(OCTET_STRING, r.value.sessionId) + Tlv(OCTET_STRING, r.value.masterKey) + r.rest
  {
    hide Tlv, IntContent, UintElement, Asn1Front;
    UintWhole(bs);
    var r1 := UintElement(bs).rest;
    UintWhole(r1);
    var r2 := UintElement(r1).rest;
    FrontCanonical(r2, OCTET_STRING);
    var c, r3 := Asn1Front(r2, OCTET_STRING).value, Asn1Front(r2, OCTET_STRING).rest;
    assert U16(HeadIn(bs, known).value.cipher) == c;
    FrontCanonical(r3, OCTET_STRING);
    var r4 := Asn1Front(r3, OCTET_STRING).rest;
    FrontCanonical(r4, OCTET_STRING);
  }

  lemma StartCost(bs: seq<byte>)
    requires |bs| <= MAX_CONTENT && StartIn(bs).Got?
    ensures var r := StartIn(bs);
      |r.rest| + Cost(1, Uint(true, r.value.time)) + Cost(2, Uint(true, r.value.timeout)) + Cost(3, r.value.peer) +
        Cost(4, Octets(Some(r.value.sidCtx))) <= |bs| + 4 && |r.rest| <= |bs|
  {
    hide MandatoryIn, OptionalIn, OctetsIn, Uint;
    MandatoryCost(bs, 1);
    var r1 := MandatoryIn(bs, 1).rest;
    MandatoryCost(r1, 2);
    var r2 := MandatoryIn(r1, 2).rest;
    OptionalCost(r2, 3);
    var r3 := PeerIn(r2).rest;
    OctetsCost(r3, 4);
  }

  lemma EmptyCost(n: nat, d: Option<seq<byte>>)
    requires n <= LAST_TAG
    ensures Cost(n, Octets(NoEmpty(d))) <= Cost(n, Octets(d))
  {
  }

  lemma TicketCost(bs: seq<byte>)
    requires |bs| <= MAX_CONTENT && TicketIn(bs).Got?
    ensures var r := TicketIn(bs);
      |r.rest| + Cost(5, Uint(r.value.verifyResult != 0, AsUnsigned64(r.value.verifyResult))) + Cost(8, Octets(r.value.pskIdentity)) +
        Cost(9, Uint(r.value.lifetimeHint > 0, r.value.lifetimeHint)) + Cost(10, Octets(r.value.ticket)) <= |bs|
  {
    hide UintIn, OptionalIn, OctetsIn, Uint, Octets, Cost;
    UintCost(bs, 5, 0, LONG_MAX);
    var r1 := UintIn(bs, 5, 0, LONG_MAX).rest;
    OptionalCost(r1, 6);
    var r2 := OptionalIn(r1, Tag(6)).rest;
    OctetsCost(r2, 8);
    var r3 := OctetsIn(r2, 8).rest;
    UintCost(r3, 9, 0, TWO32 - 1);
    var r4 := UintIn(r3, 9, 0, TWO32 - 1).rest;
    OctetsCost(r4, 10);
    EmptyCost(10, OctetsIn(r4, 10).value);
  }

  lemma DigestCost(bs: seq<byte>)
    requires |bs| <= MAX_CONTENT && DigestIn(bs).Got?
    ensures var r := DigestIn(bs);
      |r.rest| + Cost(13, Octets(r.value.sha256)) +
        Cost(14, Octets(NoEmpty(Some(r.value.originalHash)))) +
        Cost(15, Octets(r.value.sctList)) + Cost(16, Octets(r.value.ocspResponse)) <= |bs|
  {
    hide OctetsIn, Octets, Cost;
    OctetsCost(bs, 13);
    var r1 := OctetsIn(bs, 13).rest;
    OctetsCost(r1, 14);
    EmptyCost(14, OctetsIn(r1, 14).value);
    var r2 := OctetsIn(r1, 14).rest;
    OctetsCost(r2, 15);
    OctetsCost(OctetsIn(r2, 15).rest, 16);
  }

  lemma ChainCost(bs: seq<byte>, peer: Option<seq<byte>>)
    requires |bs| <= MAX_CONTENT && ChainIn(bs, peer).Got?
    ensures var r := ChainIn(bs, peer);
      && |r.rest| + Cost(17, Flag(r.value.extendedMasterSecret, false)) +
        Cost(18, Uint(r.value.groupId > 0, r.value.groupId)) + Cost(19, Chain(r.value.certs)) <= |bs|
      && peer == Leaf(r.value.certs)
  {
    hide BoolIn, UintIn, OptionalIn, Uint, Tlv, ChainOf, Concat, IsElement;
    BoolCost(bs, 17, false);
    var r1 := BoolIn(bs, 17, false).rest;
    UintCost(r1, 18, 0, 0xFFFF);
    var r2 := UintIn(r1, 18, 0, 0xFFFF).rest;
    OptionalCost(r2, 19);
    var chain := OptionalIn(r2, Tag(19)).value;
    if chain.Some? {
      ChainJoins(chain.value);
      var cut := ChainOf(chain.value).value;
      assert ([peer.value] + cut)[1..] == cut;
    }
  }

  lemma LastCost(bs: seq<byte>, timeout: nat)
    requires timeout < TWO32 && |bs| <= MAX_CONTENT && LastIn(bs, timeout).Got?
    ensures var l := LastIn(bs, timeout).value;
      Cost(21, Octets(AgeBytes(l.ticketAgeAdd))) +
        Cost(22, Flag(l.isServer, true)) +
        Cost(23, Uint(l.peerSignatureAlgorithm != 0, l.peerSignatureAlgorithm)) + Cost(24, Uint(l.maxEarlyData != 0, l.maxEarlyData)) +
        Cost(25, Uint(timeout != l.authTimeout, l.authTimeout)) + Cost(26, Octets(l.earlyAlpn)) <= |bs|
  {
    hide AgeIn, BoolIn, UintIn, OctetsIn, Uint, Octets, Cost, Tlv, AgeBytes;
    AgeCost(bs);
    var r1 := AgeIn(bs).rest;
    BoolCost(r1, 22, true);
    var r2 := BoolIn(r1, 22, true).rest;
    UintCost(r2, 23, 0, 0xFFFF);
    var r3 := UintIn(r2, 23, 0, 0xFFFF).rest;
    UintCost(r3, 24, 0, TWO32 - 1);
    var r4 := UintIn(r3, 24, 0, TWO32 - 1).rest;
    UintCost(r4, 25, timeout, TWO32 - 1);
    var r5 := UintIn(r4, 25, timeout, TWO32 - 1).rest;
    OctetsCost(r5, 26);
    EmptyCost(26, OctetsIn(r5, 26).value);
  }

  // ---------- the whole session ----------

  lemma FromCost(s: Session, n: nat)
    requires Typed(s) && n <= LAST_TAG
    ensures |From(s, n)| == Cost(n, Field(s, n)) + |From(s, n + 1)|
  {
    hide Field, From, Tlv;
    FromStep(s, n);
  }

  lemma FirstCosts(s: Session)
    requires Typed(s)
    ensures |From(s, 1)| == Cost(1, Uint(true, s.time)) + Cost(2, Uint(true, s.timeout)) + Cost(3, Leaf(KeptCerts(s))) +
      Cost(4, Octets(Some(s.sidCtx))) + |From(s, 5)|
    ensures |From(s, 5)| == Cost(5, Uint(s.verifyResult != 0, AsUnsigned64(s.verifyResult))) + Cost(8, Octets(s.pskIdentity)) +
      Cost(9, Uint(s.lifetimeHint > 0, s.lifetimeHint)) + Cost(10, Octets(s.ticket)) + |From(s, 11)|
  {
    hide Field, From, Tlv, Uint, Octets, Leaf, KeptCerts;
    FirstTags(s);
    FromCost(s, 1); FromCost(s, 2); FromCost(s, 3); FromCost(s, 4); FromCost(s, 5);
    FromCost(s, 6); FromCost(s, 7); FromCost(s, 8); FromCost(s, 9); FromCost(s, 10);
  }

  lemma MiddleCosts(s: Session)
    requires Typed(s)
    ensures |From(s, 11)| == Cost(13, Octets(s.sha256)) + Cost(14, Octets(NoEmpty(Some(s.originalHash)))) +
      Cost(15, Octets(s.sctList)) + Cost(16, Octets(s.ocspResponse)) + |From(s, 17)|
    ensures |From(s, 17)| == Cost(17, Flag(s.extendedMasterSecret, false)) + Cost(18, Uint(s.groupId > 0, s.groupId)) +
      Cost(19, Chain(KeptCerts(s))) + |From(s, 20)|
  {
    hide Field, From, Tlv, Uint, Octets, Chain, KeptCerts, Flag, NoEmpty;
    MiddleTags(s);
    FromCost(s, 11); FromCost(s, 12); FromCost(s, 13); FromCost(s, 14); FromCost(s, 15);
    FromCost(s, 16); FromCost(s, 17); FromCost(s, 18); FromCost(s, 19);
  }

  lemma LastCosts(s: Session)
    requires Typed(s)
    ensures |From(s, 20)| == Cost(21, Octets(AgeBytes(s.ticketAgeAdd))) + Cost(22, Flag(s.isServer, true)) +
      Cost(23, Uint(s.peerSignatureAlgorithm != 0, s.peerSignatureAlgorithm)) + Cost(24, Uint(s.maxEarlyData != 0, s.maxEarlyData)) +
      Cost(25, Uint(s.timeout != s.authTimeout, s.authTimeout)) + Cost(26, Octets(s.earlyAlpn))
  {
    hide Field, From, Tlv, Uint, Octets, AgeBytes, Flag;
    LastTags(s);
    FromCost(s, 20); FromCost(s, 21); FromCost(s, 22); FromCost(s, 23); FromCost(s, 24); FromCost(s, 25); FromCost(s, 26);
    NothingAfter(s);
  }

  lemma KeptCosts(s: Session)
    ensures Cost(3, Leaf(KeptCerts(s))) <= Cost(3, Leaf(s.certs)) && Cost(19, Chain(KeptCerts(s))) <= Cost(19, Chain(s.certs))
  {
    hide Tlv, Concat;
  }

  /** Stored again, a session that was accepted takes at most four bytes more. */
  lemma BodyCost(body: seq<byte>, known: nat -> bool)
    requires |body| <= MAX_CONTENT && BodyIn(body, known).Some?
    ensures |Body(BodyIn(body, known).value)| <= |body| + 4
  {
    hide HeadIn, StartIn, TicketIn, DigestIn, ChainIn, LastIn, IsElement, From, Tlv, IntContent, Uint, Octets, Chain;
    hide AgeBytes, Flag, NoEmpty, Leaf, KeptCerts, Cost, KnownVersion;
    var s := BodyIn(body, known).value;
    HeadCost(body, known);
    var r1 := HeadIn(body, known).rest;
    assert body == Head(s) + r1;
    StartCost(r1);
    var b, r2 := StartIn(r1).value, StartIn(r1).rest;
    TicketCost(r2);
    var r3 := TicketIn(r2).rest;
    DigestCost(r3);
    var r4 := DigestIn(r3).rest;
    ChainCost(r4, b.peer);
    var r5 := ChainIn(r4, b.peer).rest;
    LastCost(r5, b.timeout);
    FirstCosts(s);
    MiddleCosts(s);
    LastCosts(s);
    KeptCosts(s);
  }

  /** The header of long contents takes six bytes. */
  lemma LongHeader(tag: byte, c: seq<byte>)
    requires 0x100_0000 <= |c| <= MAX_CONTENT
    ensures |Tlv(tag, c)| >= |c| + 6
  {
    var n := |c|;
    assert |Digits(n / 256)| >= 1 + |Digits(n / 0x1_0000)|;
    assert n / 0x1_0000 / 256 >= 1;
  }

  /** The contents of an element that is read from fewer than 2^32 bytes. */
  lemma ContentFits(bs: seq<byte>, tag: byte)
    requires |bs| < TWO32 && Asn1Front(bs, tag).Got?
    ensures |Asn1Front(bs, tag).value| + 4 <= MAX_CONTENT
  {
    hide GetTag, GetLength, Tlv;
    var c := Asn1Front(bs, tag).value;
    assert |c| + 2 <= |bs|;
    FrontCanonical(bs, tag);
    if |c| >= 0x100_0000 { LongHeader(tag, c); }
  }

  /** Whatever is accepted from fewer than 2^32 bytes can be stored again, and then it is itself up to what is not stored. */
  lemma AcceptedIsStable(bs: seq<byte>, known: nat -> bool)
    requires |bs| < TWO32 && SessionIn(bs, known, true).Got?
    ensures var s := SessionIn(bs, known, true).value;
      Encodable(s) && SessionIn(Bytes(s), known, true) == Got(Normal(s), []) && Normal(Normal(s)) == Normal(s)
  {
    hide BodyIn, Body, IsElement, Tlv, Asn1Front;
    var s := SessionIn(bs, known, true).value;
    ContentFits(bs, SEQUENCE);
    BodyCost(Asn1Front(bs, SEQUENCE).value, known);
    SessionReads(s, known, []);
    assert Bytes(s) + [] == Bytes(s);
  }
}
