/**
 What is read from the bytes of a stored session, for every session that can be
 stored: that session, or a refusal, and exactly when.
 */
module SessionRestore {
  import opened Common
  import opened Bits
  import opened Der
  import opened DerElement
  import opened SessionFormat
  import opened SessionCodec
  import opened SessionReading

  // ---------- certificates ----------

  lemma SomethingLeft(certs: seq<seq<byte>>, k: nat)
    requires k < |certs| && forall c | c in certs :: IsElement(c)
    ensures Concat(certs[k..]) != []
  {
    var c := certs[k..];
    assert c[0] in certs && IsElement(c[0]);
    assert Concat(c) == c[0] + Concat(c[1..]);
  }

  lemma {:induction false} ChainReads(certs: seq<seq<byte>>)
    requires forall c | c in certs :: IsElement(c)
    ensures ChainOf(Concat(certs)) == Some(certs)
  {
    hide GetElement;
    if certs != [] {
      assert certs[0..] == certs;
      SomethingLeft(certs, 0);
      ElementThen(certs[0], Concat(certs[1..]));
      ChainReads(certs[1..]);
      assert Concat(certs) == certs[0] + Concat(certs[1..]) && certs == [certs[0]] + certs[1..];
    }
  }

  /** What a chain is cut into makes up the chain again. */
  lemma {:induction false} ChainJoins(chain: seq<byte>)
    requires ChainOf(chain).Some?
    ensures Concat(ChainOf(chain).value) == chain
    decreases |chain|
  {
    hide GetElement, IsElement;
    if chain != [] {
      var e, rest := GetElement(chain).value, GetElement(chain).rest;
      ChainJoins(rest);
      assert ChainOf(chain).value == [e.whole] + ChainOf(rest).value;
      assert ChainOf(chain).value[1..] == ChainOf(rest).value;
    }
  }

  /** A chain is cut into these certificates exactly when each is one element and they make up the chain. */
  lemma ChainExactly(chain: seq<byte>, certs: seq<seq<byte>>)
    ensures ChainOf(chain) == Some(certs) <==> (forall c | c in certs :: IsElement(c)) && Concat(certs) == chain
  {
    hide IsElement, Concat, ChainOf;
    if ChainOf(chain) == Some(certs) { ChainJoins(chain); }
    if (forall c | c in certs :: IsElement(c)) && Concat(certs) == chain { ChainReads(certs); }
  }

  // ---------- what is read from a stored session ----------

  lemma OptionalReads(s: Session, n: nat)
    requires Typed(s) && Encodable(s) && 1 <= n <= LAST_TAG
    ensures OptionalIn(From(s, n), Tag(n)) == Got(Field(s, n), From(s, n + 1))
  {
    hide Field, From, Asn1Front, Encodable;
    ReadField(s, n);
  }

  lemma UintAlone(v: nat)
    requires v < TWO64
    ensures UintElement(Tlv(INTEGER, IntContent(v))) == Got(v, [])
  {
    hide IntContent;
    UintInverse(v);
    ElementInverse(INTEGER, IntContent(v), []);
    assert Tlv(INTEGER, IntContent(v)) + [] == Tlv(INTEGER, IntContent(v));
  }

  lemma OctetsAlone(s: Session, n: nat, d: seq<byte>)
    requires Typed(s) && Encodable(s) && 1 <= n <= LAST_TAG && Field(s, n) == Octets(Some(d))
    ensures Inner(Tlv(OCTET_STRING, d), OCTET_STRING) == Some(d)
  {
    hide Field, Body, Length, GetElement;
    FieldFits(s, n);
    AloneInverse(OCTET_STRING, d);
  }

  /** An integer reads as its value, within the limit. */
  lemma UintReads(s: Session, n: nat, present: bool, v: nat, default: nat, limit: nat)
    requires Typed(s) && Encodable(s) && 1 <= n <= LAST_TAG && Field(s, n) == Uint(present, v)
    requires v < TWO64 && default <= limit && (!present ==> v == default)
    ensures UintIn(From(s, n), n, default, limit) == if v <= limit then Got(v, From(s, n + 1)) else Fail
  {
    hide Field, From, Tlv, IntContent, UintElement, OptionalIn, Encodable;
    OptionalReads(s, n);
    UintAlone(v);
  }

  lemma MandatoryReads(s: Session, n: nat, v: nat)
    requires Typed(s) && Encodable(s) && 1 <= n <= LAST_TAG && Field(s, n) == Uint(true, v) && v < TWO64
    ensures MandatoryIn(From(s, n), n) == Got(v, From(s, n + 1))
  {
    hide Field, From, Tlv, IntContent, UintElement, Asn1Front, Encodable;
    ReadField(s, n);
    UintAlone(v);
  }

  lemma OctetsReads(s: Session, n: nat, d: Option<seq<byte>>)
    requires Typed(s) && Encodable(s) && 1 <= n <= LAST_TAG && Field(s, n) == Octets(d)
    ensures OctetsIn(From(s, n), n) == Got(d, From(s, n + 1))
  {
    hide Field, From, Tlv, Inner, OptionalIn, Encodable;
    OptionalReads(s, n);
    if d.Some? { OctetsAlone(s, n, d.value); }
  }

  lemma BoolReads(s: Session, n: nat, default: bool, v: bool)
    requires Typed(s) && Encodable(s) && 1 <= n <= LAST_TAG
    requires Field(s, n) == Flag(v, default)
    ensures BoolIn(From(s, n), n, default) == Got(v, From(s, n + 1))
  {
    hide Field, From, Tlv, Inner, OptionalIn, Encodable;
    OptionalReads(s, n);
    AloneInverse(BOOLEAN, [if v then 0xFF else 0]);
  }

  lemma Regroup(a: seq<byte>, b: seq<byte>, c: seq<byte>, d: seq<byte>, e: seq<byte>, f: seq<byte>)
    ensures a + b + c + d + e + f == a + (b + (c + (d + (e + f))))
  {
  }

  lemma UintThen(v: nat, rest: seq<byte>)
    requires v < TWO64
    ensures UintElement(Tlv(INTEGER, IntContent(v)) + rest) == Got(v, rest)
  {
    hide IntContent;
    UintInverse(v);
    ElementInverse(INTEGER, IntContent(v), rest);
  }

  lemma HeadFitsIn(s: Session)
    requires Typed(s) && Encodable(s)
    ensures |s.sessionId| <= MAX_CONTENT && |s.masterKey| <= MAX_CONTENT
  {
    hide From, Length, IntContent;
  }

  /** The five elements of the head, one after another. */
  lemma HeadElements(s: Session)
    returns (r1: seq<byte>, r2: seq<byte>, r3: seq<byte>, r4: seq<byte>)
    requires Typed(s) && Encodable(s)
    ensures UintElement(Body(s)) == Got(1, r1) && UintElement(r1) == Got(s.sslVersion, r2)
    ensures Asn1Front(r2, OCTET_STRING) == Got(U16(s.cipher), r3)
    ensures Asn1Front(r3, OCTET_STRING) == Got(s.sessionId, r4)
    ensures Asn1Front(r4, OCTET_STRING) == Got(s.masterKey, From(s, 1))
  {
    hide From, Tlv, IntContent, Asn1Front, UintElement, Concat, Field;
    var tail := From(s, 1);
    HeadFitsIn(s);
    var a, b, c := Tlv(INTEGER, IntContent(1)), Tlv(INTEGER, IntContent(s.sslVersion)), Tlv(OCTET_STRING, U16(s.cipher));
    var d, g := Tlv(OCTET_STRING, s.sessionId), Tlv(OCTET_STRING, s.masterKey);
    r4 := g + tail;
    r3 := d + r4;
    r2 := c + r3;
    r1 := b + r2;
    Regroup(a, b, c, d, g, tail);
    UintThen(1, r1);
    UintThen(s.sslVersion, r2);
    ElementInverse(OCTET_STRING, U16(s.cipher), r3);
    ElementInverse(OCTET_STRING, s.sessionId, r4);
    ElementInverse(OCTET_STRING, s.masterKey, tail);
  }

  function HeadOf(s: Session): HeadFields {
    HeadFields(s.sslVersion, s.cipher, s.sessionId, s.masterKey)
  }

  lemma HeadReads(s: Session, known: nat -> bool)
    requires Typed(s) && Encodable(s)
    ensures HeadIn(Body(s), known) ==
      if HeadFits(HeadOf(s), known) then Got(HeadOf(s), From(s, 1)) else Fail
  {
    hide From, Body, Asn1Front, UintElement, KnownVersion;
    var r1, r2, r3, r4 := HeadElements(s);
  }

  lemma FirstTags(s: Session)
    requires Typed(s)
    ensures Field(s, 1) == Uint(true, s.time) && Field(s, 2) == Uint(true, s.timeout) && Field(s, 3) == Leaf(KeptCerts(s))
    ensures Field(s, 4) == Octets(Some(s.sidCtx)) && Field(s, 5) == Uint(s.verifyResult != 0, AsUnsigned64(s.verifyResult))
    ensures Field(s, 6) == None && Field(s, 7) == None && Field(s, 8) == Octets(s.pskIdentity)
    ensures Field(s, 9) == Uint(s.lifetimeHint > 0, s.lifetimeHint) && Field(s, 10) == Octets(s.ticket)
  {
    hide Tlv, IntContent, Octets, Concat;
  }

  function StartOf(s: Session): StartFields {
    StartFields(s.time, s.timeout, Leaf(KeptCerts(s)), s.sidCtx)
  }

  lemma StartReads(s: Session)
    requires Typed(s) && Encodable(s)
    ensures StartIn(From(s, 1)) == if StartFits(StartOf(s)) then Got(StartOf(s), From(s, 5)) else Fail
  {
    hide Field, From, Octets, Uint, Encodable, Leaf, OptionalIn, MandatoryIn, OctetsIn;
    FirstTags(s);
    MandatoryReads(s, 1, s.time);
    MandatoryReads(s, 2, s.timeout);
    OptionalReads(s, 3);
    OctetsReads(s, 4, Some(s.sidCtx));
  }

  function TicketOf(s: Session): TicketFields {
    TicketFields(s.verifyResult, s.pskIdentity, s.lifetimeHint, NoEmpty(s.ticket))
  }

  lemma TicketReads(s: Session)
    requires Typed(s) && Encodable(s)
    ensures TicketIn(From(s, 5)) == if TicketFits(TicketOf(s)) then Got(TicketOf(s), From(s, 11)) else Fail
  {
    hide Field, From, Octets, Uint, Encodable, OptionalIn, UintIn, OctetsIn;
    FirstTags(s);
    UintReads(s, 5, s.verifyResult != 0, AsUnsigned64(s.verifyResult), 0, LONG_MAX);
    OptionalReads(s, 6);
    Skip(s, 7);
    OctetsReads(s, 8, s.pskIdentity);
    UintReads(s, 9, s.lifetimeHint > 0, s.lifetimeHint, 0, TWO32 - 1);
    OctetsReads(s, 10, s.ticket);
  }

  lemma MiddleTags(s: Session)
    requires Typed(s)
    ensures Field(s, 11) == None && Field(s, 12) == None && Field(s, 13) == Octets(s.sha256)
    ensures Field(s, 14) == Octets(NoEmpty(Some(s.originalHash)))
    ensures Field(s, 15) == Octets(s.sctList) && Field(s, 16) == Octets(s.ocspResponse)
    ensures Field(s, 17) == Flag(s.extendedMasterSecret, false)
    ensures Field(s, 18) == Uint(s.groupId > 0, s.groupId) && Field(s, 19) == Chain(KeptCerts(s)) && Field(s, 20) == None
  {
    hide Tlv, IntContent, Octets, Concat;
  }

  function DigestOf(s: Session): DigestFields {
    DigestFields(s.sha256, s.originalHash, s.sctList, s.ocspResponse)
  }

  lemma DigestReads(s: Session)
    requires Typed(s) && Encodable(s)
    ensures DigestIn(From(s, 11)) == if DigestFits(DigestOf(s)) then Got(DigestOf(s), From(s, 17)) else Fail
  {
    hide Field, From, Octets, Encodable, OctetsIn;
    MiddleTags(s);
    Skip(s, 11);
    Skip(s, 12);
    OctetsReads(s, 13, s.sha256);
    OctetsReads(s, 14, NoEmpty(Some(s.originalHash)));
    OctetsReads(s, 15, s.sctList);
    OctetsReads(s, 16, s.ocspResponse);
  }

  /** The certificates that the stored chain gives back; None when it cannot be cut into elements. */
  function Rebuilt(s: Session): Option<seq<seq<byte>>> {
    match Chain(KeptCerts(s))
    case None => Some(KeptCerts(s))
    case Some(chain) =>
      if chain == [] then None
      else match ChainOf(chain) case None => None case Some(cut) => Some([KeptCerts(s)[0]] + cut)
  }

  /** They are those of the session exactly when each behind the leaf is one element. */
  lemma RebuiltExactly(s: Session)
    requires Leaf(KeptCerts(s)) != Some([])
    ensures Rebuilt(s) == Some(KeptCerts(s)) <==> WellCut(KeptCerts(s))
  {
    hide IsElement, ChainOf, Concat;
    if Chain(KeptCerts(s)).Some? {
      var certs := s.certs[1..];
      assert s.certs == [s.certs[0]] + certs;
      ChainExactly(Chain(KeptCerts(s)).value, certs);
      if forall c | c in certs :: IsElement(c) {
        SomethingLeft(certs, 0);
        assert certs[0..] == certs;
      }
      var cut := ChainOf(Chain(KeptCerts(s)).value);
      assert Rebuilt(s) == Some(s.certs) ==> ([s.certs[0]] + cut.value)[1..] == cut.value;
      assert forall i | 1 <= i < |s.certs| :: s.certs[i] == certs[i - 1];
    }
  }

  lemma CertsRead(s: Session)
    requires Typed(s) && Encodable(s)
    ensures CertsIn(From(s, 19), Leaf(KeptCerts(s))) == match Rebuilt(s) case None => Fail case Some(certs) => Got(certs, From(s, 20))
  {
    hide Field, From, Encodable, OptionalIn, ChainOf, Concat;
    MiddleTags(s);
    OptionalReads(s, 19);
    if Chain(KeptCerts(s)).None? && Leaf(KeptCerts(s)).Some? { assert s.certs == [s.certs[0]]; }
  }

  lemma ChainFieldsRead(s: Session)
    requires Typed(s) && Encodable(s)
    ensures ChainIn(From(s, 17), Leaf(KeptCerts(s))) == match Rebuilt(s)
      case None => Fail
      case Some(certs) => Got(ChainFields(s.extendedMasterSecret, s.groupId, certs), From(s, 20))
  {
    hide Field, From, Uint, Encodable, Rebuilt, BoolIn, UintIn, CertsIn;
    MiddleTags(s);
    BoolReads(s, 17, false, s.extendedMasterSecret);
    UintReads(s, 18, s.groupId > 0, s.groupId, 0, 0xFFFF);
    CertsRead(s);
  }

  lemma LastTags(s: Session)
    requires Typed(s)
    ensures Field(s, 20) == None && Field(s, 21) == Octets(AgeBytes(s.ticketAgeAdd))
    ensures Field(s, 22) == Flag(s.isServer, true)
    ensures Field(s, 23) == Uint(s.peerSignatureAlgorithm != 0, s.peerSignatureAlgorithm)
    ensures Field(s, 24) == Uint(s.maxEarlyData != 0, s.maxEarlyData)
    ensures Field(s, 25) == Uint(s.timeout != s.authTimeout, s.authTimeout) && Field(s, 26) == Octets(s.earlyAlpn)
  {
    hide Tlv, IntContent, Concat;
  }

  lemma NothingAfter(s: Session)
    requires Typed(s)
    ensures From(s, LAST_TAG + 1) == []
  {
  }

  lemma AgeReads(s: Session)
    requires Typed(s) && Encodable(s)
    ensures AgeIn(From(s, 21)) == Got(s.ticketAgeAdd, From(s, 22))
  {
    hide Field, From, Octets, Encodable, OctetsIn, BigEndian, BigEndianBytes, Pow256;
    LastTags(s);
    OctetsReads(s, 21, AgeBytes(s.ticketAgeAdd));
    var four := 4;
    PowersOf256(four);
    if s.ticketAgeAdd.Some? { BigEndianOfBytes(s.ticketAgeAdd.value, four); }
  }

  lemma LastReads(s: Session)
    requires Typed(s) && Encodable(s)
    ensures LastIn(From(s, 20), s.timeout) ==
      Got(LastFields(s.ticketAgeAdd, s.isServer, s.peerSignatureAlgorithm, s.maxEarlyData, s.authTimeout, NoEmpty(s.earlyAlpn)), [])
  {
    hide Field, From, Octets, Uint, Encodable, OctetsIn, UintIn, BoolIn, AgeIn;
    LastTags(s);
    Skip(s, 20);
    AgeReads(s);
    BoolReads(s, 22, true, s.isServer);
    UintReads(s, 23, s.peerSignatureAlgorithm != 0, s.peerSignatureAlgorithm, 0, 0xFFFF);
    UintReads(s, 24, s.maxEarlyData != 0, s.maxEarlyData, 0, TWO32 - 1);
    UintReads(s, 25, s.timeout != s.authTimeout, s.authTimeout, s.timeout, TWO32 - 1);
    OctetsReads(s, 26, s.earlyAlpn);
    NothingAfter(s);
  }

  // ---------- the whole session ----------

  /** What the parser asks of a stored session. */
  predicate Acceptable(s: Session, known: nat -> bool) {
    && HeadFits(HeadOf(s), known) && StartFits(StartOf(s)) && TicketFits(TicketOf(s)) && DigestFits(DigestOf(s))
    && Rebuilt(s).Some?
  }

  /**
   Every session that can be stored: it is read back, whatever follows it, for
   every combination of present and absent fields, or refused, and exactly when.
   */
  lemma SessionReadsExactly(s: Session, known: nat -> bool, tail: seq<byte>)
    requires Typed(s) && Encodable(s)
    ensures SessionIn(Bytes(s) + tail, known, true) ==
      if Acceptable(s, known) then Got(Normal(s).(certs := Rebuilt(s).value), tail) else Fail
  {
    hide From, Body, Tlv, GetElement, HeadIn, StartIn, TicketIn, DigestIn, ChainIn, LastIn, Rebuilt;
    hide HeadFits, StartFits, TicketFits, DigestFits;
    ElementInverse(SEQUENCE, Body(s), tail);
    HeadReads(s, known);
    StartReads(s);
    TicketReads(s);
    DigestReads(s);
    ChainFieldsRead(s);
    LastReads(s);
  }

  /** It comes back as it was, up to what is not stored, exactly when it is within the bounds of the parser. */
  lemma SessionReads(s: Session, known: nat -> bool, tail: seq<byte>)
    requires Typed(s) && Encodable(s)
    ensures SessionIn(Bytes(s) + tail, known, true) == Got(Normal(s), tail) <==> Restorable(s, known)
    ensures Acceptable(s, known) && Rebuilt(s).value == KeptCerts(s) <==> Restorable(s, known)
  {
    hide SessionIn, Bytes, Encodable, Rebuilt, IsElement, KnownVersion;
    SessionReadsExactly(s, known, tail);
    if Leaf(KeptCerts(s)) != Some([]) { RebuiltExactly(s); }
  }
}
