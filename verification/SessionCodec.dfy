/** Writing a session out, element by element. */
module SessionCodec {
  import opened Common
  import opened Bits
  import opened Der
  import opened SessionFormat

  // ---------- writing ----------

  lemma Skip(s: Session, n: nat)
    requires Typed(s) && n <= LAST_TAG && Field(s, n).None?
    ensures From(s, n) == From(s, n + 1)
  {
    hide Field;
    assert Part(s, n) + From(s, n + 1) == From(s, n + 1);
  }

  /** One explicitly tagged element, or nothing. */
  method Put(session: Cbb, ghost s: Session, n: nat, content: Option<seq<byte>>) returns (ok: bool)
    requires Typed(s) && 1 <= n <= LAST_TAG && content == Field(s, n) && session.buf + From(s, n) == Body(s)
    modifies session
    ensures ok ==> session.buf + From(s, n + 1) == Body(s)
    ensures !ok ==> !Encodable(s)
  {
    hide Field, Body, From, Tlv;
    if content.None? {
      Skip(s, n);
      return true;
    }
    FieldFits(s, n);
    FromStep(s, n);
    ghost var before, after := session.buf, From(s, n + 1);
    ok := session.AddTlv(Tag(n), content.value);
    ghost var t := Tlv(Tag(n), content.value);
    assert (before + t) + after == before + (t + after);
  }

  method PutUint(session: Cbb, ghost s: Session, n: nat, value: nat) returns (ok: bool)
    requires Typed(s) && 1 <= n <= LAST_TAG && value < TWO64 && Field(s, n) == Uint(true, value)
    requires session.buf + From(s, n) == Body(s)
    modifies session
    ensures ok ==> session.buf + From(s, n + 1) == Body(s)
    ensures !ok ==> !Encodable(s)
  {
    hide Field, Body;
    var child := new Cbb();
    child.AddUint64(value);
    assert [] + Tlv(INTEGER, IntContent(value)) == Tlv(INTEGER, IntContent(value));
    ok := Put(session, s, n, Some(child.buf));
  }

  method PutOctets(session: Cbb, ghost s: Session, n: nat, data: seq<byte>) returns (ok: bool)
    requires Typed(s) && 1 <= n <= LAST_TAG && Field(s, n) == Octets(Some(data))
    requires session.buf + From(s, n) == Body(s)
    modifies session
    ensures ok ==> session.buf + From(s, n + 1) == Body(s)
    ensures !ok ==> !Encodable(s)
  {
    hide Field, Body, Length;
    var child := new Cbb();
    ok := child.AddOctetString(data);
    if !ok {
      InnerTooLong(s, n, data);
      return;
    }
    assert [] + Tlv(OCTET_STRING, data) == Tlv(OCTET_STRING, data);
    ok := Put(session, s, n, Some(child.buf));
  }

  lemma InnerTooLong(s: Session, n: nat, data: seq<byte>)
    requires Typed(s) && 1 <= n <= LAST_TAG && Field(s, n) == Octets(Some(data)) && |data| > MAX_CONTENT
    ensures !Encodable(s)
  {
    hide Field, Length, Body;
    FieldFits(s, n);
  }

  method PutBool(session: Cbb, ghost s: Session, n: nat, b: bool) returns (ok: bool)
    requires Typed(s) && 1 <= n <= LAST_TAG && Field(s, n) == Some(Tlv(BOOLEAN, [if b then 0xFF else 0]))
    requires session.buf + From(s, n) == Body(s)
    modifies session
    ensures ok ==> session.buf + From(s, n + 1) == Body(s)
    ensures !ok ==> !Encodable(s)
  {
    hide Field, Body, Length;
    var child := new Cbb();
    child.AddBool(b);
    ghost var t := Tlv(BOOLEAN, [if b then 0xFF else 0]);
    assert [] + t == t;
    ok := Put(session, s, n, Some(child.buf));
  }

  /** Version, protocol version, cipher, session ID and master key. */
  method PutHead(session: Cbb, s: Session) returns (ok: bool)
    requires Typed(s) && session.buf == []
    modifies session
    ensures ok ==> session.buf == Head(s)
    ensures !ok ==> !Encodable(s)
  {
    hide Tlv, IntContent, From, Encodable;
    session.AddUint64(1);
    session.AddUint64(s.sslVersion);
    ok := session.AddTlv(OCTET_STRING, U16(s.cipher));
    ok := session.AddOctetString(s.sessionId);
    if !ok {
      HeadTooLong(s);
      return;
    }
    ok := session.AddOctetString(s.masterKey);
    if !ok { HeadTooLong(s); }
    ghost var first := Tlv(INTEGER, IntContent(1));
    assert [] + first == first;
  }

  lemma HeadTooLong(s: Session)
    requires Typed(s) && (|s.sessionId| > MAX_CONTENT || |s.masterKey| > MAX_CONTENT)
    ensures !Encodable(s)
  {
    hide From, Length, IntContent;
  }

  /** Time to ticket. */
  method PutFirst(session: Cbb, s: Session) returns (ok: bool)
    requires Typed(s) && session.buf == Head(s)
    modifies session
    ensures ok ==> session.buf + From(s, 11) == Body(s)
    ensures !ok ==> !Encodable(s)
  {
    hide From, Body, Head, Length, IntContent, Octets, Encodable;
    StartBody(s);
    ok := PutUint(session, s, 1, s.time);
    if !ok { return; }
    ok := PutUint(session, s, 2, s.timeout);
    if !ok { return; }
    if |s.certs| > 0 && s.sha256.None? {
      ok := Put(session, s, 3, Some(s.certs[0]));
      if !ok { return; }
    } else {
      Skip(s, 3);
    }
    ok := PutOctets(session, s, 4, s.sidCtx);
    if !ok { return; }
    if s.verifyResult != 0 {
      ok := PutUint(session, s, 5, AsUnsigned64(s.verifyResult));
      if !ok { return; }
    } else {
      Skip(s, 5);
    }
    Skip(s, 6);
    Skip(s, 7);
    ok := PutOptionalOctets(session, s, 8, s.pskIdentity);
    if !ok { return; }
    if s.lifetimeHint > 0 {
      ok := PutUint(session, s, 9, s.lifetimeHint);
      if !ok { return; }
    } else {
      Skip(s, 9);
    }
    ok := PutOptionalOctets(session, s, 10, s.ticket);
  }

  lemma StartBody(s: Session)
    requires Typed(s)
    ensures Head(s) + From(s, 1) == Body(s)
  {
  }

  method PutOptionalOctets(session: Cbb, ghost s: Session, n: nat, data: Option<seq<byte>>) returns (ok: bool)
    requires Typed(s) && 1 <= n <= LAST_TAG && Field(s, n) == Octets(data)
    requires session.buf + From(s, n) == Body(s)
    modifies session
    ensures ok ==> session.buf + From(s, n + 1) == Body(s)
    ensures !ok ==> !Encodable(s)
  {
    hide Field, Body, Length;
    if data.Some? {
      ok := PutOctets(session, s, n, data.value);
    } else {
      Skip(s, n);
      ok := true;
    }
  }

  /** Hash of the peer's certificate to certificate chain. */
  method PutMiddle(session: Cbb, s: Session) returns (ok: bool)
    requires Typed(s) && session.buf + From(s, 11) == Body(s)
    modifies session
    ensures ok ==> session.buf + From(s, 20) == Body(s)
    ensures !ok ==> !Encodable(s)
  {
    hide From, Body, Head, Length, IntContent, Octets, Encodable, Concat;
    Skip(s, 11);
    Skip(s, 12);
    ok := PutOptionalOctets(session, s, 13, s.sha256);
    if !ok { return; }
    ok := PutOptionalOctets(session, s, 14, if |s.originalHash| > 0 then Some(s.originalHash) else None);
    if !ok { return; }
    ok := PutOptionalOctets(session, s, 15, s.sctList);
    if !ok { return; }
    ok := PutOptionalOctets(session, s, 16, s.ocspResponse);
    if !ok { return; }
    if s.extendedMasterSecret {
      ok := PutBool(session, s, 17, true);
      if !ok { return; }
    } else {
      Skip(s, 17);
    }
    if s.groupId > 0 {
      ok := PutUint(session, s, 18, s.groupId);
      if !ok { return; }
    } else {
      Skip(s, 18);
    }
    if s.sha256.None? && |s.certs| >= 2 {
      var chain := JoinCerts(s.certs[1..]);
      ok := Put(session, s, 19, Some(chain));
    } else {
      Skip(s, 19);
    }
  }

  method JoinCerts(certs: seq<seq<byte>>) returns (chain: seq<byte>)
    ensures chain == Concat(certs)
  {
    var child := new Cbb();
    var i := 0;
    while i < |certs|
      invariant 0 <= i <= |certs| && child.buf + Concat(certs[i..]) == Concat(certs)
    {
      assert Concat(certs[i..]) == certs[i] + Concat(certs[i + 1..]);
      child.AddBytes(certs[i]);
      i := i + 1;
    }
    chain := child.buf;
    assert Concat(certs[i..]) == [] && chain + [] == chain;
  }

  method PutAge(session: Cbb, s: Session) returns (ok: bool)
    requires Typed(s) && session.buf + From(s, 21) == Body(s)
    modifies session
    ensures ok ==> session.buf + From(s, 22) == Body(s)
    ensures !ok ==> !Encodable(s)
  {
    hide From, Body, Length, Encodable;
    if s.ticketAgeAdd.Some? {
      var child := new Cbb();
      ok := child.AddTlv(OCTET_STRING, BigEndianBytes(s.ticketAgeAdd.value, 4));
      ghost var t := Tlv(OCTET_STRING, BigEndianBytes(s.ticketAgeAdd.value, 4));
      assert [] + t == t;
      ok := Put(session, s, 21, Some(child.buf));
    } else {
      Skip(s, 21);
      ok := true;
    }
  }

  /** Ticket age to ALPN string. */
  method PutLast(session: Cbb, s: Session) returns (ok: bool)
    requires Typed(s) && session.buf + From(s, 20) == Body(s)
    modifies session
    ensures ok ==> session.buf + From(s, LAST_TAG + 1) == Body(s)
    ensures !ok ==> !Encodable(s)
  {
    hide From, Body, Head, Length, IntContent, Octets, Encodable;
    Skip(s, 20);
    ok := PutAge(session, s);
    if !ok { return; }
    if !s.isServer {
      ok := PutBool(session, s, 22, false);
      if !ok { return; }
    } else {
      Skip(s, 22);
    }
    if s.peerSignatureAlgorithm != 0 {
      ok := PutUint(session, s, 23, s.peerSignatureAlgorithm);
      if !ok { return; }
    } else {
      Skip(s, 23);
    }
    if s.maxEarlyData != 0 {
      ok := PutUint(session, s, 24, s.maxEarlyData);
      if !ok { return; }
    } else {
      Skip(s, 24);
    }
    if s.timeout != s.authTimeout {
      ok := PutUint(session, s, 25, s.authTimeout);
      if !ok { return; }
    } else {
      Skip(s, 25);
    }
    ok := PutOptionalOctets(session, s, 26, s.earlyAlpn);
  }

  /** SSL_SESSION_to_bytes_full for a session that is not put into a ticket. */
  method ToBytes(s: Session) returns (out: Option<seq<byte>>)
    requires Typed(s)
    ensures out == if Encodable(s) then Some(Bytes(s)) else None
  {
    hide Field, From, Body, Head, Length;
    var session := new Cbb();
    var ok := PutHead(session, s);
    if ok { ok := PutFirst(session, s); }
    if ok { ok := PutMiddle(session, s); }
    if ok { ok := PutLast(session, s); }
    if !ok { return None; }
    EndBody(s, session.buf);
    var cbb := new Cbb();
    ok := cbb.AddTlv(SEQUENCE, session.buf);
    if !ok { return None; }
    assert [] + Bytes(s) == Bytes(s);
    return Some(cbb.buf);
  }

  lemma EndBody(s: Session, buf: seq<byte>)
    requires Typed(s) && buf + From(s, LAST_TAG + 1) == Body(s)
    ensures buf == Body(s)
  {
    var n := LAST_TAG + 1;
    assert From(s, n) == [] && buf + [] == buf;
  }
}
