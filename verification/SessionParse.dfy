/**
 Reading a session back: a cursor moves over the bytes while the fields are
 filled in. Every step is proved to do what SessionReading says of its input,
 whatever the input is.
 */
module SessionParse {
  import opened Common
  import opened Bits
  import opened Der
  import opened DerElement
  import opened SessionFormat
  import opened SessionCodec
  import opened SessionReading
  import opened SessionRestore

  /** The step answered what the bytes mean, and left the cursor behind what it read. */
  ghost predicate Took<T(!new)>(r: Read<T>, out: Option<T>, rest: seq<byte>) {
    match r case Fail => out == None case Got(v, left) => out == Some(v) && rest == left
  }

  /** CBS_get_optional_asn1. */
  method TakeOptional(session: Cbs, tag: byte) returns (out: Option<Option<seq<byte>>>)
    modifies session
    ensures Took(OptionalIn(old(session.rest), tag), out, session.rest)
  {
    hide Asn1Front, Peek;
    var child := session.GetOptional(tag);
    match child {
      case Malformed => return None;
      case Absent => return Some(None);
      case Present(c) => return Some(Some(c));
    }
  }

  /** SSL_SESSION_parse_long, _u32 and _u16, by their limits. */
  method TakeUint(session: Cbs, n: nat, default: nat, limit: nat) returns (out: Option<nat>)
    requires n <= LAST_TAG && default <= limit
    modifies session
    ensures Took(UintIn(old(session.rest), n, default, limit), out, session.rest)
  {
    hide OptionalIn, UintElement;
    var child := TakeOptional(session, Tag(n));
    if child.None? { return None; }
    if child.value.None? { return Some(default); }
    var inner := new Cbs(child.value.value);
    var value := inner.GetUint64();
    if value.None? || |inner.rest| > 0 || value.value > limit { return None; }
    return value;
  }

  method TakeMandatory(session: Cbs, n: nat) returns (out: Option<nat>)
    requires n <= LAST_TAG
    modifies session
    ensures Took(MandatoryIn(old(session.rest), n), out, session.rest)
  {
    hide Asn1Front, UintElement;
    var child := session.GetAsn1(Tag(n));
    if child.None? { return None; }
    var inner := new Cbs(child.value);
    out := inner.GetUint64();
  }

  /** CBS_get_optional_asn1_octet_string and SSL_SESSION_parse_crypto_buffer. */
  method TakeOctets(session: Cbs, n: nat) returns (out: Option<Option<seq<byte>>>)
    requires n <= LAST_TAG
    modifies session
    ensures Took(OctetsIn(old(session.rest), n), out, session.rest)
  {
    hide Asn1Front, Inner, Peek;
    var value := session.GetOptionalOctetString(Tag(n));
    match value {
      case Malformed => return None;
      case Absent => return Some(None);
      case Present(x) => return Some(Some(x));
    }
  }

  /** SSL_SESSION_parse_octet_string. */
  method TakeStowed(session: Cbs, n: nat) returns (out: Option<Option<seq<byte>>>)
    requires n <= LAST_TAG
    modifies session
    ensures Took(StowedIn(old(session.rest), n), out, session.rest)
  {
    hide OctetsIn;
    var value := TakeOctets(session, n);
    if value.None? { return None; }
    return Some(if value.value.Some? && |value.value.value| == 0 then None else value.value);
  }

  /** SSL_SESSION_parse_bounded_octet_string. */
  method TakeBounded(session: Cbs, n: nat, limit: nat) returns (out: Option<seq<byte>>)
    requires n <= LAST_TAG
    modifies session
    ensures Took(BoundedIn(old(session.rest), n, limit), out, session.rest)
  {
    hide OctetsIn;
    var value := TakeOctets(session, n);
    if value.None? { return None; }
    if value.value.None? { return Some([]); }
    return if |value.value.value| > limit then None else value.value;
  }

  /** CBS_get_optional_asn1_bool. */
  method TakeBool(session: Cbs, n: nat, default: bool) returns (out: Option<bool>)
    requires n <= LAST_TAG
    modifies session
    ensures Took(BoolIn(old(session.rest), n, default), out, session.rest)
  {
    hide OptionalIn, Inner;
    var child := TakeOptional(session, Tag(n));
    if child.None? { return None; }
    if child.value.None? { return Some(default); }
    var value := Inner(child.value.value, BOOLEAN);
    if value.None? || |value.value| != 1 { return None; }
    if value.value[0] == 0 { return Some(false); }
    if value.value[0] == 0xFF { return Some(true); }
    return None;
  }

  // ---------- groups of fields ----------

  method TakeString(session: Cbs, limit: nat) returns (out: Option<seq<byte>>)
    modifies session
    ensures Took(ShortString(old(session.rest), limit), out, session.rest)
  {
    hide Asn1Front;
    out := session.GetAsn1(OCTET_STRING);
    if out.Some? && |out.value| > limit { return None; }
  }

  method TakeCipher(session: Cbs, known: nat -> bool) returns (out: Option<nat>)
    modifies session
    ensures Took(CipherIn(old(session.rest), known), out, session.rest)
  {
    hide Asn1Front;
    var cipher := session.GetAsn1(OCTET_STRING);
    if cipher.None? || |cipher.value| != 2 { return None; }
    var id := cipher.value[0] as int * 256 + cipher.value[1];
    return if known(id) then Some(id) else None;
  }

  /** Version to master key. */
  method ParseHead(session: Cbs, known: nat -> bool) returns (out: Option<HeadFields>)
    modifies session
    ensures Took(HeadIn(old(session.rest), known), out, session.rest)
  {
    hide UintElement, CipherIn, ShortString;
    var version := session.GetUint64();
    if version.None? || version.value != 1 { return None; }
    var sslVersion := session.GetUint64();
    if sslVersion.None? || sslVersion.value > 0xFFFF || !KnownVersion(sslVersion.value) { return None; }
    var cipher := TakeCipher(session, known);
    if cipher.None? { return None; }
    var sessionId := TakeString(session, MAX_SESSION_ID);
    if sessionId.None? { return None; }
    var masterKey := TakeString(session, MAX_MASTER_KEY);
    if masterKey.None? { return None; }
    return Some(HeadFields(sslVersion.value, cipher.value, sessionId.value, masterKey.value));
  }

  /** The leaf certificate. */
  method TakePeer(session: Cbs) returns (out: Option<Option<seq<byte>>>)
    modifies session
    ensures Took(PeerIn(old(session.rest)), out, session.rest)
  {
    hide OptionalIn;
    out := TakeOptional(session, Tag(3));
    if out.Some? && out.value.Some? && |out.value.value| == 0 { return None; }
  }

  /** Time to session ID context. */
  method ParseStart(session: Cbs) returns (out: Option<StartFields>)
    modifies session
    ensures Took(StartIn(old(session.rest)), out, session.rest)
  {
    hide MandatoryIn, PeerIn, BoundedIn;
    var time := TakeMandatory(session, 1);
    if time.None? { return None; }
    var timeout := TakeMandatory(session, 2);
    if timeout.None? || timeout.value >= TWO32 { return None; }
    var peer := TakePeer(session);
    if peer.None? { return None; }
    var sidCtx := TakeBounded(session, 4, MAX_SID_CTX);
    if sidCtx.None? { return None; }
    return Some(StartFields(time.value, timeout.value, peer.value, sidCtx.value));
  }

  /** Verify result to ticket. */
  method ParseTicket(session: Cbs) returns (out: Option<TicketFields>)
    modifies session
    ensures Took(TicketIn(old(session.rest)), out, session.rest)
  {
    hide UintIn, OptionalIn, OctetsIn, StowedIn;
    var verifyResult := TakeUint(session, 5, 0, LONG_MAX);
    if verifyResult.None? { return None; }
    var hostName := TakeOptional(session, Tag(6));
    if hostName.None? { return None; }
    var psk := TakeOctets(session, 8);
    if psk.None? || (psk.value.Some? && 0 in psk.value.value) { return None; }
    var hint := TakeUint(session, 9, 0, TWO32 - 1);
    if hint.None? { return None; }
    var ticket := TakeStowed(session, 10);
    if ticket.None? { return None; }
    return Some(TicketFields(verifyResult.value, psk.value, hint.value, ticket.value));
  }

  /** Hash of the peer's certificate to OCSP response. */
  method ParseDigest(session: Cbs) returns (out: Option<DigestFields>)
    modifies session
    ensures Took(DigestIn(old(session.rest)), out, session.rest)
  {
    hide OctetsIn, BoundedIn;
    var sha256 := TakeOctets(session, 13);
    if sha256.None? || (sha256.value.Some? && |sha256.value.value| != SHA256_LENGTH) { return None; }
    var hash := TakeBounded(session, 14, MAX_DIGEST);
    if hash.None? { return None; }
    var sctList := TakeOctets(session, 15);
    if sctList.None? { return None; }
    var ocsp := TakeOctets(session, 16);
    if ocsp.None? { return None; }
    return Some(DigestFields(sha256.value, hash.value, sctList.value, ocsp.value));
  }

  /** The loop that cuts the chain into its certificates. */
  method CutChain(chain: seq<byte>) returns (out: Option<seq<seq<byte>>>)
    ensures out == ChainOf(chain)
  {
    hide GetElement, IsElement;
    var rest := chain;
    var found: seq<seq<byte>> := [];
    assert ChainOf(chain).Some? ==> found + ChainOf(chain).value == ChainOf(chain).value;
    while |rest| > 0
      invariant match ChainOf(rest) case None => ChainOf(chain) == None case Some(certs) => ChainOf(chain) == Some(found + certs)
      decreases |rest|
    {
      var element := ReadElement(rest);
      match element {
        case Fail => return None;
        case Got(e, after) =>
          ghost var later := ChainOf(after);
          assert later.Some? ==> found + ([e.whole] + later.value) == found + [e.whole] + later.value;
          found := found + [e.whole];
          rest := after;
      }
    }
    assert found + [] == found;
    return Some(found);
  }

  /** Leaf and chain. */
  method TakeCerts(session: Cbs, peer: Option<seq<byte>>) returns (out: Option<seq<seq<byte>>>)
    modifies session
    ensures Took(CertsIn(old(session.rest), peer), out, session.rest)
  {
    hide OptionalIn, ChainOf, IsElement;
    var chain := TakeOptional(session, Tag(19));
    if chain.None? { return None; }
    if chain.value.Some? && |chain.value.value| == 0 { return None; }
    if chain.value.Some? && peer.None? { return None; }
    var certs: seq<seq<byte>> := if peer.Some? then [peer.value] else [];
    if chain.value.Some? {
      var later := CutChain(chain.value.value);
      if later.None? { return None; }
      certs := certs + later.value;
    }
    return Some(certs);
  }

  /** Extended master secret to certificate chain. */
  method ParseChain(session: Cbs, peer: Option<seq<byte>>) returns (out: Option<ChainFields>)
    modifies session
    ensures Took(ChainIn(old(session.rest), peer), out, session.rest)
  {
    hide BoolIn, UintIn, CertsIn, IsElement;
    var ems := TakeBool(session, 17, false);
    if ems.None? { return None; }
    var group := TakeUint(session, 18, 0, 0xFFFF);
    if group.None? { return None; }
    var certs := TakeCerts(session, peer);
    if certs.None? { return None; }
    return Some(ChainFields(ems.value, group.value, certs.value));
  }

  method TakeAge(session: Cbs) returns (out: Option<Option<nat>>)
    modifies session
    ensures Took(AgeIn(old(session.rest)), out, session.rest)
  {
    hide OctetsIn, BigEndian;
    var age := TakeOctets(session, 21);
    if age.None? || (age.value.Some? && |age.value.value| != 4) { return None; }
    return Some(if age.value.Some? then Some(BigEndian(age.value.value)) else None);
  }

  /** Ticket age to ALPN string, after which nothing may follow. */
  method ParseLast(session: Cbs, timeout: nat) returns (out: Option<LastFields>)
    requires timeout < TWO32
    modifies session
    ensures Took(LastIn(old(session.rest), timeout), out, session.rest)
  {
    hide AgeIn, BoolIn, UintIn, StowedIn;
    var age := TakeAge(session);
    if age.None? { return None; }
    var isServer := TakeBool(session, 22, true);
    if isServer.None? { return None; }
    var algorithm := TakeUint(session, 23, 0, 0xFFFF);
    if algorithm.None? { return None; }
    var early := TakeUint(session, 24, 0, TWO32 - 1);
    if early.None? { return None; }
    var authTimeout := TakeUint(session, 25, timeout, TWO32 - 1);
    if authTimeout.None? { return None; }
    var alpn := TakeStowed(session, 26);
    if alpn.None? || |session.rest| > 0 { return None; }
    return Some(LastFields(age.value, isServer.value, algorithm.value, early.value, authTimeout.value, alpn.value));
  }

  // ---------- the whole session ----------

  /** What SSL_SESSION_parse does with the contents of the outer SEQUENCE. */
  method ParseBody(session: Cbs, known: nat -> bool, objectsOk: bool) returns (out: Option<Session>)
    modifies session
    ensures out == if objectsOk then BodyIn(old(session.rest), known) else None
  {
    hide HeadIn, StartIn, TicketIn, DigestIn, ChainIn, LastIn, Restorable, KnownVersion, IsElement;
    var head := ParseHead(session, known);
    if head.None? { return None; }
    var start := ParseStart(session);
    if start.None? { return None; }
    var ticket := ParseTicket(session);
    if ticket.None? { return None; }
    var digest := ParseDigest(session);
    if digest.None? { return None; }
    var chain := ParseChain(session, start.value.peer);
    if chain.None? || !objectsOk { return None; }
    var last := ParseLast(session, start.value.timeout);
    if last.None? { return None; }
    return Some(SessionOf(head.value, start.value, ticket.value, digest.value, chain.value, last.value));
  }

  /** SSL_SESSION_parse. */
  method Parse(cbs: Cbs, known: nat -> bool, objectsOk: bool) returns (out: Option<Session>)
    modifies cbs
    ensures Took(SessionIn(old(cbs.rest), known, objectsOk), out, cbs.rest)
    ensures out.Some? ==> Restorable(out.value, known)
  {
    hide Asn1Front, BodyIn, Restorable;
    var content := cbs.GetAsn1(SEQUENCE);
    if content.None? { return None; }
    var session := new Cbs(content.value);
    out := ParseBody(session, known, objectsOk);
  }

  /**
   Storing a session and reading it back, for every session: it is the session
   again, up to what is not stored, exactly when it fits in size and is within
   the bounds of the parser.
   */
  method StoreAndRestore(s: Session, known: nat -> bool) returns (out: Option<Session>)
    requires Typed(s)
    ensures out == Some(Normal(s)) <==> Encodable(s) && Restorable(s, known)
    ensures out ==
      if Encodable(s) && Acceptable(s, known) then Some(Normal(s).(certs := Rebuilt(s).value)) else None
  {
    hide Body, Tlv, From, SessionIn, Restorable, Acceptable, Rebuilt, Encodable;
    var bytes := ToBytes(s);
    if bytes.None? { return None; }
    var cbs := new Cbs(bytes.value);
    SessionReadsExactly(s, known, []);
    SessionReads(s, known, []);
    assert Bytes(s) + [] == Bytes(s);
    out := Parse(cbs, known, true);
  }
}
