/**
 What stored bytes mean as a session: the value that the parser returns for any
 input, or that it refuses it.
 */
module SessionReading {
  import opened Common
  import opened Bits
  import opened Der
  import opened DerElement
  import opened SessionFormat
  import opened SessionCodec

  // ---------- one field ----------

  /** CBS_get_optional_asn1. */
  function OptionalIn(bs: seq<byte>, tag: byte): (r: Read<Option<seq<byte>>>) {
    if !Peek(bs, tag) then Got(None, bs)
    else match Asn1Front(bs, tag) case Fail => Fail case Got(c, rest) => Got(Some(c), rest)
  }

  /** SSL_SESSION_parse_long, _u32 and _u16, by their limits. */
  function UintIn(bs: seq<byte>, n: nat, default: nat, limit: nat): (r: Read<nat>)
    requires n <= LAST_TAG && default <= limit
    ensures r.Got? ==> r.value <= limit
  {
    match OptionalIn(bs, Tag(n))
    case Fail => Fail
    case Got(None, rest) => Got(default, rest)
    case Got(Some(c), rest) =>
      match UintElement(c)
      case Fail => Fail
      case Got(v, left) => if left != [] || v > limit then Fail else Got(v, rest)
  }

  /** A mandatory INTEGER under an explicit tag, in which more may follow. */
  function MandatoryIn(bs: seq<byte>, n: nat): (r: Read<nat>)
    requires n <= LAST_TAG
    ensures r.Got? ==> r.value < TWO64
  {
    match Asn1Front(bs, Tag(n))
    case Fail => Fail
    case Got(c, rest) => match UintElement(c) case Fail => Fail case Got(v, _) => Got(v, rest)
  }

  /** CBS_get_optional_asn1_octet_string and SSL_SESSION_parse_crypto_buffer. */
  function OctetsIn(bs: seq<byte>, n: nat): (r: Read<Option<seq<byte>>>)
    requires n <= LAST_TAG
  {
    match OptionalIn(bs, Tag(n))
    case Fail => Fail
    case Got(None, rest) => Got(None, rest)
    case Got(Some(c), rest) => match Inner(c, OCTET_STRING) case None => Fail case Some(v) => Got(Some(v), rest)
  }

  /** SSL_SESSION_parse_octet_string: an empty string is the same as none. */
  function StowedIn(bs: seq<byte>, n: nat): (r: Read<Option<seq<byte>>>)
    requires n <= LAST_TAG
  {
    match OctetsIn(bs, n) case Fail => Fail case Got(d, rest) => Got(NoEmpty(d), rest)
  }

  /** SSL_SESSION_parse_bounded_octet_string: a missing string is empty. */
  function BoundedIn(bs: seq<byte>, n: nat, limit: nat): (r: Read<seq<byte>>)
    requires n <= LAST_TAG
    ensures r.Got? ==> |r.value| <= limit
  {
    match OctetsIn(bs, n)
    case Fail => Fail
    case Got(None, rest) => Got([], rest)
    case Got(Some(v), rest) => if |v| > limit then Fail else Got(v, rest)
  }

  /** CBS_get_optional_asn1_bool. */
  function BoolIn(bs: seq<byte>, n: nat, default: bool): (r: Read<bool>)
    requires n <= LAST_TAG
  {
    match OptionalIn(bs, Tag(n))
    case Fail => Fail
    case Got(None, rest) => Got(default, rest)
    case Got(Some(c), rest) =>
      match Inner(c, BOOLEAN)
      case None => Fail
      case Some(v) => if v == [0] then Got(false, rest) else if v == [0xFF] then Got(true, rest) else Fail
  }

  // ---------- groups of fields ----------

  datatype HeadFields = HeadFields(sslVersion: nat, cipher: nat, sessionId: seq<byte>, masterKey: seq<byte>)

  datatype StartFields = StartFields(time: nat, timeout: nat, peer: Option<seq<byte>>, sidCtx: seq<byte>)

  datatype TicketFields = TicketFields(
    verifyResult: int, pskIdentity: Option<seq<byte>>, lifetimeHint: nat, ticket: Option<seq<byte>>)

  datatype DigestFields = DigestFields(
    sha256: Option<seq<byte>>, originalHash: seq<byte>, sctList: Option<seq<byte>>, ocspResponse: Option<seq<byte>>)

  datatype ChainFields = ChainFields(extendedMasterSecret: bool, groupId: nat, certs: seq<seq<byte>>)

  datatype LastFields = LastFields(
    ticketAgeAdd: Option<nat>, isServer: bool, peerSignatureAlgorithm: nat, maxEarlyData: nat, authTimeout: nat,
    earlyAlpn: Option<seq<byte>>)

  predicate HeadFits(h: HeadFields, known: nat -> bool) {
    && KnownVersion(h.sslVersion) && h.cipher < 0x1_0000 && known(h.cipher)
    && |h.sessionId| <= MAX_SESSION_ID && |h.masterKey| <= MAX_MASTER_KEY
  }

  predicate StartFits(b: StartFields) {
    b.time < TWO64 && b.timeout < TWO32 && b.peer != Some([]) && |b.sidCtx| <= MAX_SID_CTX
  }

  predicate TicketFits(t: TicketFields) {
    && 0 <= t.verifyResult <= LONG_MAX && t.lifetimeHint < TWO32
    && (t.pskIdentity.Some? ==> 0 !in t.pskIdentity.value)
  }

  predicate DigestFits(d: DigestFields) {
    (d.sha256.Some? ==> |d.sha256.value| == SHA256_LENGTH) && |d.originalHash| <= MAX_DIGEST
  }

  predicate LastFits(l: LastFields) {
    && (l.ticketAgeAdd.Some? ==> l.ticketAgeAdd.value < TWO32) && l.peerSignatureAlgorithm < 0x1_0000
    && l.maxEarlyData < TWO32 && l.authTimeout < TWO32
  }

  function CipherIn(bs: seq<byte>, known: nat -> bool): (r: Read<nat>)
    ensures r.Got? ==> r.value < 0x1_0000 && known(r.value)
  {
    match Asn1Front(bs, OCTET_STRING)
    case Fail => Fail
    case Got(c, rest) =>
      if |c| != 2 || !known(c[0] as int * 256 + c[1]) then Fail else Got(c[0] as int * 256 + c[1], rest)
  }

  function ShortString(bs: seq<byte>, limit: nat): (r: Read<seq<byte>>)
    ensures r.Got? ==> |r.value| <= limit
  {
    match Asn1Front(bs, OCTET_STRING)
    case Fail => Fail
    case Got(c, rest) => if |c| > limit then Fail else Got(c, rest)
  }

  /** The five elements in front of the tagged ones. */
  function HeadIn(bs: seq<byte>, known: nat -> bool): (r: Read<HeadFields>)
    ensures r.Got? ==> HeadFits(r.value, known)
  {
    match UintElement(bs) case Fail => Fail case Got(version, r1) =>
    match UintElement(r1) case Fail => Fail case Got(sslVersion, r2) =>
    if version != 1 || !KnownVersion(sslVersion) then Fail
    else
      match CipherIn(r2, known) case Fail => Fail case Got(cipher, r3) =>
      match ShortString(r3, MAX_SESSION_ID) case Fail => Fail case Got(sessionId, r4) =>
      match ShortString(r4, MAX_MASTER_KEY) case Fail => Fail case Got(masterKey, r5) =>
      Got(HeadFields(sslVersion, cipher, sessionId, masterKey), r5)
  }

  /** The leaf certificate; it must not be empty. */
  function PeerIn(bs: seq<byte>): (r: Read<Option<seq<byte>>>)
    ensures r.Got? ==> r.value != Some([])
  {
    match OptionalIn(bs, Tag(3))
    case Fail => Fail
    case Got(c, rest) => if c == Some([]) then Fail else Got(c, rest)
  }

  function StartIn(bs: seq<byte>): (r: Read<StartFields>)
    ensures r.Got? ==> StartFits(r.value)
  {
    match MandatoryIn(bs, 1) case Fail => Fail case Got(time, r1) =>
    match MandatoryIn(r1, 2) case Fail => Fail case Got(timeout, r2) =>
    if timeout >= TWO32 then Fail
    else
      match PeerIn(r2) case Fail => Fail case Got(peer, r3) =>
      match BoundedIn(r3, 4, MAX_SID_CTX) case Fail => Fail case Got(sidCtx, r4) =>
      Got(StartFields(time, timeout, peer, sidCtx), r4)
  }

  /** Verify result to ticket; a historical host name in between is ignored. */
  function TicketIn(bs: seq<byte>): (r: Read<TicketFields>)
    ensures r.Got? ==> TicketFits(r.value)
  {
    match UintIn(bs, 5, 0, LONG_MAX) case Fail => Fail case Got(verifyResult, r1) =>
    match OptionalIn(r1, Tag(6)) case Fail => Fail case Got(_, r2) =>
    match OctetsIn(r2, 8) case Fail => Fail case Got(psk, r3) =>
    if psk.Some? && 0 in psk.value then Fail
    else
      match UintIn(r3, 9, 0, TWO32 - 1) case Fail => Fail case Got(hint, r4) =>
      match StowedIn(r4, 10) case Fail => Fail case Got(ticket, r5) =>
      Got(TicketFields(verifyResult, psk, hint, ticket), r5)
  }

  function DigestIn(bs: seq<byte>): (r: Read<DigestFields>)
    ensures r.Got? ==> DigestFits(r.value)
  {
    match OctetsIn(bs, 13) case Fail => Fail case Got(sha256, r1) =>
    if sha256.Some? && |sha256.value| != SHA256_LENGTH then Fail
    else
      match BoundedIn(r1, 14, MAX_DIGEST) case Fail => Fail case Got(hash, r2) =>
      match OctetsIn(r2, 15) case Fail => Fail case Got(sctList, r3) =>
      match OctetsIn(r3, 16) case Fail => Fail case Got(ocsp, r4) =>
      Got(DigestFields(sha256, hash, sctList, ocsp), r4)
  }

  /** The certificates of a chain, one element after another. */
  function ChainOf(chain: seq<byte>): (r: Option<seq<seq<byte>>>)
    ensures r.Some? ==> forall c | c in r.value :: IsElement(c)
    decreases |chain|
  {
    if chain == [] then Some([])
    else
      match GetElement(chain)
      case Fail => None
      case Got(e, rest) =>
        WholeIsElement(chain);
        match ChainOf(rest) case None => None case Some(certs) => Some([e.whole] + certs)
  }

  /** Leaf and chain; an empty chain or one without a leaf is refused. */
  function CertsIn(bs: seq<byte>, peer: Option<seq<byte>>): (r: Read<seq<seq<byte>>>)
    ensures r.Got? && peer != Some([]) ==> WellCut(r.value)
  {
    match OptionalIn(bs, Tag(19))
    case Fail => Fail
    case Got(None, rest) => Got(if peer.Some? then [peer.value] else [], rest)
    case Got(Some(chain), rest) =>
      if chain == [] || peer.None? then Fail
      else
        match ChainOf(chain)
        case None => Fail
        case Some(certs) =>
          assert forall i | 1 <= i < |certs| + 1 :: ([peer.value] + certs)[i] == certs[i - 1];
          Got([peer.value] + certs, rest)
  }

  function ChainIn(bs: seq<byte>, peer: Option<seq<byte>>): (r: Read<ChainFields>)
    ensures r.Got? ==> r.value.groupId < 0x1_0000 && (peer != Some([]) ==> WellCut(r.value.certs))
  {
    match BoolIn(bs, 17, false) case Fail => Fail case Got(ems, r1) =>
    match UintIn(r1, 18, 0, 0xFFFF) case Fail => Fail case Got(group, r2) =>
    match CertsIn(r2, peer) case Fail => Fail case Got(certs, r3) =>
    Got(ChainFields(ems, group, certs), r3)
  }

  lemma FourBelow(bs: seq<byte>)
    requires |bs| == 4
    ensures BigEndian(bs) < TWO32
  {
    hide BigEndian, Pow256;
    BigEndianBound(bs);
    PowersOf256(|bs|);
  }

  function AgeIn(bs: seq<byte>): (r: Read<Option<nat>>)
    ensures r.Got? && r.value.Some? ==> r.value.value < TWO32
  {
    match OctetsIn(bs, 21)
    case Fail => Fail
    case Got(None, rest) => Got(None, rest)
    case Got(Some(v), rest) =>
      if |v| != 4 then Fail
      else
        FourBelow(v);
        Got(Some(BigEndian(v)), rest)
  }

  /** Ticket age to ALPN string, after which nothing may follow. */
  function LastIn(bs: seq<byte>, timeout: nat): (r: Read<LastFields>)
    requires timeout < TWO32
    ensures r.Got? ==> LastFits(r.value) && r.rest == []
  {
    match AgeIn(bs) case Fail => Fail case Got(age, r1) =>
    match BoolIn(r1, 22, true) case Fail => Fail case Got(isServer, r2) =>
    match UintIn(r2, 23, 0, 0xFFFF) case Fail => Fail case Got(algorithm, r3) =>
    match UintIn(r3, 24, 0, TWO32 - 1) case Fail => Fail case Got(early, r4) =>
    match UintIn(r4, 25, timeout, TWO32 - 1) case Fail => Fail case Got(authTimeout, r5) =>
    match StowedIn(r5, 26) case Fail => Fail case Got(alpn, r6) =>
    if r6 != [] then Fail else Got(LastFields(age, isServer, algorithm, early, authTimeout, alpn), r6)
  }

  function SessionOf(h: HeadFields, b: StartFields, t: TicketFields, d: DigestFields, c: ChainFields, l: LastFields): Session {
    Session(
      h.sslVersion, h.cipher, h.sessionId, h.masterKey, b.time, b.timeout, c.certs, b.sidCtx, t.verifyResult, t.pskIdentity,
      t.lifetimeHint, t.ticket, d.sha256, d.originalHash, d.sctList, d.ocspResponse, c.extendedMasterSecret, c.groupId,
      l.ticketAgeAdd, l.isServer, l.peerSignatureAlgorithm, l.maxEarlyData, l.authTimeout, l.earlyAlpn)
  }

  /** Fields that fit make up a session within the bounds. */
  lemma AllFit(h: HeadFields, b: StartFields, t: TicketFields, d: DigestFields, c: ChainFields, l: LastFields, known: nat -> bool)
    requires HeadFits(h, known) && StartFits(b) && TicketFits(t) && DigestFits(d) && LastFits(l)
    requires c.groupId < 0x1_0000 && WellCut(c.certs)
    ensures Restorable(SessionOf(h, b, t, d, c, l), known)
  {
    hide IsElement;
  }

  /** The contents of the outer SEQUENCE. */
  function BodyIn(body: seq<byte>, known: nat -> bool): (r: Option<Session>)
    ensures r.Some? ==> Restorable(r.value, known) && WellCut(r.value.certs)
  {
    match HeadIn(body, known) case Fail => None case Got(h, r1) =>
    match StartIn(r1) case Fail => None case Got(b, r2) =>
    match TicketIn(r2) case Fail => None case Got(t, r3) =>
    match DigestIn(r3) case Fail => None case Got(d, r4) =>
    match ChainIn(r4, b.peer) case Fail => None case Got(c, r5) =>
    match LastIn(r5, b.timeout) case Fail => None case Got(l, _) =>
    AllFit(h, b, t, d, c, l, known);
    Some(SessionOf(h, b, t, d, c, l))
  }

  /** SSL_SESSION_parse; whatever it accepts is within its bounds. */
  function SessionIn(bs: seq<byte>, known: nat -> bool, objectsOk: bool): (r: Read<Session>)
    ensures r.Got? ==> Restorable(r.value, known) && WellCut(r.value.certs)
  {
    match Asn1Front(bs, SEQUENCE)
    case Fail => Fail
    case Got(body, rest) =>
      match BodyIn(body, known) case None => Fail case Some(s) => if objectsOk then Got(s, rest) else Fail
  }
}
