/**
 What a stored TLS session looks like: the fields of an SSL_SESSION that are
 serialized, the explicitly tagged element of each, and which sessions come
 back as they were.
 */
module SessionFormat {
  import opened Common
  import opened Bits
  import opened Der
  import opened DerElement

  const LAST_TAG: nat := 26
  const MAX_SESSION_ID: nat := 32
  const MAX_MASTER_KEY: nat := 48
  const MAX_SID_CTX: nat := 32
  const MAX_DIGEST: nat := 64
  const SHA256_LENGTH: nat := 32
  const LONG_MAX: int := TWO63 - 1

  /** A missing pointer is None; `sha256` is present when peer_sha256_valid is set. */
  datatype Session = Session(
    sslVersion: nat,
    cipher: nat,
    sessionId: seq<byte>,
    masterKey: seq<byte>,
    time: nat,
    timeout: nat,
    certs: seq<seq<byte>>,
    sidCtx: seq<byte>,
    verifyResult: int,
    pskIdentity: Option<seq<byte>>,
    lifetimeHint: nat,
    ticket: Option<seq<byte>>,
    sha256: Option<seq<byte>>,
    originalHash: seq<byte>,
    sctList: Option<seq<byte>>,
    ocspResponse: Option<seq<byte>>,
    extendedMasterSecret: bool,
    groupId: nat,
    ticketAgeAdd: Option<nat>,
    isServer: bool,
    peerSignatureAlgorithm: nat,
    maxEarlyData: nat,
    authTimeout: nat,
    earlyAlpn: Option<seq<byte>>
  )

  /** The ranges the C types give the fields. */
  predicate Typed(s: Session) {
    && s.sslVersion < 0x1_0000 && s.cipher < 0x1_0000 && s.time < TWO64 && s.timeout < TWO32
    && -TWO63 <= s.verifyResult < TWO63 && s.lifetimeHint < TWO32 && s.groupId < 0x1_0000
    && (s.ticketAgeAdd.Some? ==> s.ticketAgeAdd.value < TWO32)
    && s.peerSignatureAlgorithm < 0x1_0000 && s.maxEarlyData < TWO32 && s.authTimeout < TWO32
  }

  function Octets(data: Option<seq<byte>>): Option<seq<byte>> {
    match data case None => None case Some(d) => Some(Tlv(OCTET_STRING, d))
  }

  function Uint(present: bool, n: nat): Option<seq<byte>> {
    if present then Some(Tlv(INTEGER, IntContent(n))) else None
  }

  function Concat(certs: seq<seq<byte>>): seq<byte> {
    if certs == [] then [] else certs[0] + Concat(certs[1..])
  }

  /** The age in four bytes. */
  function AgeBytes(age: Option<nat>): Option<seq<byte>> {
    match age case None => None case Some(a) => Some(BigEndianBytes(a, 4))
  }

  /** An empty string counts as none. */
  function NoEmpty(data: Option<seq<byte>>): Option<seq<byte>> {
    if data == Some([]) then None else data
  }

  /** A boolean is left out where it is the default. */
  function Flag(b: bool, default: bool): Option<seq<byte>> {
    if b == default then None else Some(Tlv(BOOLEAN, [if b then 0xFF else 0]))
  }

  /** Certificates are not stored beside their hash. */
  function KeptCerts(s: Session): seq<seq<byte>> {
    if s.sha256.Some? then [] else s.certs
  }

  function Leaf(certs: seq<seq<byte>>): Option<seq<byte>> {
    if certs != [] then Some(certs[0]) else None
  }

  function Chain(certs: seq<seq<byte>>): Option<seq<byte>> {
    if |certs| >= 2 then Some(Concat(certs[1..])) else None
  }

  /** The contents of the explicit tag n; None when it is not written. */
  function Field(s: Session, n: nat): Option<seq<byte>>
    requires Typed(s)
  {
    if n == 1 then Uint(true, s.time)
    else if n == 2 then Uint(true, s.timeout)
    else if n == 3 then Leaf(KeptCerts(s))
    else if n == 4 then Octets(Some(s.sidCtx))
    else if n == 5 then Uint(s.verifyResult != 0, AsUnsigned64(s.verifyResult))
    else if n == 8 then Octets(s.pskIdentity)
    else if n == 9 then Uint(s.lifetimeHint > 0, s.lifetimeHint)
    else if n == 10 then Octets(s.ticket)
    else if n == 13 then Octets(s.sha256)
    else if n == 14 then Octets(NoEmpty(Some(s.originalHash)))
    else if n == 15 then Octets(s.sctList)
    else if n == 16 then Octets(s.ocspResponse)
    else if n == 17 then Flag(s.extendedMasterSecret, false)
    else if n == 18 then Uint(s.groupId > 0, s.groupId)
    else if n == 19 then Chain(KeptCerts(s))
    else if n == 21 then Octets(AgeBytes(s.ticketAgeAdd))
    else if n == 22 then Flag(s.isServer, true)
    else if n == 23 then Uint(s.peerSignatureAlgorithm != 0, s.peerSignatureAlgorithm)
    else if n == 24 then Uint(s.maxEarlyData != 0, s.maxEarlyData)
    else if n == 25 then Uint(s.timeout != s.authTimeout, s.authTimeout)
    else if n == 26 then Octets(s.earlyAlpn)
    else None
  }

  function Tag(n: nat): byte
    requires n <= LAST_TAG
  {
    0xA0 + n
  }

  function Part(s: Session, n: nat): seq<byte>
    requires Typed(s) && n <= LAST_TAG
  {
    match Field(s, n) case None => [] case Some(c) => Tlv(Tag(n), c)
  }

  /** The explicitly tagged elements from n on. */
  function From(s: Session, n: nat): seq<byte>
    requires Typed(s) && n <= LAST_TAG + 1
    decreases LAST_TAG + 1 - n
  {
    if n > LAST_TAG then [] else Part(s, n) + From(s, n + 1)
  }

  /** Version, protocol version, cipher, session ID and master key. */
  function Head(s: Session): seq<byte>
    requires Typed(s)
  {
    Tlv(INTEGER, IntContent(1)) + Tlv(INTEGER, IntContent(s.sslVersion)) + Tlv(OCTET_STRING, U16(s.cipher)) +
    Tlv(OCTET_STRING, s.sessionId) + Tlv(OCTET_STRING, s.masterKey)
  }

  function Body(s: Session): seq<byte>
    requires Typed(s)
  {
    Head(s) + From(s, 1)
  }

  function Bytes(s: Session): seq<byte>
    requires Typed(s)
  {
    Tlv(SEQUENCE, Body(s))
  }

  // ---------- which sessions come back ----------

  /** ssl_protocol_version_from_wire. */
  predicate KnownVersion(v: nat) {
    v == 0x0300 || v == 0x0301 || v == 0x0302 || v == 0x0303 || v == 0x7F17 || v == 0xFEFF || v == 0xFEFD
  }

  /** A leaf with contents, and behind it one element for each certificate. */
  predicate WellCut(certs: seq<seq<byte>>) {
    && (certs != [] ==> certs[0] != [])
    && (forall i | 1 <= i < |certs| :: IsElement(certs[i]))
  }

  /** The bounds of the parser. */
  predicate Restorable(s: Session, known: nat -> bool) {
    && Typed(s) && KnownVersion(s.sslVersion) && known(s.cipher)
    && |s.sessionId| <= MAX_SESSION_ID && |s.masterKey| <= MAX_MASTER_KEY && |s.sidCtx| <= MAX_SID_CTX
    && |s.originalHash| <= MAX_DIGEST && s.verifyResult >= 0
    && (s.pskIdentity.Some? ==> 0 !in s.pskIdentity.value)
    && (s.sha256.Some? ==> |s.sha256.value| == SHA256_LENGTH)
    && WellCut(KeptCerts(s))
  }

  predicate Encodable(s: Session)
    requires Typed(s)
  {
    |Body(s)| <= MAX_CONTENT
  }

  /** What is stored of a session: not all certificates, and an empty ticket or ALPN string is none. */
  function Normal(s: Session): Session {
    s.(certs := KeptCerts(s), ticket := NoEmpty(s.ticket), earlyAlpn := NoEmpty(s.earlyAlpn))
  }

  // ---------- the order of the tags ----------

  /** What follows tag n starts with a higher tag or not at all. */
  lemma {:induction false} TagsAhead(s: Session, n: nat, m: nat)
    requires Typed(s) && m < n <= LAST_TAG + 1
    ensures !Peek(From(s, n), Tag(m))
    decreases LAST_TAG + 1 - n
  {
    hide Field, Length;
    if n <= LAST_TAG {
      TagsAhead(s, n + 1, m);
      if Field(s, n).Some? {
        assert From(s, n)[0] == Tag(n);
      } else {
        assert Part(s, n) + From(s, n + 1) == From(s, n + 1);
      }
    }
  }

  lemma {:induction false} FieldInside(s: Session, n: nat, m: nat)
    requires Typed(s) && n <= m <= LAST_TAG
    ensures |Part(s, m)| <= |From(s, n)|
    decreases m - n
  {
    hide Field;
    if n < m { FieldInside(s, n + 1, m); }
  }

  lemma FromStep(s: Session, n: nat)
    requires Typed(s) && n <= LAST_TAG
    ensures From(s, n) == Part(s, n) + From(s, n + 1)
  {
    hide Field;
  }

  /** A field's contents are no longer than the whole. */
  lemma FieldFits(s: Session, n: nat)
    requires Typed(s) && 1 <= n <= LAST_TAG
    ensures Field(s, n).Some? ==> |Field(s, n).value| <= |Body(s)|
  {
    hide Field, Length, Head, From;
    var one := 1;
    FieldInside(s, one, n);
  }

  /** Reading tag n from where it may stand. */
  lemma ReadField(s: Session, n: nat)
    requires Typed(s) && Encodable(s) && 1 <= n <= LAST_TAG
    ensures Peek(From(s, n), Tag(n)) <==> Field(s, n).Some?
    ensures Field(s, n).Some? ==> Asn1Front(From(s, n), Tag(n)) == Got(Field(s, n).value, From(s, n + 1))
    ensures Field(s, n).None? ==> From(s, n) == From(s, n + 1)
  {
    hide Field, Length, GetElement, Body, From;
    FieldFits(s, n);
    FromStep(s, n);
    if Field(s, n).Some? {
      ElementInverse(Tag(n), Field(s, n).value, From(s, n + 1));
    } else {
      TagsAhead(s, n + 1, n);
      assert Part(s, n) + From(s, n + 1) == From(s, n + 1);
    }
  }

  lemma AloneInverse(tag: byte, content: seq<byte>)
    requires tag % 32 != 31 && |content| <= MAX_CONTENT
    ensures Inner(Tlv(tag, content), tag) == Some(content)
  {
    ElementInverse(tag, content, []);
    assert Tlv(tag, content) + [] == Tlv(tag, content);
  }
}
