/**
 The server's check of the RSA premaster secret without branches on secret
 bytes: masks that are all ones or all zeros, on 64-bit words, against the
 padding rule written with branches (section 7.2.2 of RFC 3447, section 7.4.7.1
 of RFC 5246).
 */
module Premaster {
  import opened Common

  // ---------- the constant-time functions ----------

  function Msb(a: bv64): bv64 {
    0 - (a >> 63)
  }

  function IsZero(a: bv64): bv64 {
    Msb(!a & (a - 1))
  }

  function Equal(a: bv64, b: bv64): bv64 {
    IsZero(a ^ b)
  }

  function Select(mask: bv64, a: bv64, b: bv64): bv64 {
    (mask & a) | (!mask & b)
  }

  function Low8(a: bv64): bv8 {
    (a & 0xFF) as bv8
  }

  /** constant_time_is_zero_8, constant_time_eq_8, constant_time_select_8. */
  function IsZero8(a: bv8): bv8 {
    Low8(IsZero(a as bv64))
  }

  function Equal8(a: bv8, b: bv8): bv8 {
    Low8(Equal(a as bv64, b as bv64))
  }

  function Select8(mask: bv8, a: bv8, b: bv8): bv8 {
    Low8(Select(mask as bv64, a as bv64, b as bv64))
  }

  const ONES: bv64 := 0xFFFF_FFFF_FFFF_FFFF

  /** Each word function is all ones when its relation holds and zero when not. */
  lemma ZeroMask(a: bv64)
    ensures IsZero(a) == if a == 0 then ONES else 0
  {
  }

  lemma EqualMask(a: bv64, b: bv64)
    ensures Equal(a, b) == if a == b then ONES else 0
  {
    hide IsZero;
    ZeroMask(a ^ b);
    SameBits(a, b);
  }

  lemma SameBits(a: bv64, b: bv64)
    ensures a ^ b == 0 <==> a == b
  {
  }

  lemma SelectMask(a: bv64, b: bv64)
    ensures Select(ONES, a, b) == a && Select(0, a, b) == b
  {
  }

  lemma ByteMasks(a: bv8, b: bv8)
    ensures IsZero8(a) == if a == 0 then 0xFF else 0
    ensures Equal8(a, b) == if a == b then 0xFF else 0
    ensures Select8(0xFF, a, b) == a && Select8(0, a, b) == b
  {
    hide IsZero, Equal;
    ZeroMask(a as bv64);
    EqualMask(a as bv64, b as bv64);
  }

  /** The mask of a truth value, and the mask operations as operations on truth values. */
  function Mask(b: bool): bv8 {
    if b then 0xFF else 0
  }

  lemma MaskAnd(p: bool, q: bool)
    ensures Mask(p) & Mask(q) == Mask(p && q) && !Mask(p) == Mask(!p)
  {
  }

  // ---------- the padding rule ----------

  const PREMASTER_LENGTH: nat := 48

  function FirstZero(block: seq<bv8>, i: nat): (k: nat)
    requires i <= |block|
    ensures i <= k <= |block| && (k < |block| ==> block[k] == 0)
    ensures forall j: nat | i <= j < k :: block[j] != 0
    decreases |block| - i
  {
    if i == |block| || block[i] == 0 then i else FirstZero(block, i + 1)
  }

  /** Bytes 0 and 2, at least eight bytes that are not zero, a zero, and then the message. */
  function Unpad(block: seq<bv8>): Option<seq<bv8>> {
    if |block| < 11 || block[0] != 0 || block[1] != 2 then None
    else
      var k := FirstZero(block, 2);
      if k == |block| || k < 10 then None else Some(block[k + 1..])
  }

  /** The block that a message is padded to: 0, 2, padding without zeros, 0, the message. */
  function Padded(padding: seq<bv8>, message: seq<bv8>): seq<bv8> {
    [0, 2] + padding + [0] + message
  }

  /** A block holds a message exactly when it is that message padded with at least eight bytes. */
  lemma UnpadExactly(block: seq<bv8>, message: seq<bv8>)
    ensures Unpad(block) == Some(message) <==>
      exists padding :: |padding| >= 8 && 0 !in padding && block == Padded(padding, message)
  {
    if Unpad(block) == Some(message) {
      var k := FirstZero(block, 2);
      var padding := block[2..k];
      assert block == Padded(padding, message);
    }
    if exists padding :: |padding| >= 8 && 0 !in padding && block == Padded(padding, message) {
      var padding :| |padding| >= 8 && 0 !in padding && block == Padded(padding, message);
      var k := FirstZero(block, 2);
      assert forall j | 2 <= j < 2 + |padding| :: block[j] == padding[j - 2];
      assert block[2 + |padding|] == 0 && k == 2 + |padding|;
      assert block[k + 1..] == message;
    }
  }

  /** The premaster secret that a block holds: a message of 48 bytes that starts with the client's version. */
  predicate Holds(block: seq<bv8>, major: bv8, minor: bv8) {
    match Unpad(block)
    case None => false
    case Some(m) => |m| == PREMASTER_LENGTH && m[0] == major && m[1] == minor
  }

  /** What the code looks at, byte by byte, with the zero expected just before the last 48 bytes. */
  ghost predicate ByteRule(block: seq<bv8>, padding: nat, i: nat)
    requires 3 <= i <= padding <= |block|
  {
    && block[0] == 0 && block[1] == 2
    && (forall j: nat | 2 <= j < i - 1 :: block[j] != 0)
  }

  /** Looking for the zero where it has to be is looking for the first zero. */
  lemma FixedZeroIsFirstZero(block: seq<bv8>, padding: nat, major: bv8, minor: bv8)
    requires padding >= 11 && |block| == padding + PREMASTER_LENGTH
    ensures Holds(block, major, minor) <==>
      && ByteRule(block, padding, padding) && block[padding - 1] == 0
      && block[padding] == major && block[padding + 1] == minor
  {
    var k := FirstZero(block, 2);
    if ByteRule(block, padding, padding) && block[padding - 1] == 0 {
      assert k == padding - 1;
    }
  }

  /** Block type 2 and padding bytes that are not zero. */
  method CheckPadding(block: seq<bv8>, padding: nat) returns (good: bv8)
    requires 11 <= padding <= |block|
    ensures good == Mask(ByteRule(block, padding, padding))
  {
    hide IsZero8, Equal8;
    ByteMasks(block[0], 0);
    ByteMasks(block[1], 2);
    good := Equal8(block[0], 0) & Equal8(block[1], 2);
    MaskAnd(block[0] == 0, block[1] == 2);
    var i := 2;
    while i < padding - 1
      invariant 2 <= i <= padding - 1 && good == Mask(ByteRule(block, padding, i + 1))
    {
      ByteMasks(block[i], 0);
      MaskAnd(block[i] == 0, true);
      MaskAnd(ByteRule(block, padding, i + 1), block[i] != 0);
      good := good & !IsZero8(block[i]);
      i := i + 1;
    }
  }

  /**
   The part of do_read_client_key_exchange after decryption. `premaster` comes
   in holding random bytes; false is the error for a block of the wrong length.
   */
  method ReadPremaster(block: seq<bv8>, keySize: nat, clientVersion: bv16, premaster: array<bv8>) returns (ok: bool)
    requires premaster.Length == PREMASTER_LENGTH
    modifies premaster
    ensures ok <==> |block| == keySize && |block| >= 11 + 48
    ensures premaster[..] ==
      if ok && Holds(block, High(clientVersion), Low(clientVersion)) then block[|block| - 48..]
      else old(premaster[..])
  {
    hide IsZero8, Equal8, Select8, Holds, High, Low;
    if |block| != keySize || |block| < 11 + PREMASTER_LENGTH { return false; }
    var padding := |block| - PREMASTER_LENGTH;
    var good := CheckPadding(block, padding);
    good := CheckTail(block, padding, clientVersion, good);
    FixedZeroIsFirstZero(block, padding, High(clientVersion), Low(clientVersion));
    var i := 0;
    while i < premaster.Length
      invariant 0 <= i <= premaster.Length
      invariant forall j | 0 <= j < i :: premaster[j] == if good == 0xFF then block[padding + j] else old(premaster[j])
      invariant forall j | i <= j < premaster.Length :: premaster[j] == old(premaster[j])
    {
      ByteMasks(block[padding + i], premaster[i]);
      premaster[i] := Select8(good, block[padding + i], premaster[i]);
      i := i + 1;
    }
    return true;
  }

  function High(v: bv16): bv8 {
    (v >> 8) as bv8
  }

  function Low(v: bv16): bv8 {
    (v & 0xFF) as bv8
  }

  /** The version as two bytes, the major one first. */
  lemma VersionBytes(v: bv16)
    ensures (High(v) as bv16 << 8) | Low(v) as bv16 == v
  {
  }

  /** The zero before the message and the version at its start. */
  method CheckTail(block: seq<bv8>, padding: nat, clientVersion: bv16, sofar: bv8) returns (good: bv8)
    requires padding >= 11 && |block| == padding + PREMASTER_LENGTH
    requires sofar == Mask(ByteRule(block, padding, padding))
    ensures good == Mask(
      && ByteRule(block, padding, padding) && block[padding - 1] == 0
      && block[padding] == High(clientVersion) && block[padding + 1] == Low(clientVersion))
  {
    hide IsZero8, Equal8, High, Low;
    ByteMasks(block[padding - 1], 0);
    ByteMasks(block[padding], High(clientVersion));
    ByteMasks(block[padding + 1], Low(clientVersion));
    good := sofar & IsZero8(block[padding - 1]);
    MaskAnd(ByteRule(block, padding, padding), block[padding - 1] == 0);
    ghost var p := ByteRule(block, padding, padding) && block[padding - 1] == 0;
    good := good & Equal8(block[padding], High(clientVersion));
    MaskAnd(p, block[padding] == High(clientVersion));
    good := good & Equal8(block[padding + 1], Low(clientVersion));
    MaskAnd(p && block[padding] == High(clientVersion), block[padding + 1] == Low(clientVersion));
  }
}
