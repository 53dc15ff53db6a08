/**
 Field descriptor tables and the C structs they describe. A struct is one slot
 per table entry: the cell behind pSize (has flag, count or which) and the
 array of values behind pData. The members of a oneof share their leader's slot.
 */
module PbSchema {
  import opened Common
  import opened Bits
  import opened PbWire

  const PB_SIZE_MAX: int := 0xFFFF_FFFF
  const PB_MAX_REQUIRED_FIELDS: int := 64
  const BYTES_HEADER: int := 4  // offsetof(pb_bytes_array_t, bytes) with 32-bit pb_size_t
  const COUNT_SIZE: int := 4    // sizeof(pb_size_t)

  type pb_size = x: int | 0 <= x <= PB_SIZE_MAX

  datatype LType =
    VARINT | UVARINT | SVARINT | FIXED32 | FIXED64 | BYTES | STRING | SUBMESSAGE | FIXED_LENGTH_BYTES

  datatype HType = REQUIRED | OPTIONAL | REPEATED | ONEOF(leader: nat)

  /** pb_field_t. `sub` and `init` are the two readings of its `ptr`. */
  datatype Field = Field(
    tag: pb_size, ltype: LType, htype: HType, dataOffset: pb_size, sizeOffset: int,
    dataSize: pb_size, arraySize: pb_size, init: Option<Value>, sub: seq<Field>)

  datatype Value =
    | Int(n: int)
    | Bytes(len: pb_size, buf: seq<byte>)
    | Str(buf: seq<byte>)
    | Fixed(buf: seq<byte>)
    | Msg(slots: seq<Slot>)

  datatype Slot = Slot(size: pb_size, items: seq<Value>)

  predicate Packable(l: LType) {
    l.VARINT? || l.UVARINT? || l.SVARINT? || l.FIXED32? || l.FIXED64?
  }

  /** A repeated field without a count member: always array_size entries. */
  predicate FixedCount(f: Field) {
    f.htype.REPEATED? && f.sizeOffset == 0
  }

  /** A proto3 singular field: optional without a has flag. */
  predicate Singular(f: Field) {
    f.htype.OPTIONAL? && f.sizeOffset == 0
  }

  function SlotOf(t: seq<Field>, j: nat): (k: nat)
    requires j < |t|
    ensures k < |t|
  {
    if t[j].htype.ONEOF? && t[j].htype.leader < |t| then t[j].htype.leader else j
  }

  // ---------- what the C types guarantee ----------

  predicate ScalarWidth(d: int) {
    d == 1 || d == 2 || d == 4 || d == 8
  }

  function SignedLimit(d: int): (r: int)
    requires ScalarWidth(d)
    ensures 0 < r <= TWO63
  {
    if d == 1 then 0x80 else if d == 2 then 0x8000 else if d == 4 then TWO31 else TWO63
  }

  ghost predicate TypedValue(f: Field, v: Value)
    decreases f, 0
  {
    match f.ltype
    case VARINT | SVARINT =>
      v.Int? && -TWO63 <= v.n < TWO63 && (ScalarWidth(f.dataSize) ==> -SignedLimit(f.dataSize) <= v.n < SignedLimit(f.dataSize))
    case UVARINT =>
      v.Int? && 0 <= v.n < TWO64 && (ScalarWidth(f.dataSize) ==> v.n < 2 * SignedLimit(f.dataSize))
    case FIXED32 => v.Int? && 0 <= v.n < TWO32
    case FIXED64 => v.Int? && 0 <= v.n < TWO64
    case BYTES => v.Bytes? && |v.buf| + BYTES_HEADER == f.dataSize
    case STRING => v.Str? && |v.buf| == f.dataSize
    case FIXED_LENGTH_BYTES => v.Fixed? && |v.buf| == f.dataSize
    case SUBMESSAGE => v.Msg? && TypedStruct(f.sub, v.slots)
  }

  ghost predicate TypedSlot(f: Field, sl: Slot)
    decreases f, 1
  {
    match f.htype
    case ONEOF(_) => |sl.items| == 1 && (sl.size == f.tag ==> TypedValue(f, sl.items[0]))
    case REPEATED => |sl.items| == f.arraySize && forall k | 0 <= k < |sl.items| :: TypedValue(f, sl.items[k])
    case REQUIRED => |sl.items| == 1 && TypedValue(f, sl.items[0])
    case OPTIONAL => |sl.items| == 1 && TypedValue(f, sl.items[0])
  }

  ghost predicate TypedStruct(t: seq<Field>, s: seq<Slot>)
    decreases t
  {
    |s| == |t| && forall j | 0 <= j < |t| :: TypedSlot(t[j], s[SlotOf(t, j)])
  }

  // ---------- what the walks over a table rely on ----------

  /** Entries before the terminator have non-zero tags. */
  ghost predicate Tagged(t: seq<Field>)
    decreases t
  {
    forall j | 0 <= j < |t| :: TaggedField(t[j])
  }

  ghost predicate TaggedField(f: Field)
    decreases f
  {
    f.tag != 0 && Tagged(f.sub)
  }

  // ---------- what the table generator guarantees ----------

  ghost predicate UniqueTags(t: seq<Field>) {
    forall i, j | 0 <= i < j < |t| :: t[i].tag != t[j].tag
  }

  ghost predicate WellFormedField(f: Field)
    decreases f, 0
  {
    && 0 < f.tag < 0x2000_0000
    && (f.ltype.VARINT? || f.ltype.UVARINT? || f.ltype.SVARINT? ==> ScalarWidth(f.dataSize))
    && (f.ltype.STRING? ==> f.dataSize > 0)
    && (f.ltype.BYTES? ==> f.dataSize >= BYTES_HEADER)
    && (Singular(f) ==> f.init.None?)
    && (f.init.Some? ==> TypedValue(f, f.init.value))
    && (f.ltype.SUBMESSAGE? ==> WellFormedTable(f.sub))
  }

  ghost predicate WellFormedTable(t: seq<Field>)
    decreases t
  {
    && UniqueTags(t)
    && (forall j | 0 <= j < |t| :: WellFormedField(t[j]))
    && (forall j | 0 <= j < |t| && t[j].htype.ONEOF? ::
          t[j].htype.leader <= j && t[t[j].htype.leader].htype == t[j].htype)
  }

  // ---------- defaults ----------

  function Zeros(n: nat): (r: seq<byte>)
    ensures |r| == n && forall i | 0 <= i < n :: r[i] == 0
  {
    seq(n, _ => 0)
  }

  function ZeroValue(f: Field): Value
    decreases f, 0
  {
    match f.ltype
    case BYTES => Bytes(0, Zeros(if f.dataSize >= BYTES_HEADER then f.dataSize - BYTES_HEADER else 0))
    case STRING => Str(Zeros(f.dataSize))
    case FIXED_LENGTH_BYTES => Fixed(Zeros(f.dataSize))
    case SUBMESSAGE => Msg(ZeroStruct(f.sub))
    case _ => Int(0)
  }

  function ZeroSlot(f: Field): Slot
    decreases f, 1
  {
    Slot(0, if f.htype.REPEATED? then seq(f.arraySize, _ => ZeroValue(f)) else [ZeroValue(f)])
  }

  /** memset(struct, 0, size). */
  function ZeroStruct(t: seq<Field>): (s: seq<Slot>)
    ensures |s| == |t|
    decreases t
  {
    seq(|t|, j requires 0 <= j < |t| => ZeroSlot(t[j]))
  }

  // ---------- a count read from the array itself ----------

  /** A value with the first n bytes of its memory set to zero; of a submessage nothing is known. */
  function Cleared(f: Field, v: Value, n: int): Value {
    if n <= 0 then v
    else
      match v
      case Int(m) => if n >= f.dataSize then Int(0) else Int(m - m % Pow256(n))
      case Bytes(_, buf) => Bytes(0, buf)
      case Str(buf) => Str(ClearedBytes(buf, n))
      case Fixed(buf) => Fixed(ClearedBytes(buf, n))
      case Msg(_) => v
  }

  function ClearedBytes(buf: seq<byte>, n: nat): (r: seq<byte>)
    ensures |r| == |buf|
  {
    if n >= |buf| then Zeros(|buf|) else Zeros(n) + buf[n..]
  }

  /** The array of a fixed-count field after a zero has been written where its count would be: over its first four bytes. */
  function ClearedArray(f: Field, items: seq<Value>): (r: seq<Value>)
    ensures |r| == |items|
  {
    seq(|items|, i requires 0 <= i < |items| => Cleared(f, items[i], COUNT_SIZE - i * f.dataSize))
  }

  /** What is read as the count of a fixed-count field is zero. For submessages, `size` stands for their first four bytes. */
  predicate CountsZero(f: Field, sl: Slot) {
    if f.ltype.SUBMESSAGE? then sl.size == 0 else ClearedArray(f, sl.items) == sl.items
  }

  /** pb_field_set_to_default for a static field. */
  function DefaultSlot(f: Field, sl: Slot): Slot
    decreases f, 1
  {
    match f.htype
    case REPEATED =>
      if f.sizeOffset == 0 && !f.ltype.SUBMESSAGE? then sl.(items := ClearedArray(f, sl.items)) else sl.(size := 0)
    case ONEOF(_) => sl.(size := 0)
    case _ =>
      var size := if f.htype.OPTIONAL? && f.sizeOffset != 0 then 0 else sl.size;
      if f.ltype.SUBMESSAGE? then
        var prev := if |sl.items| == 1 && sl.items[0].Msg? && |sl.items[0].slots| == |f.sub|
                   then sl.items[0].slots else ZeroStruct(f.sub);
        Slot(size, [Msg(DefaultStruct(f.sub, prev))])
      else if f.init.Some? then Slot(size, [f.init.value])
      else Slot(size, [ZeroValue(f)])
  }

  /** pb_message_set_to_defaults. */
  function DefaultStruct(t: seq<Field>, s: seq<Slot>): (r: seq<Slot>)
    requires |s| == |t|
    ensures |r| == |t|
    decreases t
  {
    seq(|t|, j requires 0 <= j < |t| => DefaultSlot(t[j], s[j]))
  }

  // ---------- logical equality ----------

  /** The bytes of a C string in a buffer: up to the first NUL or the end. */
  function CString(buf: seq<byte>): (r: seq<byte>)
    ensures |r| <= |buf| && r == buf[..|r|]
    ensures |r| < |buf| ==> buf[|r|] == 0
    ensures 0 !in r
  {
    if buf == [] || buf[0] == 0 then []
    else
      var rest := CString(buf[1..]);
      assert buf[..1 + |rest|] == [buf[0]] + buf[1..][..|rest|];
      [buf[0]] + rest
  }

  predicate Terminated(buf: seq<byte>) {
    0 in buf
  }

  ghost predicate SameValue(f: Field, a: Value, b: Value)
    decreases f, 0
  {
    match f.ltype
    case BYTES => a.Bytes? && b.Bytes? && a.len == b.len && a.len <= |a.buf| && b.len <= |b.buf| && a.buf[..a.len] == b.buf[..b.len]
    case STRING => a.Str? && b.Str? && CString(a.buf) == CString(b.buf)
    case SUBMESSAGE => a.Msg? && b.Msg? && SameMessage(f.sub, a.slots, b.slots)
    case _ => a == b
  }

  /** Presence and content agree; what an absent field or an unused array entry holds does not matter. */
  ghost predicate SameSlot(f: Field, a: Slot, b: Slot)
    decreases f, 1
  {
    match f.htype
    case REQUIRED => |a.items| == 1 && |b.items| == 1 && SameValue(f, a.items[0], b.items[0])
    case OPTIONAL =>
      && |a.items| == 1 && |b.items| == 1
      && (f.sizeOffset != 0 ==> (a.size != 0 <==> b.size != 0))
      && (f.sizeOffset == 0 || a.size != 0 ==> SameValue(f, a.items[0], b.items[0]))
    case REPEATED =>
      var n := if f.sizeOffset == 0 then f.arraySize else a.size;
      && (f.sizeOffset != 0 ==> a.size == b.size)
      && n <= |a.items| && n <= |b.items|
      && forall k | 0 <= k < n :: SameValue(f, a.items[k], b.items[k])
    case ONEOF(_) =>
      && |a.items| == 1 && |b.items| == 1
      && (a.size == f.tag <==> b.size == f.tag)
      && (a.size == f.tag ==> SameValue(f, a.items[0], b.items[0]))
  }

  ghost predicate SameMessage(t: seq<Field>, a: seq<Slot>, b: seq<Slot>)
    decreases t
  {
    && |a| == |t| && |b| == |t|
    && forall j | 0 <= j < |t| :: SameSlot(t[j], a[SlotOf(t, j)], b[SlotOf(t, j)])
  }
}
