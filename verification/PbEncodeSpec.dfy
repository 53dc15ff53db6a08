/**
 What the nanopb encoder writes, as functions of the table and the struct.
 None stands for every way the encoder refuses a struct regardless of space.
 */
module PbEncodeSpec {
  import opened Common
  import opened PbWire
  import opened PbSchema

  const WT_VARINT: nat := 0
  const WT_64BIT: nat := 1
  const WT_STRING: nat := 2
  const WT_32BIT: nat := 5

  function WireType(l: LType): nat {
    match l
    case VARINT | UVARINT | SVARINT => WT_VARINT
    case FIXED32 => WT_32BIT
    case FIXED64 => WT_64BIT
    case BYTES | STRING | SUBMESSAGE | FIXED_LENGTH_BYTES => WT_STRING
  }

  function TagBytes(wireType: nat, tag: nat): (r: seq<byte>)
    ensures r != []
  {
    VarintBytes((tag * 8 + wireType) % TWO64)
  }

  function FieldTag(f: Field): seq<byte> {
    TagBytes(WireType(f.ltype), f.tag)
  }

  /** A length as pb_encode_varint receives it, cast to 64 bits. */
  function SizeBytes(n: nat): seq<byte> {
    VarintBytes(n % TWO64)
  }

  function Prefixed(payload: seq<byte>): seq<byte> {
    SizeBytes(|payload|) + payload
  }

  function EncodeItem(f: Field, v: Value): Option<seq<byte>>
    requires TypedValue(f, v)
    decreases f, 1
  {
    match f.ltype
    case VARINT | UVARINT =>
      if ScalarWidth(f.dataSize) then Some(VarintBytes(AsUnsigned64(v.n))) else None
    case SVARINT =>
      if ScalarWidth(f.dataSize) then Some(VarintBytes(ZigZag(v.n))) else None
    case FIXED32 => Some(LittleEndian(v.n, 4))
    case FIXED64 => Some(LittleEndian(v.n, 8))
    case BYTES =>
      if v.len + BYTES_HEADER > f.dataSize then None else Some(Prefixed(v.buf[..v.len]))
    case STRING => Some(Prefixed(CString(v.buf)))
    case FIXED_LENGTH_BYTES => Some(Prefixed(v.buf))
    case SUBMESSAGE =>
      match EncodeMessage(f.sub, v.slots)
      case None => None
      case Some(body) => Some(Prefixed(body))
  }

  /** The entries of a packed array, one after the other. */
  function EncodePacked(f: Field, vs: seq<Value>): Option<seq<byte>>
    requires forall k | 0 <= k < |vs| :: TypedValue(f, vs[k])
    decreases f, 2, |vs|
  {
    if vs == [] then Some([])
    else
      match EncodeItem(f, vs[0])
      case None => None
      case Some(b) =>
        match EncodePacked(f, vs[1..])
        case None => None
        case Some(rest) => Some(b + rest)
  }

  /** The entries of an unpacked array, each under its own tag. */
  function EncodeUnpacked(f: Field, vs: seq<Value>): Option<seq<byte>>
    requires forall k | 0 <= k < |vs| :: TypedValue(f, vs[k])
    decreases f, 2, |vs|
  {
    if vs == [] then Some([])
    else
      match EncodeItem(f, vs[0])
      case None => None
      case Some(b) =>
        match EncodeUnpacked(f, vs[1..])
        case None => None
        case Some(rest) => Some(FieldTag(f) + b + rest)
  }

  function EncodeArray(f: Field, vs: seq<Value>, count: nat): Option<seq<byte>>
    requires |vs| == f.arraySize && forall k | 0 <= k < |vs| :: TypedValue(f, vs[k])
    decreases f, 3
  {
    if count == 0 then Some([])
    else if count > f.arraySize then None
    else if Packable(f.ltype) then
      match EncodePacked(f, vs[..count])
      case None => None
      case Some(body) => Some(TagBytes(WT_STRING, f.tag) + Prefixed(body))
    else EncodeUnpacked(f, vs[..count])
  }

  /** pb_check_proto3_default_value. */
  predicate Proto3Default(f: Field, sl: Slot)
    requires TypedSlot(f, sl)
    decreases f, 1
  {
    match f.htype
    case REQUIRED => false
    case REPEATED => if f.sizeOffset == 0 then CountsZero(f, sl) else sl.size == 0
    case ONEOF(_) => sl.size == 0
    case OPTIONAL =>
      if f.sizeOffset != 0 then sl.size == 0
      else
        var v := sl.items[0];
        assert TypedValue(f, v);
        match f.ltype
        case BYTES => v.len == 0
        case STRING => v.buf == [] || v.buf[0] == 0
        case FIXED_LENGTH_BYTES => f.dataSize == 0
        case SUBMESSAGE => Proto3DefaultStruct(f.sub, v.slots)
        case _ => v.n == 0
  }

  predicate Proto3DefaultStruct(t: seq<Field>, s: seq<Slot>)
    requires TypedStruct(t, s)
    decreases t
  {
    forall j | 0 <= j < |t| :: Proto3Default(t[j], s[SlotOf(t, j)])
  }

  /** Whether encode_basic_field writes a single-valued field at all. */
  predicate Present(f: Field, sl: Slot)
    requires TypedSlot(f, sl)
  {
    match f.htype
    case REQUIRED => true
    case OPTIONAL => if f.sizeOffset != 0 then sl.size != 0 else !Proto3Default(f, sl)
    case REPEATED => false
    case ONEOF(_) => sl.size == f.tag
  }

  function Count(f: Field, sl: Slot): nat {
    if f.sizeOffset != 0 then sl.size else f.arraySize
  }

  function EncodeField(f: Field, sl: Slot): Option<seq<byte>>
    requires TypedSlot(f, sl)
    decreases f, 4
  {
    if f.htype.REPEATED? then EncodeArray(f, sl.items, Count(f, sl))
    else if !Present(f, sl) then Some([])
    else
      match EncodeItem(f, sl.items[0])
      case None => None
      case Some(b) => Some(FieldTag(f) + b)
  }

  function EncodeFrom(t: seq<Field>, s: seq<Slot>, i: nat): Option<seq<byte>>
    requires TypedStruct(t, s) && i <= |t|
    decreases t, |t| - i
  {
    if i == |t| then Some([])
    else
      match EncodeField(t[i], s[SlotOf(t, i)])
      case None => None
      case Some(b) =>
        match EncodeFrom(t, s, i + 1)
        case None => None
        case Some(rest) => Some(b + rest)
  }

  /** pb_encode. */
  function EncodeMessage(t: seq<Field>, s: seq<Slot>): Option<seq<byte>>
    requires TypedStruct(t, s)
    decreases t, |t| + 1
  {
    EncodeFrom(t, s, 0)
  }
}
