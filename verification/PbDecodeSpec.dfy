/**
 What the nanopb decoder makes of a byte sequence, as functions of the table,
 the input and the struct being filled in.
 */
module PbDecodeSpec {
  import opened Common
  import opened PbWire
  import opened PbSchema
  import opened PbEncodeSpec

  // ---------- scalars ----------

  /** Reinterprets the low `2 * limit` values of `v` as signed. */
  function CastSigned(v: nat, limit: nat): int
    requires limit > 0
  {
    var low := v % (2 * limit);
    if low >= limit then low - 2 * limit else low
  }

  function DecodeVarintItem(dataSize: int, bs: seq<byte>): (r: Read<Value>)
    ensures r.Got? ==> |r.rest| < |bs| && Suffix(r.rest, bs)
  {
    match Varint64(bs)
    case Fail => Fail
    case Got(value, rest) =>
      if !ScalarWidth(dataSize) then Fail
      else
        var svalue := if dataSize == 8 then CastSigned(value, TWO63) else CastSigned(value, TWO31);
        if -SignedLimit(dataSize) <= svalue < SignedLimit(dataSize) then Got(Int(svalue), rest) else Fail
  }

  function DecodeUvarintItem(dataSize: int, bs: seq<byte>): (r: Read<Value>)
    ensures r.Got? ==> |r.rest| < |bs| && Suffix(r.rest, bs)
  {
    match Varint64(bs)
    case Fail => Fail
    case Got(value, rest) =>
      if ScalarWidth(dataSize) && value < 2 * SignedLimit(dataSize) then Got(Int(value), rest) else Fail
  }

  function DecodeSvarintItem(dataSize: int, bs: seq<byte>): (r: Read<Value>)
    ensures r.Got? ==> |r.rest| < |bs| && Suffix(r.rest, bs)
  {
    match Varint64(bs)
    case Fail => Fail
    case Got(value, rest) =>
      var svalue := UnZigZag(value % TWO64);
      if ScalarWidth(dataSize) && -SignedLimit(dataSize) <= svalue < SignedLimit(dataSize) then Got(Int(svalue), rest) else Fail
  }

  function DecodeFixedItem(width: nat, bs: seq<byte>): (r: Read<Value>)
    ensures r.Got? ==> |r.rest| + width == |bs| && Suffix(r.rest, bs)
  {
    if |bs| < width then Fail else Got(Int(FromLittleEndian(bs[..width])), bs[width..])
  }

  // ---------- length-delimited values ----------

  /** pb_make_string_substream, read and close: the payload and what follows it. */
  function DecodePayload(bs: seq<byte>): (r: Read<seq<byte>>)
    ensures r.Got? ==> |r.rest| < |bs| && Suffix(r.rest, bs) && |r.value| < |bs|
  {
    match Varint32(bs)
    case Fail => Fail
    case Got(size, rest) => if |rest| < size then Fail else Got(rest[..size], rest[size..])
  }

  /** Memory of the wanted shape, kept where it already has it. */
  function Buffer(prev: Value, n: nat): (r: seq<byte>)
    ensures |r| == n
  {
    if (prev.Bytes? || prev.Str? || prev.Fixed?) && |prev.buf| == n then prev.buf else Zeros(n)
  }

  function DecodeBytesItem(dataSize: int, bs: seq<byte>, prev: Value): (r: Read<Value>)
    ensures r.Got? ==> |r.rest| < |bs| && Suffix(r.rest, bs)
  {
    match DecodePayload(bs)
    case Fail => Fail
    case Got(data, rest) =>
      if |data| > PB_SIZE_MAX || |data| + BYTES_HEADER > dataSize then Fail
      else Got(Bytes(|data|, data + Buffer(prev, dataSize - BYTES_HEADER)[|data|..]), rest)
  }

  function DecodeStringItem(dataSize: int, bs: seq<byte>, prev: Value): (r: Read<Value>)
    ensures r.Got? ==> |r.rest| < |bs| && Suffix(r.rest, bs)
  {
    match DecodePayload(bs)
    case Fail => Fail
    case Got(data, rest) =>
      if |data| + 1 > dataSize then Fail
      else Got(Str(data + [0] + Buffer(prev, dataSize)[|data| + 1..]), rest)
  }

  function DecodeFixedLengthItem(dataSize: int, bs: seq<byte>): (r: Read<Value>)
    ensures r.Got? ==> |r.rest| < |bs| && Suffix(r.rest, bs)
  {
    match DecodePayload(bs)
    case Fail => Fail
    case Got(data, rest) =>
      if data == [] then Got(Fixed(Zeros(if dataSize >= 0 then dataSize else 0)), rest)
      else if |data| != dataSize then Fail
      else Got(Fixed(data), rest)
  }

  // ---------- the table ----------

  function FindForward(t: seq<Field>, lo: nat, hi: nat, tag: nat): (r: Option<nat>)
    requires hi <= |t|
    ensures r.Some? ==> lo <= r.value < hi && t[r.value].tag == tag
    ensures r.Some? ==> forall k | lo <= k < r.value :: t[k].tag != tag
    ensures r.None? ==> forall k | lo <= k < hi :: t[k].tag != tag
    decreases hi - lo
  {
    if lo >= hi then None
    else if t[lo].tag == tag then Some(lo)
    else FindForward(t, lo + 1, hi, tag)
  }

  /** pb_field_iter_find on a non-empty table: forward from the current entry, then around. */
  function FindField(t: seq<Field>, pos: nat, tag: nat): (r: Option<nat>)
    requires pos <= |t|
    ensures r.Some? ==> r.value < |t| && t[r.value].tag == tag
    ensures r.None? <==> forall k | 0 <= k < |t| :: t[k].tag != tag
  {
    match FindForward(t, pos, |t|, tag)
    case Some(k) => Some(k)
    case None => FindForward(t, 0, pos, tag)
  }

  /** The number of required entries before `pos`: the iterator's required_field_index. */
  function RequiredIndex(t: seq<Field>, pos: nat): (r: nat)
    requires pos <= |t|
    ensures r <= pos
  {
    if pos == 0 then 0 else RequiredIndex(t, pos - 1) + if t[pos - 1].htype.REQUIRED? then 1 else 0
  }

  lemma {:induction false} RequiredMonotone(t: seq<Field>, i: nat, j: nat)
    requires i <= j <= |t|
    ensures RequiredIndex(t, i) <= RequiredIndex(t, j)
    ensures i < j && t[i].htype.REQUIRED? ==> RequiredIndex(t, i) < RequiredIndex(t, j)
    decreases j
  {
    if i < j { RequiredMonotone(t, i, j - 1); }
  }

  // ---------- decoding ----------

  /** The local variables of pb_decode_noinit together with the struct. */
  datatype DState = DState(
    slots: seq<Slot>, seen: set<nat>, pos: nat, fixedField: Option<nat>, fixedSize: nat)

  /** `stopped` tells a zero tag word from the end of the stream. */
  datatype Outcome = Error | Done(st: DState, rest: seq<byte>, stopped: bool)

  datatype TagRead = TagFail | TagStop(rest: seq<byte>) | TagGot(wireType: nat, tag: nat, rest: seq<byte>)

  /** pb_decode_tag on a non-empty stream. */
  function DecodeTag(bs: seq<byte>): (r: TagRead)
    ensures !r.TagFail? ==> |r.rest| < |bs| && Suffix(r.rest, bs)
  {
    match Varint32(bs)
    case Fail => TagFail
    case Got(word, rest) => if word == 0 then TagStop(rest) else TagGot(word % 8, word / 8, rest)
  }

  /** pb_skip_field. */
  function SkipField(wireType: nat, bs: seq<byte>): (r: Read<()>)
    ensures r.Got? ==> Suffix(r.rest, bs)
  {
    if wireType == WT_VARINT then SkipVarint(bs)
    else if wireType == WT_64BIT then if |bs| < 8 then Fail else Got((), bs[8..])
    else if wireType == WT_STRING then
      match DecodePayload(bs)
      case Fail => Fail
      case Got(_, rest) => Got((), rest)
    else if wireType == WT_32BIT then if |bs| < 4 then Fail else Got((), bs[4..])
    else Fail
  }

  function StructOf(t: seq<Field>, prev: Value): (s: seq<Slot>)
    ensures |s| == |t|
  {
    if prev.Msg? && |prev.slots| == |t| then prev.slots else ZeroStruct(t)
  }

  /** The struct that a submessage is decoded into: an array entry is set to its defaults first. */
  function Prepared(f: Field, prev: Value): (s: seq<Slot>)
    ensures |s| == |f.sub|
  {
    if f.htype.REPEATED? then DefaultStruct(f.sub, StructOf(f.sub, prev)) else StructOf(f.sub, prev)
  }

  /** The decoder PB_DECODERS selects for the field, writing over `prev`. */
  function DecodeItem(f: Field, bs: seq<byte>, prev: Value): (r: Read<Value>)
    ensures r.Got? ==> Suffix(r.rest, bs)
    decreases f, 0
  {
    match f.ltype
    case VARINT => DecodeVarintItem(f.dataSize, bs)
    case UVARINT => DecodeUvarintItem(f.dataSize, bs)
    case SVARINT => DecodeSvarintItem(f.dataSize, bs)
    case FIXED32 => DecodeFixedItem(4, bs)
    case FIXED64 => DecodeFixedItem(8, bs)
    case BYTES => DecodeBytesItem(f.dataSize, bs, prev)
    case STRING => DecodeStringItem(f.dataSize, bs, prev)
    case FIXED_LENGTH_BYTES => DecodeFixedLengthItem(f.dataSize, bs)
    case SUBMESSAGE =>
      match DecodePayload(bs)
      case Fail => Fail
      case Got(body, rest) =>
        match DecodeNoInit(f.sub, body, Prepared(f, prev))
        case None => Fail
        case Some(s) => Got(Msg(s), rest)
  }

  /** The packed-array loop: entries until the payload ends; too many is an error. */
  function DecodePacked(f: Field, bs: seq<byte>, items: seq<Value>, count: nat): (r: Option<(seq<Value>, nat)>)
    requires |items| == f.arraySize
    ensures r.Some? ==> |r.value.0| == f.arraySize && r.value.1 >= count
    decreases f, 1, f.arraySize - count
  {
    if bs == [] then Some((items, count))
    else if count >= f.arraySize then None
    else
      match DecodeItem(f, bs, items[count])
      case Fail => None
      case Got(v, rest) => DecodePacked(f, rest, items[count := v], count + 1)
  }

  /** The repeated case of decode_static_field: the new slot, the new entry count, the rest. */
  function DecodeRepeated(f: Field, wireType: nat, bs: seq<byte>, sl: Slot, count: nat): (r: Read<(Slot, nat)>)
    requires |sl.items| == f.arraySize
    ensures r.Got? ==> Suffix(r.rest, bs)
    ensures r.Got? ==> |r.value.0.items| == |sl.items|
    decreases f, 2
  {
    if wireType == WT_STRING && Packable(f.ltype) then
      match DecodePayload(bs)
      case Fail => Fail
      case Got(body, rest) =>
        match DecodePacked(f, body, sl.items, count)
        case None => Fail
        case Some((items, n)) => Got((CountedSlot(f, sl, items, n), n), rest)
    else if count >= f.arraySize then Fail
    else
      match DecodeItem(f, bs, sl.items[count])
      case Fail => Fail
      case Got(v, rest) => Got((CountedSlot(f, sl, sl.items[count := v], count + 1), count + 1), rest)
  }

  /** The size cell of a single-valued field after it has been read. */
  function SizeCell(f: Field, sl: Slot): pb_size {
    match f.htype
    case ONEOF(_) => f.tag
    case OPTIONAL => if f.sizeOffset != 0 then 1 else sl.size
    case _ => sl.size
  }

  /** The memory a single value is read over; a oneof submessage is cleared first. */
  function Destination(f: Field, sl: Slot): Value
    requires |sl.items| == 1
  {
    if f.htype.ONEOF? && f.ltype.SUBMESSAGE? then Msg(DefaultStruct(f.sub, ZeroStruct(f.sub))) else sl.items[0]
  }

  /** decode_static_field. */
  function DecodeSlot(f: Field, wireType: nat, bs: seq<byte>, sl: Slot, count: nat): (r: Read<(Slot, nat)>)
    requires |sl.items| == if f.htype.REPEATED? then f.arraySize else 1
    ensures r.Got? ==> Suffix(r.rest, bs)
    ensures r.Got? ==> |r.value.0.items| == |sl.items|
    decreases f, 3
  {
    if f.htype.REPEATED? then DecodeRepeated(f, wireType, bs, sl, count)
    else
      match DecodeItem(f, bs, Destination(f, sl))
      case Fail => Fail
      case Got(v, rest) => Got((Slot(SizeCell(f, sl), [v]), count), rest)
  }

  /** The count goes into the struct unless the array has a fixed count. */
  function CountedSlot(f: Field, sl: Slot, items: seq<Value>, n: nat): (r: Slot)
    ensures r.items == items
  {
    Slot(if f.sizeOffset == 0 || n > PB_SIZE_MAX then sl.size else n, items)
  }

  /** Fixed-count bookkeeping before entry `j` is decoded; None is "wrong size for fixed count field". */
  function EnterField(t: seq<Field>, j: nat, st: DState): (r: Option<DState>)
    requires j < |t| && |st.slots| == |t| && (st.fixedField.Some? ==> st.fixedField.value < |t|)
    ensures r.Some? ==> |r.value.slots| == |t| && (r.value.fixedField.Some? ==> r.value.fixedField.value < |t|)
  {
    var switches := FixedCount(t[j]) && st.fixedField != Some(j);
    if switches && st.fixedField.Some? && st.fixedSize != t[st.fixedField.value].arraySize then None
    else
      var st1 := if switches then st.(fixedField := Some(j), fixedSize := 0) else st;
      var index := RequiredIndex(t, j);
      Some(st1.(pos := j, seen := if t[j].htype.REQUIRED? && index < PB_MAX_REQUIRED_FIELDS then st.seen + {index} else st.seen))
  }

  /** One field of the message: entry `j` matched the tag. */
  function DecodeField(t: seq<Field>, j: nat, wireType: nat, bs: seq<byte>, st: DState): (r: Outcome)
    requires Consistent(t, st) && j < |t|
    ensures r.Done? ==> Suffix(r.rest, bs) && Consistent(t, r.st)
    decreases t, |bs|, 0
  {
    match EnterField(t, j, st)
    case None => Error
    case Some(st1) =>
      var k := SlotOf(t, j);
      var count := if FixedCount(t[j]) then st1.fixedSize else st1.slots[k].size;
      if |st1.slots[k].items| != (if t[j].htype.REPEATED? then t[j].arraySize else 1) then Error
      else
        match DecodeSlot(t[j], wireType, bs, st1.slots[k], count)
        case Fail => Error
        case Got((sl, n), rest) =>
          Done(st1.(slots := st1.slots[k := sl], fixedSize := if FixedCount(t[j]) then n else st1.fixedSize), rest, false)
  }

  predicate Consistent(t: seq<Field>, st: DState) {
    && |st.slots| == |t| && st.pos <= |t|
    && (st.fixedField.Some? ==> st.fixedField.value < |t|)
  }

  /** A field under its tag, or an unknown one. */
  function DecodeTagged(t: seq<Field>, wireType: nat, tag: nat, bs: seq<byte>, st: DState): (r: Outcome)
    requires Consistent(t, st)
    ensures r.Done? ==> Suffix(r.rest, bs) && Consistent(t, r.st)
    decreases t, |bs|, 1
  {
    if t == [] && tag == 0 then Error  // the terminator matches tag 0 and its data_size is invalid
    else
      match FindField(t, st.pos, tag)
      case Some(j) => DecodeField(t, j, wireType, bs, st)
      case None =>
        match SkipField(wireType, bs)
        case Fail => Error
        case Got(_, rest) => Done(st, rest, false)
  }

  /** A whole field or unknown field from the front of the stream. */
  function DecodeOne(t: seq<Field>, bs: seq<byte>, st: DState): (r: Outcome)
    requires Consistent(t, st)
    ensures r.Done? ==> |r.rest| < |bs| && Suffix(r.rest, bs) && Consistent(t, r.st)
    decreases t, |bs|, 2
  {
    match DecodeTag(bs)
    case TagFail => Error
    case TagStop(rest) => Done(st, rest, true)
    case TagGot(wireType, tag, rest) => DecodeTagged(t, wireType, tag, rest, st)
  }

  /** The main loop of pb_decode_noinit. */
  function DecodeLoop(t: seq<Field>, bs: seq<byte>, st: DState): (r: Outcome)
    requires Consistent(t, st)
    ensures r.Done? ==> |r.rest| <= |bs| && Consistent(t, r.st)
    decreases t, |bs|, 3
  {
    if bs == [] then Done(st, [], false)
    else
      match DecodeOne(t, bs, st)
      case Error => Error
      case Done(st', rest, stopped) => if stopped then Done(st', rest, true) else DecodeLoop(t, rest, st')
  }

  /** The checks after the loop: the last fixed-count array is full, the first 64 required fields were seen. */
  predicate Complete(t: seq<Field>, st: DState)
    requires Consistent(t, st)
  {
    && (st.fixedField.Some? ==> st.fixedSize == t[st.fixedField.value].arraySize)
    && forall k | 0 <= k < RequiredIndex(t, |t|) && k < PB_MAX_REQUIRED_FIELDS :: k in st.seen
  }

  function Start(s: seq<Slot>): DState {
    DState(s, {}, 0, None, 0)
  }

  /** What the loop leaves unread: nothing, or what follows a zero tag word. */
  function Unread(t: seq<Field>, bs: seq<byte>, s: seq<Slot>): seq<byte>
    requires |s| == |t|
  {
    match DecodeLoop(t, bs, Start(s)) case Error => bs case Done(_, rest, _) => rest
  }

  /** pb_decode_noinit; the unread bytes after a zero tag word are dropped by the caller. */
  function DecodeNoInit(t: seq<Field>, bs: seq<byte>, s: seq<Slot>): (r: Option<seq<Slot>>)
    requires |s| == |t|
    ensures r.Some? ==> |r.value| == |t|
    decreases t, |bs|, 4
  {
    match DecodeLoop(t, bs, Start(s))
    case Error => None
    case Done(st, _, _) => if Complete(t, st) then Some(st.slots) else None
  }

  /** pb_decode. */
  function DecodeMessage(t: seq<Field>, bs: seq<byte>, s: seq<Slot>): (r: Option<seq<Slot>>)
    requires |s| == |t|
    ensures r.Some? ==> |r.value| == |t|
  {
    DecodeNoInit(t, bs, DefaultStruct(t, s))
  }
}
