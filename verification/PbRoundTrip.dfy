/**
 The message round trip: what pb_encode writes, pb_decode reads back as the same
 logical message, exactly when every string that is written has its NUL.
 */
module PbRoundTrip {
  import opened Common
  import opened Bits
  import opened PbWire
  import opened PbSchema
  import opened PbEncodeSpec
  import opened PbDecodeSpec
  import opened PbDefaults

  // ---------- side conditions ----------

  /** The values of a slot that the encoder writes. */
  function Written(f: Field, sl: Slot): seq<Value>
    requires TypedSlot(f, sl)
  {
    if f.htype.REPEATED? then if Count(f, sl) <= |sl.items| then sl.items[..Count(f, sl)] else []
    else if Present(f, sl) then [sl.items[0]] else []
  }

  lemma WrittenTyped(f: Field, sl: Slot)
    requires TypedSlot(f, sl)
    ensures forall k | 0 <= k < |Written(f, sl)| :: TypedValue(f, Written(f, sl)[k])
  {
  }

  /** Every string that is written has its terminating NUL inside its buffer. */
  ghost predicate TerminatedValue(f: Field, v: Value)
    requires TypedValue(f, v)
    decreases f, 0
  {
    match f.ltype
    case STRING => Terminated(v.buf)
    case SUBMESSAGE => TerminatedStruct(f.sub, v.slots)
    case _ => true
  }

  ghost predicate TerminatedSlot(f: Field, sl: Slot)
    requires TypedSlot(f, sl)
    decreases f, 1
  {
    forall k | 0 <= k < |Written(f, sl)| :: TypedValue(f, Written(f, sl)[k]) ==> TerminatedValue(f, Written(f, sl)[k])
  }

  ghost predicate TerminatedStruct(t: seq<Field>, s: seq<Slot>)
    requires TypedStruct(t, s)
    decreases t
  {
    forall j | 0 <= j < |t| :: TerminatedSlot(t[j], s[SlotOf(t, j)])
  }

  /** Every submessage and packed array encodes to fewer than 2^32 bytes. */
  ghost predicate FitsValue(f: Field, v: Value)
    requires TypedValue(f, v)
    decreases f, 0
  {
    f.ltype.SUBMESSAGE? ==>
      && FitsStruct(f.sub, v.slots)
      && (EncodeMessage(f.sub, v.slots).Some? ==> |EncodeMessage(f.sub, v.slots).value| < TWO32)
  }

  ghost predicate FitsSlot(f: Field, sl: Slot)
    requires TypedSlot(f, sl)
    decreases f, 1
  {
    var w := Written(f, sl);
    WrittenTyped(f, sl);
    && (forall k | 0 <= k < |w| :: FitsValue(f, w[k]))
    && (f.htype.REPEATED? && EncodePacked(f, w).Some? && Packable(f.ltype) ==> |EncodePacked(f, w).value| < TWO32)
  }

  ghost predicate FitsStruct(t: seq<Field>, s: seq<Slot>)
    requires TypedStruct(t, s)
    decreases t
  {
    forall j | 0 <= j < |t| :: FitsSlot(t[j], s[SlotOf(t, j)])
  }

  // ---------- what survives ----------

  /**
   A struct `s` that is encoded and then decoded into `dest` keeps its content.
   Nothing is asked of what is written; a proto3 submessage that is not written
   is found again if its fixed-count arrays hold what `dest` has there.
   */
  ghost predicate Kept(t: seq<Field>, s: seq<Slot>, dest: seq<Slot>)
    requires TypedStruct(t, s) && |dest| == |t|
    decreases t
  {
    forall j | 0 <= j < |t| :: KeptSlot(t[j], s[SlotOf(t, j)], dest[SlotOf(t, j)])
  }

  ghost predicate KeptSlot(f: Field, sl: Slot, dest: Slot)
    requires TypedSlot(f, sl)
    decreases f, 1
  {
    if f.htype.REPEATED? then
      forall m | 0 <= m < Count(f, sl) && m < |sl.items| && m < |dest.items| :: KeptValue(f, sl.items[m], dest.items[m])
    else if Present(f, sl) then
      |dest.items| == 1 && TypedValue(f, sl.items[0]) ==> KeptValue(f, sl.items[0], Destination(f, dest))
    else AgreesAt(f, sl, dest)
  }

  ghost predicate KeptValue(f: Field, v: Value, prev: Value)
    decreases f, 0
  {
    f.ltype.SUBMESSAGE? && TypedValue(f, v) ==> Kept(f.sub, v.slots, Prepared(f, prev))
  }

  // ---------- framing ----------

  lemma PayloadRoundTrip(payload: seq<byte>, suffix: seq<byte>)
    requires |payload| < TWO32
    ensures DecodePayload(Prefixed(payload) + suffix) == Got(payload, suffix)
  {
    hide Varint32, VarintBytes;
    SmallModulo(|payload|, TWO64);
    Varint32RoundTrip(|payload|, payload + suffix);
    assert Prefixed(payload) + suffix == VarintBytes(|payload|) + (payload + suffix);
    assert (payload + suffix)[..|payload|] == payload && (payload + suffix)[|payload|..] == suffix;
  }

  lemma TagRoundTrip(wireType: nat, tag: nat, suffix: seq<byte>)
    requires wireType < 8 && 0 < tag < 0x2000_0000
    ensures DecodeTag(TagBytes(wireType, tag) + suffix) == TagGot(wireType, tag, suffix)
  {
    hide Varint32, VarintBytes;
    var word := tag * 8 + wireType;
    SmallModulo(word, TWO64);
    Varint32RoundTrip(word, suffix);
  }

  lemma FindUnique(t: seq<Field>, j: nat, pos: nat)
    requires UniqueTags(t) && j < |t| && pos <= |t|
    ensures FindField(t, pos, t[j].tag) == Some(j)
  {
  }

  lemma OneEnters(t: seq<Field>, j: nat, wireType: nat, body: seq<byte>, st: DState)
    requires WellFormedTable(t) && j < |t| && wireType < 8 && Consistent(t, st)
    ensures DecodeOne(t, TagBytes(wireType, t[j].tag) + body, st) == DecodeField(t, j, wireType, body, st)
  {
    hide DecodeTag, TagBytes, FindField, FindForward, DecodeField, SkipField;
    assert WellFormedField(t[j]);
    TagRoundTrip(wireType, t[j].tag, body);
    FindUnique(t, j, st.pos);
  }

  lemma FieldContinues(t: seq<Field>, j: nat, wireType: nat, body: seq<byte>, st: DState)
    requires Consistent(t, st) && j < |t|
    ensures var r := DecodeField(t, j, wireType, body, st); r.Done? ==> !r.stopped
  {
    hide DecodeSlot, EnterField;
  }

  /** A tag in front of a field's value leads DecodeLoop to that field. */
  lemma LoopEnters(t: seq<Field>, j: nat, wireType: nat, body: seq<byte>, st: DState)
    requires WellFormedTable(t) && j < |t| && wireType < 8 && Consistent(t, st)
    ensures var bs := TagBytes(wireType, t[j].tag) + body;
      DecodeLoop(t, bs, st) ==
        match DecodeField(t, j, wireType, body, st)
        case Error => Error
        case Done(st', rest, _) => DecodeLoop(t, rest, st')
  {
    OneEnters(t, j, wireType, body, st);
    FieldContinues(t, j, wireType, body, st);
    hide DecodeOne, DecodeField, TagBytes, WellFormedTable;
    var bs := TagBytes(wireType, t[j].tag) + body;
    assert bs != [];
  }

  // ---------- scalars ----------

  lemma CastRoundTrip(n: int, limit: int)
    requires 0 < limit && -limit <= n < limit && TWO64 % (2 * limit) == 0 && limit <= TWO63
    ensures CastSigned(AsUnsigned64(n), limit) == n
  {
    if n < 0 {
      var q := TWO64 / (2 * limit);
      assert AsUnsigned64(n) == (q - 1) * (2 * limit) + (2 * limit + n) by { assert q * (2 * limit) == TWO64; }
      ModuloUnique(AsUnsigned64(n), 2 * limit, q - 1, 2 * limit + n);
    } else {
      SmallModulo(n, 2 * limit);
    }
  }

  lemma FixedRoundTrip(v: nat, width: nat, suffix: seq<byte>)
    requires (width == 4 && v < TWO32) || (width == 8 && v < TWO64)
    ensures DecodeFixedItem(width, LittleEndian(v, width) + suffix) == Got(Int(v), suffix)
  {
    var bs := LittleEndian(v, width) + suffix;
    assert bs[..width] == LittleEndian(v, width) && bs[width..] == suffix;
    assert Pow256(4) == TWO32 && Pow256(8) == TWO64;
    LittleEndianRoundTrip(v, width);
  }

  lemma VarintItemRoundTrip(dataSize: int, n: int, suffix: seq<byte>)
    requires ScalarWidth(dataSize) && -SignedLimit(dataSize) <= n < SignedLimit(dataSize)
    ensures DecodeVarintItem(dataSize, VarintBytes(AsUnsigned64(n)) + suffix) == Got(Int(n), suffix)
  {
    Varint64RoundTrip(AsUnsigned64(n), suffix);
    CastRoundTrip(n, if dataSize == 8 then TWO63 else TWO31);
  }

  lemma UvarintItemRoundTrip(dataSize: int, n: nat, suffix: seq<byte>)
    requires ScalarWidth(dataSize) && n < 2 * SignedLimit(dataSize)
    ensures DecodeUvarintItem(dataSize, VarintBytes(n) + suffix) == Got(Int(n), suffix)
  {
    Varint64RoundTrip(n, suffix);
  }

  lemma SvarintItemRoundTrip(dataSize: int, n: int, suffix: seq<byte>)
    requires ScalarWidth(dataSize) && -SignedLimit(dataSize) <= n < SignedLimit(dataSize)
    ensures DecodeSvarintItem(dataSize, VarintBytes(ZigZag(n)) + suffix) == Got(Int(n), suffix)
  {
    SvarintRoundTrip(n, suffix);
    SmallModulo(ZigZag(n), TWO64);
  }

  lemma ScalarRoundTrip(f: Field, v: Value, prev: Value, suffix: seq<byte>)
    requires WellFormedField(f) && TypedValue(f, v) && Packable(f.ltype)
    ensures EncodeItem(f, v).Some? && |EncodeItem(f, v).value| >= 1
    ensures DecodeItem(f, EncodeItem(f, v).value + suffix, prev) == Got(v, suffix)
  {
    match f.ltype
    case VARINT => VarintItemRoundTrip(f.dataSize, v.n, suffix);
    case UVARINT => UvarintItemRoundTrip(f.dataSize, v.n, suffix);
    case SVARINT => SvarintItemRoundTrip(f.dataSize, v.n, suffix);
    case FIXED32 => FixedRoundTrip(v.n, 4, suffix);
    case FIXED64 => FixedRoundTrip(v.n, 8, suffix);
  }

  // ---------- length-delimited values ----------

  lemma {:induction false} CStringOf(data: seq<byte>, tail: seq<byte>)
    requires 0 !in data
    ensures CString(data + [0] + tail) == data
  {
    var buf := data + [0] + tail;
    if data != [] {
      assert buf[0] == data[0];
      CStringOf(data[1..], tail);
      assert buf[1..] == data[1..] + [0] + tail;
    }
  }

  lemma TerminatedLength(buf: seq<byte>)
    ensures Terminated(buf) <==> |CString(buf)| < |buf|
  {
    var c := CString(buf);
    if |c| == |buf| { assert buf == buf[..|c|] == c; }
  }

  lemma StringRoundTrip(f: Field, v: Value, prev: Value, suffix: seq<byte>)
    requires f.ltype.STRING? && TypedValue(f, v)
    ensures var r := DecodeItem(f, Prefixed(CString(v.buf)) + suffix, prev);
      if Terminated(v.buf) then r.Got? && r.rest == suffix && TypedValue(f, r.value) && SameValue(f, v, r.value)
      else r.Fail?
  {
    var data := CString(v.buf);
    PayloadRoundTrip(data, suffix);
    TerminatedLength(v.buf);
    if Terminated(v.buf) { CStringOf(data, Buffer(prev, f.dataSize)[|data| + 1..]); }
  }

  lemma BytesRoundTrip(f: Field, v: Value, prev: Value, suffix: seq<byte>)
    requires f.ltype.BYTES? && TypedValue(f, v) && v.len + BYTES_HEADER <= f.dataSize
    ensures var r := DecodeItem(f, Prefixed(v.buf[..v.len]) + suffix, prev);
      r.Got? && r.rest == suffix && TypedValue(f, r.value) && SameValue(f, v, r.value)
  {
    PayloadRoundTrip(v.buf[..v.len], suffix);
    var tail := Buffer(prev, f.dataSize - BYTES_HEADER)[v.len..];
    assert (v.buf[..v.len] + tail)[..v.len] == v.buf[..v.len];
  }

  lemma FixedLengthRoundTrip(f: Field, v: Value, prev: Value, suffix: seq<byte>)
    requires f.ltype.FIXED_LENGTH_BYTES? && TypedValue(f, v)
    ensures DecodeItem(f, Prefixed(v.buf) + suffix, prev) == Got(v, suffix)
  {
    PayloadRoundTrip(v.buf, suffix);
    if v.buf == [] { assert Zeros(0) == v.buf; }
  }

  /** The memory a value is read into: for a submessage, typed and initialised unless the decoder does it. */
  ghost predicate Ready(f: Field, prev: Value) {
    f.ltype.SUBMESSAGE? ==> TypedValue(f, prev) && (f.htype.REPEATED? || PristineValue(f, prev))
  }

  ghost predicate ReadsBack(f: Field, v: Value, prev: Value, r: Read<Value>, suffix: seq<byte>)
    requires TypedValue(f, v)
  {
    if TerminatedValue(f, v) then r.Got? && r.rest == suffix && Faithful(f, v, prev, r.value) else r.Fail?
  }

  /** A value of the right type, the same exactly if it is kept. */
  ghost predicate Faithful(f: Field, v: Value, prev: Value, v': Value) {
    TypedValue(f, v') && (SameValue(f, v, v') <==> KeptValue(f, v, prev))
  }

  lemma {:induction false} ItemRoundTrip(f: Field, v: Value, prev: Value, suffix: seq<byte>)
    requires WellFormedField(f) && TypedValue(f, v) && FitsValue(f, v) && Ready(f, prev)
    requires EncodeItem(f, v).Some?
    ensures ReadsBack(f, v, prev, DecodeItem(f, EncodeItem(f, v).value + suffix, prev), suffix)
    decreases f, 1
  {
    match f.ltype
    case STRING => StringRoundTrip(f, v, prev, suffix);
    case BYTES => BytesRoundTrip(f, v, prev, suffix);
    case FIXED_LENGTH_BYTES => FixedLengthRoundTrip(f, v, prev, suffix);
    case SUBMESSAGE => SubmessageRoundTrip(f, v, prev, suffix);
    case _ => ScalarRoundTrip(f, v, prev, suffix);
  }

  lemma {:induction false} SubmessageRoundTrip(f: Field, v: Value, prev: Value, suffix: seq<byte>)
    requires f.ltype.SUBMESSAGE?
    requires WellFormedField(f) && TypedValue(f, v) && FitsValue(f, v) && Ready(f, prev)
    requires EncodeItem(f, v).Some?
    ensures ReadsBack(f, v, prev, DecodeItem(f, EncodeItem(f, v).value + suffix, prev), suffix)
    decreases f, 0
  {
    var body := EncodeMessage(f.sub, v.slots).value;
    var dest := Prepared(f, prev);
    PreparedReady(f, prev);
    SubmessageRead(f, body, prev, suffix);
    StructRoundTrip(f.sub, v.slots, dest);
  }

  lemma PreparedReady(f: Field, prev: Value)
    requires f.ltype.SUBMESSAGE? && WellFormedField(f) && Ready(f, prev)
    ensures TypedStruct(f.sub, Prepared(f, prev)) && PristineStruct(f.sub, Prepared(f, prev))
  {
    assert TypedValue(f, prev) && TypedStruct(f.sub, prev.slots);
    if f.htype.REPEATED? { DefaultsPristine(f.sub, prev.slots); } else { assert PristineValue(f, prev); }
  }

  lemma SubmessageRead(f: Field, body: seq<byte>, prev: Value, suffix: seq<byte>)
    requires f.ltype.SUBMESSAGE? && |body| < TWO32
    ensures DecodeItem(f, Prefixed(body) + suffix, prev) ==
      match DecodeNoInit(f.sub, body, Prepared(f, prev))
      case None => Fail
      case Some(s) => Got(Msg(s), suffix)
  {
    PayloadRoundTrip(body, suffix);
  }

  // ---------- the state of the decoder between fields ----------

  ghost predicate Pending(f: Field, sl: Slot) {
    if f.htype.ONEOF? then sl.size != f.tag else PristineSlot(f, sl)
  }

  /** No fixed-count array is half filled and none beyond `i` has been entered. */
  ghost predicate Settled(t: seq<Field>, i: nat, st: DState) {
    st.fixedField.Some? ==> st.fixedField.value < i && st.fixedField.value < |t| && st.fixedSize == t[st.fixedField.value].arraySize
  }

  ghost predicate SeenBefore(t: seq<Field>, i: nat, seen: set<nat>)
    requires i <= |t|
  {
    forall j | 0 <= j < i && t[j].htype.REQUIRED? && RequiredIndex(t, j) < PB_MAX_REQUIRED_FIELDS :: RequiredIndex(t, j) in seen
  }

  /** The slot has been read back: it is the same exactly if it is kept. */
  ghost predicate ReadSlotBack(f: Field, sl: Slot, dest: Slot, sl': Slot) {
    TypedSlot(f, sl) && (SameSlot(f, sl, sl') <==> KeptSlot(f, sl, dest))
  }

  /** An entry that the decoder has not come to: as it was at the start, but for members of a oneof. */
  ghost predicate Untouched(f: Field, dest: Slot, sl: Slot) {
    Pending(f, sl) && (!f.htype.ONEOF? ==> sl == dest) && (f.htype.ONEOF? ==> |dest.items| == 1)
  }

  /** From a struct `d`, entries before `i` have been read back and entries from `next` on are untouched. */
  ghost predicate Halfway(t: seq<Field>, s: seq<Slot>, d: seq<Slot>, i: nat, next: nat, st: DState)
    requires i <= next <= |t| && |s| == |d| == |t|
  {
    && Consistent(t, st) && TypedStruct(t, st.slots)
    && (forall j | 0 <= j < i :: ReadSlotBack(t[j], s[SlotOf(t, j)], d[SlotOf(t, j)], st.slots[SlotOf(t, j)]))
    && (forall j | next <= j < |t| :: Untouched(t[j], d[SlotOf(t, j)], st.slots[SlotOf(t, j)]))
    && SeenBefore(t, i, st.seen)
  }

  ghost predicate ReadUpTo(t: seq<Field>, s: seq<Slot>, d: seq<Slot>, i: nat, st: DState)
    requires i <= |t| && |s| == |d| == |t|
  {
    Halfway(t, s, d, i, i, st) && Settled(t, i, st)
  }

  lemma SharedSlot(t: seq<Field>, i: nat, j: nat)
    requires WellFormedTable(t) && i < |t| && j < |t| && i != j && SlotOf(t, i) == SlotOf(t, j)
    ensures t[i].htype.ONEOF? && t[j].htype.ONEOF? && t[i].tag != t[j].tag
  {
  }

  /** Writing one entry's slot disturbs no other entry. */
  lemma WriteSlot(t: seq<Field>, s: seq<Slot>, d: seq<Slot>, i: nat, st: DState, st': DState)
    requires WellFormedTable(t) && i < |t| && |s| == |d| == |t| && Halfway(t, s, d, i, i + 1, st)
    requires var k := SlotOf(t, i);
      && Consistent(t, st') && st.seen <= st'.seen && st'.slots == st.slots[k := st'.slots[k]]
      && TypedSlot(t[i], st'.slots[k])
      && (t[i].htype.ONEOF? ==> st'.slots[k].size == t[i].tag && s[k].size == t[i].tag)
    ensures TypedStruct(t, st'.slots) && Halfway(t, s, d, i, i + 1, st')
    ensures ReadSlotBack(t[i], s[SlotOf(t, i)], d[SlotOf(t, i)], st'.slots[SlotOf(t, i)]) && SeenBefore(t, i + 1, st'.seen)
      ==> Halfway(t, s, d, i + 1, i + 1, st')
  {
    hide WellFormedTable;
    var k := SlotOf(t, i);
    forall j | 0 <= j < |t|
      ensures TypedSlot(t[j], st'.slots[SlotOf(t, j)])
      ensures j < i ==> ReadSlotBack(t[j], s[SlotOf(t, j)], d[SlotOf(t, j)], st'.slots[SlotOf(t, j)])
      ensures j > i ==> Untouched(t[j], d[SlotOf(t, j)], st'.slots[SlotOf(t, j)])
    {
      assert TypedSlot(t[j], st.slots[SlotOf(t, j)]);
      if j != i && SlotOf(t, j) == k { SharedSlot(t, i, j); }
    }
  }

  // ---------- one field ----------

  /** What must follow from reading what was written for entry `i`. */
  ghost predicate StepsOver(t: seq<Field>, s: seq<Slot>, d: seq<Slot>, i: nat, good: bool, bs: seq<byte>, suffix: seq<byte>, st: DState, st': DState)
    requires i < |t| && |s| == |d| == |t| && Consistent(t, st)
  {
    if good then ReadUpTo(t, s, d, i + 1, st') && DecodeLoop(t, bs, st) == DecodeLoop(t, suffix, st')
    else DecodeLoop(t, bs, st) == Error
  }

  lemma SeenNext(t: seq<Field>, i: nat, seen: set<nat>, seen': set<nat>)
    requires i < |t| && SeenBefore(t, i, seen) && seen <= seen'
    requires t[i].htype.REQUIRED? && RequiredIndex(t, i) < PB_MAX_REQUIRED_FIELDS ==> RequiredIndex(t, i) in seen'
    ensures SeenBefore(t, i + 1, seen')
  {
  }

  lemma SingleWritten(f: Field, sl: Slot)
    requires TypedSlot(f, sl) && !f.htype.REPEATED? && Present(f, sl)
    ensures |sl.items| == 1 && TypedValue(f, sl.items[0])
    ensures FitsSlot(f, sl) ==> FitsValue(f, sl.items[0])
    ensures TerminatedSlot(f, sl) <==> TerminatedValue(f, sl.items[0])
  {
    var w := Written(f, sl);
    assert w == [sl.items[0]] && w[0] == sl.items[0];
    assert TypedValue(f, w[0]);
  }

  /** The memory a single value lands in is ready for it. */
  lemma DestinationReady(f: Field, dest: Slot)
    requires WellFormedField(f) && TypedSlot(f, dest) && !f.htype.REPEATED? && Pending(f, dest)
    ensures Ready(f, Destination(f, dest))
  {
    if f.ltype.SUBMESSAGE? {
      if f.htype.ONEOF? {
        ZeroTyped(f.sub);
        DefaultsPristine(f.sub, ZeroStruct(f.sub));
      } else {
        assert TypedValue(f, dest.items[0]);
        assert Singular(f) ==> ZeroLike(f, dest.items[0]);
        assert PristineValue(f, dest.items[0]);
      }
    }
  }

  /** What is known about entry `i` when the decoder reaches it. */
  lemma EntryFacts(t: seq<Field>, s: seq<Slot>, d: seq<Slot>, i: nat, next: nat, st: DState)
    requires WellFormedTable(t) && i < next <= |t| && |s| == |d| == |t| && Halfway(t, s, d, i, next, st)
    ensures WellFormedField(t[i]) && Consistent(t, st) && TypedSlot(t[i], st.slots[SlotOf(t, i)])
  {
  }

  lemma EntryPending(t: seq<Field>, s: seq<Slot>, d: seq<Slot>, i: nat, st: DState)
    requires WellFormedTable(t) && i < |t| && |s| == |d| == |t| && ReadUpTo(t, s, d, i, st)
    ensures WellFormedField(t[i]) && Consistent(t, st) && TypedSlot(t[i], st.slots[SlotOf(t, i)])
    ensures Untouched(t[i], d[SlotOf(t, i)], st.slots[SlotOf(t, i)]) && Pending(t[i], st.slots[SlotOf(t, i)])
  {
  }

  /** A single value that the encoder wrote: required, optional or the chosen member of a oneof. */
  lemma {:induction false} SingleStep(t: seq<Field>, s: seq<Slot>, d: seq<Slot>, i: nat, suffix: seq<byte>, st: DState) returns (st': DState)
    requires WellFormedTable(t) && TypedStruct(t, s) && FitsStruct(t, s) && i < |t| == |d|
    requires ReadUpTo(t, s, d, i, st) && !t[i].htype.REPEATED?
    requires TypedSlot(t[i], s[SlotOf(t, i)]) && Present(t[i], s[SlotOf(t, i)])
    requires EncodeField(t[i], s[SlotOf(t, i)]).Some?
    ensures StepsOver(t, s, d, i, TerminatedSlot(t[i], s[SlotOf(t, i)]),
              EncodeField(t[i], s[SlotOf(t, i)]).value + suffix, suffix, st, st')
    decreases t, |t| - i, 0
  {
    hide DecodeLoop, DecodeOne, DecodeField, DecodeItem, WellFormedTable, WellFormedField;
    hide Halfway, Settled, Pending, TypedSlot, FitsSlot, TerminatedSlot, FitsValue, TerminatedValue;
    EntryPending(t, s, d, i, st);
    var f, k := t[i], SlotOf(t, i);
    var sl, dest := s[k], st.slots[k];
    assert FitsSlot(f, sl);
    SingleWritten(f, sl);
    DestinationReady(f, dest);
    var v, body := sl.items[0], EncodeItem(f, sl.items[0]).value;
    ItemRoundTrip(f, v, Destination(f, dest), suffix);
    assert EncodeField(f, sl).value + suffix == FieldTag(f) + (body + suffix);
    LoopEnters(t, i, WireType(f.ltype), body + suffix, st);
    st' := SingleStored(t, s, d, i, body + suffix, st);
  }

  /** A single value that is stored makes its slot the same exactly if it is kept. */
  lemma SingleBack(f: Field, sl: Slot, dest: Slot, was: Slot, v: Value)
    requires TypedSlot(f, sl) && !f.htype.REPEATED? && Present(f, sl) && TypedSlot(f, was) && Untouched(f, dest, was)
    requires Faithful(f, sl.items[0], Destination(f, was), v)
    ensures ReadSlotBack(f, sl, dest, Slot(SizeCell(f, was), [v])) && TypedSlot(f, Slot(SizeCell(f, was), [v]))
  {
    hide SameValue, Proto3Default;
    assert TypedValue(f, sl.items[0]);
    assert KeptValue(f, sl.items[0], Destination(f, was)) <==> KeptValue(f, sl.items[0], Destination(f, dest));
    assert KeptSlot(f, sl, dest) <==> KeptValue(f, sl.items[0], Destination(f, dest));
  }

  /** The effect of one single value on the decoder's state. */
  lemma SingleStored(t: seq<Field>, s: seq<Slot>, d: seq<Slot>, i: nat, bs: seq<byte>, st: DState) returns (st': DState)
    requires WellFormedTable(t) && |s| == |d| == |t| && i < |t| && ReadUpTo(t, s, d, i, st) && !t[i].htype.REPEATED?
    requires TypedSlot(t[i], s[SlotOf(t, i)]) && Present(t[i], s[SlotOf(t, i)]) && TypedSlot(t[i], st.slots[SlotOf(t, i)])
    ensures var f, k := t[i], SlotOf(t, i);
      var r := DecodeItem(f, bs, Destination(f, st.slots[k]));
      && (r.Fail? ==> DecodeField(t, i, WireType(f.ltype), bs, st) == Error)
      && (r.Got? && Faithful(f, s[k].items[0], Destination(f, st.slots[k]), r.value) ==>
           DecodeField(t, i, WireType(f.ltype), bs, st) == Done(st', r.rest, false) && ReadUpTo(t, s, d, i + 1, st'))
  {
    hide DecodeLoop, DecodeOne, DecodeItem, WellFormedTable, ReadSlotBack, Faithful, SameValue, Proto3Default, KeptValue;
    var f, k := t[i], SlotOf(t, i);
    var r := DecodeItem(f, bs, Destination(f, st.slots[k]));
    st' := st;
    if r.Got? && Faithful(f, s[k].items[0], Destination(f, st.slots[k]), r.value) {
      st' := EnterField(t, i, st).value;
      st' := st'.(slots := st.slots[k := Slot(SizeCell(f, st.slots[k]), [r.value])]);
      SeenNext(t, i, st.seen, st'.seen);
      SingleBack(f, s[k], d[k], st.slots[k], r.value);
      WriteSlot(t, s, d, i, st, st');
    }
  }

  lemma AbsentBack(f: Field, sl: Slot, dest: Slot, was: Slot)
    requires WellFormedField(f) && TypedSlot(f, sl) && TypedSlot(f, was) && Untouched(f, dest, was)
    requires if f.htype.REPEATED? then Count(f, sl) == 0 else !Present(f, sl)
    ensures ReadSlotBack(f, sl, dest, was)
  {
    hide Proto3Default, WellFormedField, TypedValue, SameMessage, PristineValue;
    if Singular(f) { DefaultValueSame(f, sl, was); }
  }

  /** An entry for which nothing was written. */
  lemma AbsentStep(t: seq<Field>, s: seq<Slot>, d: seq<Slot>, i: nat, st: DState)
    requires WellFormedTable(t) && TypedStruct(t, s) && i < |t| == |d| && ReadUpTo(t, s, d, i, st)
    requires TypedSlot(t[i], s[SlotOf(t, i)])
    requires if t[i].htype.REPEATED? then Count(t[i], s[SlotOf(t, i)]) == 0 else !Present(t[i], s[SlotOf(t, i)])
    ensures ReadUpTo(t, s, d, i + 1, st)
  {
    hide ReadSlotBack, Untouched, TypedSlot, Proto3Default, WellFormedTable, WellFormedField, Pending, Halfway, SeenBefore;
    EntryPending(t, s, d, i, st);
    var k := SlotOf(t, i);
    AbsentBack(t[i], s[k], d[k], st.slots[k]);
    SeenSame(t, s, d, i, st);
    HalfwayNext(t, s, d, i, st);
  }

  lemma SeenSame(t: seq<Field>, s: seq<Slot>, d: seq<Slot>, i: nat, st: DState)
    requires i < |t| == |s| == |d| && Halfway(t, s, d, i, i, st) && !t[i].htype.REQUIRED?
    ensures SeenBefore(t, i + 1, st.seen)
  {
    hide ReadSlotBack, Untouched, TypedStruct, SlotOf;
  }

  lemma HalfwayNext(t: seq<Field>, s: seq<Slot>, d: seq<Slot>, i: nat, st: DState)
    requires i < |t| == |s| == |d| && Halfway(t, s, d, i, i, st) && SeenBefore(t, i + 1, st.seen)
    requires ReadSlotBack(t[i], s[SlotOf(t, i)], d[SlotOf(t, i)], st.slots[SlotOf(t, i)])
    ensures Halfway(t, s, d, i + 1, i + 1, st)
  {
    hide ReadSlotBack, Untouched, TypedStruct, SeenBefore, SlotOf;
  }

  // ---------- repeated fields ----------

  lemma {:induction false} PackedRoundTrip(f: Field, vs: seq<Value>, k: nat, items: seq<Value>)
    requires WellFormedField(f) && Packable(f.ltype) && k <= |vs| <= f.arraySize && |items| == f.arraySize
    requires (forall m | 0 <= m < |vs| :: TypedValue(f, vs[m])) && items[..k] == vs[..k]
    ensures EncodePacked(f, vs[k..]).Some?
    ensures DecodePacked(f, EncodePacked(f, vs[k..]).value, items, k) == Some((vs + items[|vs|..], |vs|))
    decreases |vs| - k
  {
    if k == |vs| {
      assert vs + items[k..] == items[..k] + items[k..] == items;
    } else {
      var items' := items[k := vs[k]];
      assert vs[k..][1..] == vs[k + 1..] && vs[k..][0] == vs[k];
      assert items'[..k + 1] == vs[..k + 1];
      PackedRoundTrip(f, vs, k + 1, items');
      assert items'[|vs|..] == items[|vs|..];
      ScalarRoundTrip(f, vs[k], items[k], EncodePacked(f, vs[k + 1..]).value);
    }
  }

  /** Entry `i` is a repeated field of which `k` entries have been read back. */
  ghost predicate ReadEntries(t: seq<Field>, s: seq<Slot>, d: seq<Slot>, i: nat, k: nat, st: DState)
    requires i < |t| && |s| == |d| == |t|
  {
    && Halfway(t, s, d, i, i + 1, st)
    && k <= |s[i].items| && k <= |st.slots[i].items| == |d[i].items|
    && (forall m | 0 <= m < k :: Faithful(t[i], s[i].items[m], d[i].items[m], st.slots[i].items[m]))
    && (forall m | k <= m < |st.slots[i].items| :: st.slots[i].items[m] == d[i].items[m])
    && (t[i].sizeOffset != 0 ==> st.slots[i].size == k && Settled(t, i, st))
    && (t[i].sizeOffset == 0 ==> if k == 0 then Settled(t, i, st) else st.fixedField == Some(i) && st.fixedSize == k)
  }

  /** Once all entries are there the field is done. */
  lemma EntriesDone(t: seq<Field>, s: seq<Slot>, d: seq<Slot>, i: nat, st: DState)
    requires WellFormedTable(t) && i < |t| && |s| == |d| == |t| && t[i].htype.REPEATED?
    requires TypedSlot(t[i], s[i]) && Count(t[i], s[i]) <= t[i].arraySize
    requires ReadEntries(t, s, d, i, Count(t[i], s[i]), st)
    ensures ReadUpTo(t, s, d, i + 1, st)
  {
    assert TypedSlot(t[i], st.slots[SlotOf(t, i)]);
    SeenNext(t, i, st.seen, st.seen);
    assert st.slots == st.slots[i := st.slots[i]];
    WriteSlot(t, s, d, i, st, st);
  }

  /** The number of entries the decoder believes to be there already. */
  function EntryCount(f: Field, st: DState, k: nat): nat
    requires k < |st.slots|
  {
    if FixedCount(f) then st.fixedSize else st.slots[k].size
  }

  lemma EnterEntries(t: seq<Field>, s: seq<Slot>, d: seq<Slot>, i: nat, k: nat, st: DState)
    requires i < |t| && |s| == |d| == |t| && t[i].htype.REPEATED? && ReadEntries(t, s, d, i, k, st)
    ensures EnterField(t, i, st).Some?
    ensures var st1 := EnterField(t, i, st).value;
      st1.slots == st.slots && st1.seen == st.seen && EntryCount(t[i], st1, i) == k
        && (t[i].sizeOffset != 0 ==> st1.fixedField == st.fixedField && st1.fixedSize == st.fixedSize)
        && (t[i].sizeOffset == 0 ==> st1.fixedField == Some(i))
  {
  }

  /** The effect on the decoder's state of storing entries from `k` up to `n`. */
  lemma EntriesStored(t: seq<Field>, s: seq<Slot>, d: seq<Slot>, i: nat, k: nat, n: nat, items: seq<Value>, st: DState) returns (st': DState)
    requires WellFormedTable(t) && i < |t| && |s| == |d| == |t| && t[i].htype.REPEATED? && TypedSlot(t[i], s[i])
    requires ReadEntries(t, s, d, i, k, st) && k < n <= t[i].arraySize && |items| == t[i].arraySize
    requires forall m | 0 <= m < |items| :: TypedValue(t[i], items[m])
    requires n <= |s[i].items| && |d[i].items| == t[i].arraySize
    requires forall m | 0 <= m < n :: Faithful(t[i], s[i].items[m], d[i].items[m], items[m])
    requires forall m | n <= m < |items| :: items[m] == d[i].items[m]
    ensures ReadEntries(t, s, d, i, n, st') && EnterField(t, i, st).Some?
    ensures var st1 := EnterField(t, i, st).value;
      st' == st1.(slots := st.slots[i := CountedSlot(t[i], st.slots[i], items, n)],
                  fixedSize := if FixedCount(t[i]) then n else st1.fixedSize)
  {
    EnterEntries(t, s, d, i, k, st);
    var st1 := EnterField(t, i, st).value;
    st' := st1.(slots := st.slots[i := CountedSlot(t[i], st.slots[i], items, n)],
                fixedSize := if FixedCount(t[i]) then n else st1.fixedSize);
    WriteSlot(t, s, d, i, st, st');
  }

  /** DecodeField on a repeated entry, in terms of DecodeRepeated alone. */
  lemma RepeatedField(t: seq<Field>, s: seq<Slot>, d: seq<Slot>, i: nat, k: nat, wireType: nat, bs: seq<byte>, st: DState)
    requires i < |t| && |s| == |d| == |t| && t[i].htype.REPEATED? && ReadEntries(t, s, d, i, k, st) && TypedSlot(t[i], st.slots[i])
    ensures EnterField(t, i, st).Some?
    ensures DecodeField(t, i, wireType, bs, st) ==
      match DecodeRepeated(t[i], wireType, bs, st.slots[i], k)
      case Fail => Error
      case Got((sl, n), rest) =>
        var st1 := EnterField(t, i, st).value;
        Done(st1.(slots := st.slots[i := sl], fixedSize := if FixedCount(t[i]) then n else st1.fixedSize), rest, false)
  {
    EnterEntries(t, s, d, i, k, st);
  }

  /** The effect of one unpacked entry on the decoder's state. */
  lemma EntryStored(t: seq<Field>, s: seq<Slot>, d: seq<Slot>, i: nat, k: nat, bs: seq<byte>, st: DState) returns (st': DState)
    requires WellFormedTable(t) && i < |t| && |s| == |d| == |t| && t[i].htype.REPEATED? && !Packable(t[i].ltype)
    requires TypedSlot(t[i], s[i]) && k < t[i].arraySize && ReadEntries(t, s, d, i, k, st)
    requires TypedSlot(t[i], st.slots[i])
    ensures var f, r := t[i], DecodeItem(t[i], bs, st.slots[i].items[k]);
      && (r.Fail? ==> DecodeField(t, i, WireType(f.ltype), bs, st) == Error)
      && (r.Got? && Faithful(f, s[i].items[k], st.slots[i].items[k], r.value) ==>
           DecodeField(t, i, WireType(f.ltype), bs, st) == Done(st', r.rest, false) && ReadEntries(t, s, d, i, k + 1, st'))
  {
    hide DecodeLoop, DecodeOne, DecodeItem, EnterField, WellFormedTable;
    var f, r := t[i], DecodeItem(t[i], bs, st.slots[i].items[k]);
    st' := st;
    RepeatedField(t, s, d, i, k, WireType(f.ltype), bs, st);
    if r.Got? && Faithful(f, s[i].items[k], st.slots[i].items[k], r.value) {
      st' := EntriesStored(t, s, d, i, k, k + 1, st.slots[i].items[k := r.value], st);
    }
  }

  /** One entry of an unpacked array, its tag included. */
  lemma {:induction false} EntryStep(t: seq<Field>, s: seq<Slot>, d: seq<Slot>, i: nat, k: nat, tail: seq<byte>, st: DState) returns (st': DState)
    requires WellFormedTable(t) && i < |t| && |s| == |d| == |t| && t[i].htype.REPEATED? && !Packable(t[i].ltype)
    requires TypedSlot(t[i], s[i]) && k < t[i].arraySize && ReadEntries(t, s, d, i, k, st)
    requires TypedValue(t[i], s[i].items[k]) && FitsValue(t[i], s[i].items[k]) && EncodeItem(t[i], s[i].items[k]).Some?
    ensures var bs := FieldTag(t[i]) + EncodeItem(t[i], s[i].items[k]).value + tail;
      if TerminatedValue(t[i], s[i].items[k])
      then ReadEntries(t, s, d, i, k + 1, st') && DecodeLoop(t, bs, st) == DecodeLoop(t, tail, st')
      else DecodeLoop(t, bs, st) == Error
    decreases t, |t| - i, 0
  {
    hide DecodeLoop, DecodeOne, DecodeField, DecodeItem, WellFormedTable;
    var f, v := t[i], s[i].items[k];
    var bs := EncodeItem(f, v).value + tail;
    EntryFacts(t, s, d, i, i + 1, st);
    assert TypedValue(f, st.slots[i].items[k]);
    ItemRoundTrip(f, v, st.slots[i].items[k], tail);
    assert FieldTag(f) + EncodeItem(f, v).value + tail == FieldTag(f) + bs;
    LoopEnters(t, i, WireType(f.ltype), bs, st);
    st' := EntryStored(t, s, d, i, k, bs, st);
  }

  lemma {:induction false} UnpackedStep(t: seq<Field>, s: seq<Slot>, d: seq<Slot>, i: nat, k: nat, n: nat, suffix: seq<byte>, st: DState)
    returns (st': DState)
    requires WellFormedTable(t) && i < |t| && |s| == |d| == |t| && t[i].htype.REPEATED? && !Packable(t[i].ltype)
    requires TypedSlot(t[i], s[i]) && k <= n <= t[i].arraySize && ReadEntries(t, s, d, i, k, st)
    requires forall m | k <= m < n :: FitsValue(t[i], s[i].items[m])
    requires EncodeUnpacked(t[i], s[i].items[k..n]).Some?
    ensures var bs := EncodeUnpacked(t[i], s[i].items[k..n]).value + suffix;
      if forall m | k <= m < n :: TerminatedValue(t[i], s[i].items[m])
      then ReadEntries(t, s, d, i, n, st') && DecodeLoop(t, bs, st) == DecodeLoop(t, suffix, st')
      else DecodeLoop(t, bs, st) == Error
    decreases t, |t| - i, 1, n - k
  {
    hide DecodeLoop, WellFormedTable, ReadEntries, FitsValue, TerminatedValue;
    var f, vs := t[i], s[i].items[k..n];
    st' := st;
    if k == n {
      assert EncodeUnpacked(f, vs).value + suffix == suffix;
    } else {
      var v := s[i].items[k];
      assert vs[0] == v && vs[1..] == s[i].items[k + 1..n];
      var more := EncodeUnpacked(f, vs[1..]).value;
      st' := EntryStep(t, s, d, i, k, more + suffix, st);
      assert EncodeUnpacked(f, vs).value + suffix == FieldTag(f) + EncodeItem(f, v).value + (more + suffix);
      if TerminatedValue(f, v) { st' := UnpackedStep(t, s, d, i, k + 1, n, suffix, st'); }
    }
  }

  /** Everything that was written for a repeated field. */
  lemma {:induction false} RepeatedStep(t: seq<Field>, s: seq<Slot>, d: seq<Slot>, i: nat, suffix: seq<byte>, st: DState) returns (st': DState)
    requires WellFormedTable(t) && TypedStruct(t, s) && FitsStruct(t, s) && i < |t| == |d|
    requires ReadUpTo(t, s, d, i, st) && t[i].htype.REPEATED?
    requires TypedSlot(t[i], s[i]) && EncodeField(t[i], s[i]).Some?
    ensures StepsOver(t, s, d, i, TerminatedSlot(t[i], s[i]), EncodeField(t[i], s[i]).value + suffix, suffix, st, st')
    decreases t, |t| - i, 2
  {
    hide DecodeLoop, DecodeOne, DecodeField, WellFormedTable, EncodePacked, ReadEntries, Halfway;
    var f, n := t[i], Count(t[i], s[i]);
    var w := Written(f, s[i]);
    EntryPending(t, s, d, i, st);
    assert FitsSlot(f, s[SlotOf(t, i)]);
    assert w == s[i].items[..n];
    WrittenTyped(f, s[i]);
    if n == 0 {
      AbsentStep(t, s, d, i, st);
      st' := st;
      assert EncodeField(f, s[i]).value + suffix == suffix;
    } else if Packable(f.ltype) {
      st' := PackedStep(t, s, d, i, suffix, st);
    } else {
      assert s[i].items[0..n] == w;
      forall m | 0 <= m < n ensures FitsValue(f, s[i].items[m]) { assert w[m] == s[i].items[m]; }
      StartEntries(t, s, d, i, st);
      st' := UnpackedStep(t, s, d, i, 0, n, suffix, st);
      assert TerminatedSlot(f, s[i]) <==> forall m | 0 <= m < n :: TerminatedValue(f, s[i].items[m]) by {
        assert forall m | 0 <= m < n :: w[m] == s[i].items[m];
      }
      if TerminatedSlot(f, s[i]) { EntriesDone(t, s, d, i, st'); }
    }
  }

  lemma PackedStep(t: seq<Field>, s: seq<Slot>, d: seq<Slot>, i: nat, suffix: seq<byte>, st: DState) returns (st': DState)
    requires WellFormedTable(t) && i < |t| && |s| == |d| == |t| && ReadUpTo(t, s, d, i, st)
    requires t[i].htype.REPEATED? && Packable(t[i].ltype) && TypedSlot(t[i], s[i]) && FitsSlot(t[i], s[i])
    requires 0 < Count(t[i], s[i]) && EncodeField(t[i], s[i]).Some?
    ensures StepsOver(t, s, d, i, TerminatedSlot(t[i], s[i]), EncodeField(t[i], s[i]).value + suffix, suffix, st, st')
  {
    hide DecodeLoop, DecodeOne, DecodeField, WellFormedTable, EncodePacked, Settled;
    PackedWritten(t[i], s[i]);
    var body := Prefixed(EncodePacked(t[i], s[i].items[..Count(t[i], s[i])]).value) + suffix;
    assert EncodeField(t[i], s[i]).value + suffix == TagBytes(WT_STRING, t[i].tag) + body;
    LoopEnters(t, i, WT_STRING, body, st);
    st' := PackedStored(t, s, d, i, body, suffix, st);
  }

  /** The effect of a packed array on the decoder's state. */
  lemma PackedStored(t: seq<Field>, s: seq<Slot>, d: seq<Slot>, i: nat, body: seq<byte>, suffix: seq<byte>, st: DState) returns (st': DState)
    requires WellFormedTable(t) && i < |t| && |s| == |d| == |t| && ReadUpTo(t, s, d, i, st)
    requires t[i].htype.REPEATED? && Packable(t[i].ltype) && TypedSlot(t[i], s[i]) && FitsSlot(t[i], s[i])
    requires 0 < Count(t[i], s[i]) && EncodeField(t[i], s[i]).Some?
    requires Count(t[i], s[i]) <= |s[i].items| && forall m | 0 <= m < |s[i].items| :: TypedValue(t[i], s[i].items[m])
    requires EncodePacked(t[i], s[i].items[..Count(t[i], s[i])]).Some?
    requires body == Prefixed(EncodePacked(t[i], s[i].items[..Count(t[i], s[i])]).value) + suffix
    ensures ReadUpTo(t, s, d, i + 1, st') && DecodeField(t, i, WT_STRING, body, st) == Done(st', suffix, false)
  {
    hide DecodeLoop, DecodeOne, DecodeField, DecodeRepeated, WellFormedTable, WellFormedField, EncodePacked;
    hide Halfway, Settled, Pending, ReadEntries, TypedValue, SameValue;
    EntryPending(t, s, d, i, st);
    StartEntries(t, s, d, i, st);
    var f, n := t[i], Count(t[i], s[i]);
    PackedWritten(f, s[i]);
    PackedRead(f, s[i].items[..n], suffix, st.slots[i]);
    RepeatedField(t, s, d, i, 0, WT_STRING, body, st);
    PackedItems(f, s[i], st.slots[i]);
    st' := EntriesStored(t, s, d, i, 0, n, s[i].items[..n] + st.slots[i].items[n..], st);
    EntriesDone(t, s, d, i, st');
  }

  lemma StartEntries(t: seq<Field>, s: seq<Slot>, d: seq<Slot>, i: nat, st: DState)
    requires i < |t| && |s| == |d| == |t| && t[i].htype.REPEATED? && ReadUpTo(t, s, d, i, st)
    ensures ReadEntries(t, s, d, i, 0, st)
  {
    assert Pending(t[i], st.slots[SlotOf(t, i)]);
  }

  lemma PackedWritten(f: Field, sl: Slot)
    requires f.htype.REPEATED? && Packable(f.ltype) && TypedSlot(f, sl) && FitsSlot(f, sl)
    requires 0 < Count(f, sl) && EncodeField(f, sl).Some?
    ensures Count(f, sl) <= f.arraySize == |sl.items| && TerminatedSlot(f, sl)
    ensures var w := sl.items[..Count(f, sl)];
      && (forall m | 0 <= m < |w| :: TypedValue(f, w[m])) && EncodePacked(f, w).Some?
      && |EncodePacked(f, w).value| < TWO32
      && EncodeField(f, sl).value == TagBytes(WT_STRING, f.tag) + Prefixed(EncodePacked(f, w).value)
  {
    assert Written(f, sl) == sl.items[..Count(f, sl)];
  }

  lemma PackedItems(f: Field, sl: Slot, dest: Slot)
    requires f.htype.REPEATED? && Packable(f.ltype) && TypedSlot(f, sl) && TypedSlot(f, dest) && Count(f, sl) <= f.arraySize
    ensures var n := Count(f, sl);
      var items := sl.items[..n] + dest.items[n..];
      && (forall m | 0 <= m < |items| :: TypedValue(f, items[m]))
      && (forall m | 0 <= m < n :: Faithful(f, sl.items[m], dest.items[m], items[m]))
  {
  }

  lemma PackedRead(f: Field, w: seq<Value>, suffix: seq<byte>, sl: Slot)
    requires WellFormedField(f) && Packable(f.ltype) && |w| <= f.arraySize && |sl.items| == f.arraySize
    requires (forall m | 0 <= m < |w| :: TypedValue(f, w[m])) && EncodePacked(f, w).Some? && |EncodePacked(f, w).value| < TWO32
    ensures var items := w + sl.items[|w|..];
      DecodeRepeated(f, WT_STRING, Prefixed(EncodePacked(f, w).value) + suffix, sl, 0) ==
        Got((CountedSlot(f, sl, items, |w|), |w|), suffix)
  {
    assert w[0..] == w;
    PackedRoundTrip(f, w, 0, sl.items);
    PayloadRoundTrip(EncodePacked(f, w).value, suffix);
  }

  // ---------- the whole message ----------

  lemma AbsentWritten(f: Field, sl: Slot)
    requires TypedSlot(f, sl) && !f.htype.REPEATED? && !Present(f, sl)
    ensures EncodeField(f, sl) == Some([]) && TerminatedSlot(f, sl)
  {
  }

  lemma {:induction false} LoopRoundTrip(t: seq<Field>, s: seq<Slot>, d: seq<Slot>, i: nat, st: DState) returns (st': DState)
    requires WellFormedTable(t) && TypedStruct(t, s) && FitsStruct(t, s) && i <= |t| == |d|
    requires ReadUpTo(t, s, d, i, st) && EncodeFrom(t, s, i).Some?
    ensures if forall j | i <= j < |t| :: TerminatedSlot(t[j], s[SlotOf(t, j)])
      then ReadUpTo(t, s, d, |t|, st') && DecodeLoop(t, EncodeFrom(t, s, i).value, st) == Done(st', [], false)
      else DecodeLoop(t, EncodeFrom(t, s, i).value, st) == Error
    decreases t, |t| - i, 3
  {
    hide DecodeOne, DecodeField, WellFormedTable, EncodeField, Present, Halfway, TypedSlot, TerminatedSlot, FitsSlot;
    st' := st;
    if i < |t| {
      var f, sl := t[i], s[SlotOf(t, i)];
      var head, tail := EncodeField(f, sl).value, EncodeFrom(t, s, i + 1).value;
      if f.htype.REPEATED? {
        st' := RepeatedStep(t, s, d, i, tail, st);
      } else if Present(f, sl) {
        st' := SingleStep(t, s, d, i, tail, st);
      } else {
        AbsentStep(t, s, d, i, st);
        AbsentWritten(f, sl);
        assert head + tail == tail;
      }
      if TerminatedSlot(f, sl) { st' := LoopRoundTrip(t, s, d, i + 1, st'); }
    }
  }

  lemma {:induction false} StructRoundTrip(t: seq<Field>, s: seq<Slot>, dest: seq<Slot>)
    requires WellFormedTable(t) && TypedStruct(t, s) && FitsStruct(t, s) && EncodeMessage(t, s).Some?
    requires TypedStruct(t, dest) && PristineStruct(t, dest)
    ensures var r := DecodeNoInit(t, EncodeMessage(t, s).value, dest);
      if TerminatedStruct(t, s) then
        && r.Some? && TypedStruct(t, r.value) && (SameMessage(t, s, r.value) <==> Kept(t, s, dest))
        && Unread(t, EncodeMessage(t, s).value, dest) == []
      else r.None?
    decreases t, |t| + 1
  {
    hide DecodeOne, DecodeLoop, EncodeFrom;
    var st := Start(dest);
    forall j | 0 <= j < |t| ensures Untouched(t[j], dest[SlotOf(t, j)], dest[SlotOf(t, j)]) {
      assert WellFormedField(t[j]) && TypedSlot(t[j], dest[SlotOf(t, j)]) && PristineSlot(t[j], dest[SlotOf(t, j)]);
    }
    var st' := LoopRoundTrip(t, s, dest, 0, st);
    if TerminatedStruct(t, s) { AllSeen(t, |t|, st'.seen); }
  }

  /** If every required entry was marked then every index below their number is marked. */
  lemma {:induction false} AllSeen(t: seq<Field>, n: nat, seen: set<nat>)
    requires n <= |t| && SeenBefore(t, n, seen)
    ensures forall k | 0 <= k < RequiredIndex(t, n) && k < PB_MAX_REQUIRED_FIELDS :: k in seen
    decreases n
  {
    if n > 0 { AllSeen(t, n - 1, seen); }
  }

  /**
   For every well-formed table and every struct that pb_encode accepts, pb_decode of
   the bytes succeeds if and only if every string written is NUL-terminated. It then
   consumes them all, and yields the same logical message if and only if the struct
   is kept by the defaults of the memory it is decoded into.
   */
  lemma RoundTripExactly(t: seq<Field>, s: seq<Slot>, dest: seq<Slot>)
    requires WellFormedTable(t) && TypedStruct(t, s) && FitsStruct(t, s) && EncodeMessage(t, s).Some?
    requires TypedStruct(t, dest)
    ensures var r := DecodeMessage(t, EncodeMessage(t, s).value, dest);
      if TerminatedStruct(t, s) then
        && r.Some? && TypedStruct(t, r.value) && (SameMessage(t, s, r.value) <==> Kept(t, s, DefaultStruct(t, dest)))
        && Unread(t, EncodeMessage(t, s).value, DefaultStruct(t, dest)) == []
      else r.None?
  {
    DefaultsPristine(t, dest);
    StructRoundTrip(t, s, DefaultStruct(t, dest));
  }

  /** Nothing is dropped that is not found again: where a submessage can be dropped there is no fixed-count array. */
  ghost predicate KeepsAll(t: seq<Field>)
    decreases t
  {
    forall j | 0 <= j < |t| && t[j].ltype.SUBMESSAGE? ::
      KeepsAll(t[j].sub) && (Singular(t[j]) ==> Undropped(t[j].sub) || NoFixedArrays(t[j].sub))
  }

  /** A required field: the struct never counts as default. */
  predicate Undropped(t: seq<Field>) {
    exists j :: 0 <= j < |t| && t[j].htype.REQUIRED?
  }

  ghost predicate NoFixedArrays(t: seq<Field>)
    decreases t
  {
    forall j | 0 <= j < |t| :: !FixedCount(t[j]) && (Singular(t[j]) && t[j].ltype.SUBMESSAGE? ==> NoFixedArrays(t[j].sub))
  }

  lemma {:induction false} NoArraysAgree(t: seq<Field>, a: seq<Slot>, b: seq<Slot>)
    requires NoFixedArrays(t) && TypedStruct(t, a) && TypedStruct(t, b)
    ensures ArraysAgree(t, a, b)
    decreases t
  {
    forall j | 0 <= j < |t| ensures AgreesAt(t[j], a[SlotOf(t, j)], b[SlotOf(t, j)]) {
      var f, x, y := t[j], a[SlotOf(t, j)], b[SlotOf(t, j)];
      assert TypedSlot(f, x) && TypedSlot(f, y);
      if Singular(f) && f.ltype.SUBMESSAGE? {
        assert TypedValue(f, x.items[0]) && TypedValue(f, y.items[0]);
        NoArraysAgree(f.sub, x.items[0].slots, y.items[0].slots);
      }
    }
  }

  lemma {:induction false} KeptAlways(t: seq<Field>, s: seq<Slot>, dest: seq<Slot>)
    requires WellFormedTable(t) && KeepsAll(t) && TypedStruct(t, s) && TypedStruct(t, dest)
    ensures Kept(t, s, dest)
    decreases t, 1
  {
    forall j | 0 <= j < |t| ensures KeptSlot(t[j], s[SlotOf(t, j)], dest[SlotOf(t, j)]) {
      assert WellFormedField(t[j]) && TypedSlot(t[j], s[SlotOf(t, j)]) && TypedSlot(t[j], dest[SlotOf(t, j)]);
      if t[j].ltype.SUBMESSAGE? { SlotKeptAlways(t[j], s[SlotOf(t, j)], dest[SlotOf(t, j)]); }
    }
  }

  lemma {:induction false} SlotKeptAlways(f: Field, sl: Slot, dest: Slot)
    requires WellFormedField(f) && f.ltype.SUBMESSAGE? && KeepsAll(f.sub)
    requires Singular(f) ==> Undropped(f.sub) || NoFixedArrays(f.sub)
    requires TypedSlot(f, sl) && TypedSlot(f, dest)
    ensures KeptSlot(f, sl, dest)
    decreases f, 1
  {
    if f.htype.REPEATED? {
      forall m | 0 <= m < Count(f, sl) && m < |sl.items| && m < |dest.items| ensures KeptValue(f, sl.items[m], dest.items[m]) {
        ValueKeptAlways(f, sl.items[m], dest.items[m]);
      }
    } else if Present(f, sl) {
      if f.htype.ONEOF? {
        ZeroTyped(f.sub);
        DefaultsPristine(f.sub, ZeroStruct(f.sub));
      }
      ValueKeptAlways(f, sl.items[0], Destination(f, dest));
    } else if Singular(f) {
      DroppedKeptAlways(f, sl, dest);
    }
  }

  lemma {:induction false} ValueKeptAlways(f: Field, v: Value, prev: Value)
    requires WellFormedField(f) && f.ltype.SUBMESSAGE? && KeepsAll(f.sub) && TypedValue(f, v) && TypedValue(f, prev)
    ensures KeptValue(f, v, prev)
    decreases f, 0
  {
    if f.htype.REPEATED? { DefaultsPristine(f.sub, prev.slots); }
    KeptAlways(f.sub, v.slots, Prepared(f, prev));
  }

  lemma NeverDefault(t: seq<Field>, s: seq<Slot>)
    requires TypedStruct(t, s) && Undropped(t)
    ensures !Proto3DefaultStruct(t, s)
  {
    var j :| 0 <= j < |t| && t[j].htype.REQUIRED?;
    assert TypedSlot(t[j], s[SlotOf(t, j)]) && !Proto3Default(t[j], s[SlotOf(t, j)]);
  }

  lemma DroppedKeptAlways(f: Field, sl: Slot, dest: Slot)
    requires f.ltype.SUBMESSAGE? && Singular(f) && TypedSlot(f, sl) && TypedSlot(f, dest) && !Present(f, sl)
    requires Undropped(f.sub) || NoFixedArrays(f.sub)
    ensures AgreesAt(f, sl, dest)
  {
    var v, w := sl.items[0], dest.items[0];
    assert TypedValue(f, v) && TypedValue(f, w);
    assert Proto3DefaultStruct(f.sub, v.slots);
    if Undropped(f.sub) { NeverDefault(f.sub, v.slots); }
    if NoFixedArrays(f.sub) { NoArraysAgree(f.sub, v.slots, w.slots); }
  }

  /**
   For tables where nothing can be dropped, the round trip is exact: the same
   message comes back, whatever memory it is decoded into, if and only if every
   string written is NUL-terminated.
   */
  lemma MessageRoundTrip(t: seq<Field>, s: seq<Slot>, dest: seq<Slot>)
    requires WellFormedTable(t) && KeepsAll(t) && TypedStruct(t, s) && FitsStruct(t, s) && EncodeMessage(t, s).Some?
    requires TypedStruct(t, dest)
    ensures var r := DecodeMessage(t, EncodeMessage(t, s).value, dest);
      if TerminatedStruct(t, s) then
        && r.Some? && TypedStruct(t, r.value) && SameMessage(t, s, r.value)
        && Unread(t, EncodeMessage(t, s).value, DefaultStruct(t, dest)) == []
      else r.None?
  {
    DefaultsPristine(t, dest);
    RoundTripExactly(t, s, dest);
    KeptAlways(t, s, DefaultStruct(t, dest));
  }

  // ---------- where the round trip ends ----------

  /** One required string in a buffer of one byte. */
  function OneString(): seq<Field> {
    [Field(1, STRING, REQUIRED, 0, 0, 1, 1, None, [])]
  }

  function FullBuffer(): seq<Slot> {
    [Slot(0, [Str([65])])]
  }

  lemma FullBufferBytes()
    ensures TypedStruct(OneString(), FullBuffer()) && EncodeMessage(OneString(), FullBuffer()) == Some([10, 1, 65])
  {
    var t, s := OneString(), FullBuffer();
    assert TypedSlot(t[0], s[SlotOf(t, 0)]);
    assert CString([65]) == [65] by { assert CString([65][1..]) == []; }
    assert EncodeFrom(t, s, 1) == Some([]);
    assert Prefixed([65]) == [1] + [65] == [1, 65] && FieldTag(t[0]) == [10];
    assert EncodeItem(t[0], s[0].items[0]) == Some([1, 65]);
    assert [10] + [1, 65] == [10, 1, 65] && [10, 1, 65] + [] == [10, 1, 65];
    assert EncodeField(t[0], s[0]) == Some([10, 1, 65]);
  }

  /** A buffer without a NUL is written whole, and there is no room to read it back. */
  lemma FullBufferIsLost(dest: seq<Slot>)
    requires TypedStruct(OneString(), dest)
    ensures WellFormedTable(OneString()) && TypedStruct(OneString(), FullBuffer())
    ensures EncodeMessage(OneString(), FullBuffer()) == Some([10, 1, 65])
    ensures DecodeMessage(OneString(), [10, 1, 65], dest) == None
  {
    hide DecodeMessage, EncodeMessage;
    var t, s := OneString(), FullBuffer();
    assert WellFormedField(t[0]);
    FullBufferBytes();
    assert TypedSlot(t[0], s[SlotOf(t, 0)]) && FitsSlot(t[0], s[0]);
    assert !TerminatedSlot(t[0], s[0]) by { assert Written(t[0], s[0])[0] == Str([65]); }
    MessageRoundTrip(t, s, dest);
  }

  /** A proto3 submessage that holds a fixed-count array of two 32-bit numbers. */
  function FixedInside(): seq<Field> {
    [Field(1, SUBMESSAGE, OPTIONAL, 0, 0, 8, 1, None, [Field(1, UVARINT, REPEATED, 0, 0, 4, 2, None, [])])]
  }

  function Holding(a: nat, b: nat): seq<Slot> {
    [Slot(0, [Msg([Slot(0, [Int(a), Int(b)])])])]
  }

  lemma DroppedBytes()
    ensures WellFormedTable(FixedInside()) && TypedStruct(FixedInside(), Holding(0, 7))
    ensures EncodeMessage(FixedInside(), Holding(0, 7)) == Some([])
  {
    var t, s := FixedInside(), Holding(0, 7);
    var f, inner := t[0].sub[0], s[0].items[0].slots;
    assert SlotOf(t, 0) == 0 && SlotOf(t[0].sub, 0) == 0;
    assert WellFormedField(f) && WellFormedTable(t[0].sub) && WellFormedField(t[0]);
    assert TypedSlot(f, inner[0]);
    assert TypedStruct(t[0].sub, inner);
    assert TypedValue(t[0], s[0].items[0]);
    assert TypedSlot(t[0], s[0]);
    assert ClearedArray(f, inner[0].items) == inner[0].items;
    assert EncodeFrom(t, s, 1) == Some([]);
    assert EncodeField(t[0], s[0]) == Some([]);
    var nothing: seq<byte> := [];
    assert nothing + nothing == nothing && EncodeFrom(t, s, 0) == Some(nothing + nothing);
    assert EncodeMessage(t, s) == Some([]);
  }

  lemma ArrayDefaults(a: nat, b: nat)
    ensures DefaultStruct(FixedInside(), Holding(a, b)) == Holding(0, b)
  {
    var t, s := FixedInside(), Holding(a, b);
    var f, inner := t[0].sub[0], s[0].items[0].slots;
    assert ClearedArray(f, inner[0].items) == [Int(0), Int(b)];
    assert DefaultStruct(t[0].sub, inner) == Holding(0, b)[0].items[0].slots;
  }

  lemma NothingRead(dest: seq<Slot>)
    requires |dest| == 1
    ensures DecodeMessage(FixedInside(), [], dest) == Some(DefaultStruct(FixedInside(), dest))
  {
  }

  lemma SameArrays(b: nat)
    ensures SameMessage(FixedInside(), Holding(0, 7), Holding(0, b)) <==> b == 7
  {
    var t, s, s' := FixedInside(), Holding(0, 7), Holding(0, b);
    var f, inner, inner' := t[0].sub[0], s[0].items[0].slots, s'[0].items[0].slots;
    assert SlotOf(t, 0) == 0 && SlotOf(t[0].sub, 0) == 0;
    assert SameValue(f, inner[0].items[1], inner'[0].items[1]) <==> b == 7;
    assert SameSlot(f, inner[0], inner'[0]) <==> b == 7;
    assert SameMessage(t[0].sub, inner, inner') <==> b == 7;
    assert SameSlot(t[0], s[0], s'[0]) <==> b == 7;
  }

  /**
   The first number, zero, is read as the array's count: the submessage is taken
   to be empty and not written. Decoding finds the second number only if the
   memory decoded into happens to hold it.
   */
  lemma FixedCountIsDropped(a: nat, b: nat)
    ensures TypedStruct(FixedInside(), Holding(0, 7)) && EncodeMessage(FixedInside(), Holding(0, 7)) == Some([])
    ensures DecodeMessage(FixedInside(), [], Holding(a, b)) == Some(Holding(0, b))
    ensures SameMessage(FixedInside(), Holding(0, 7), Holding(0, b)) <==> b == 7
  {
    hide SameMessage, DecodeMessage, EncodeMessage;
    DroppedBytes();
    NothingRead(Holding(a, b));
    ArrayDefaults(a, b);
    SameArrays(b);
  }
}
