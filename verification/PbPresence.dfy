/**
 What the encoder leaves out: a proto3 field at its default, and a submessage
 exactly when it would come out empty.
 */
module PbPresence {
  import opened Common
  import opened PbWire
  import opened PbSchema
  import opened PbEncodeSpec

  /** The value a proto3 field has when it is not there. */
  predicate AtDefault(f: Field, v: Value)
    requires TypedValue(f, v) && !f.ltype.SUBMESSAGE?
  {
    match f.ltype
    case BYTES => v.len == 0
    case STRING => CString(v.buf) == []
    case FIXED_LENGTH_BYTES => v.buf == []
    case VARINT | UVARINT | SVARINT | FIXED32 | FIXED64 => v.n == 0
  }

  lemma FieldNonempty(f: Field, sl: Slot)
    requires TypedSlot(f, sl) && !f.htype.REPEATED?
    ensures EncodeField(f, sl) == Some([]) <==> !Present(f, sl)
  {
    hide EncodeItem, Proto3Default;
    if Present(f, sl) && EncodeField(f, sl).Some? {
      assert |EncodeField(f, sl).value| >= |FieldTag(f)| > 0;
    }
  }

  /** A proto3 scalar, string or bytes field is left out exactly when it is at its default. */
  lemma DefaultLeftOut(f: Field, sl: Slot)
    requires TypedSlot(f, sl) && Singular(f) && !f.ltype.SUBMESSAGE?
    ensures |sl.items| == 1 && TypedValue(f, sl.items[0])
    ensures EncodeField(f, sl) == Some([]) <==> AtDefault(f, sl.items[0])
  {
    hide EncodeField;
    FieldNonempty(f, sl);
  }

  /** Whatever a oneof has chosen is one of its members. */
  ghost predicate ValidChoice(t: seq<Field>, s: seq<Slot>, j: nat)
    requires j < |t| == |s|
  {
    || s[SlotOf(t, j)].size == 0
    || exists i :: 0 <= i < |t| && SlotOf(t, i) == SlotOf(t, j) && t[i].htype.ONEOF? && s[SlotOf(t, i)].size == t[i].tag
  }

  ghost predicate Plain(t: seq<Field>, s: seq<Slot>) {
    && |t| == |s|
    && (forall j | 0 <= j < |t| :: t[j].tag != 0 && !FixedCount(t[j]))
    && (forall j | 0 <= j < |t| && t[j].htype.ONEOF? :: ValidChoice(t, s, j))
  }

  lemma {:induction false} EmptyFrom(t: seq<Field>, s: seq<Slot>, i: nat)
    requires TypedStruct(t, s) && i <= |t|
    ensures EncodeFrom(t, s, i) == Some([]) <==> forall j | i <= j < |t| :: EncodeField(t[j], s[SlotOf(t, j)]) == Some([])
    decreases |t| - i
  {
    hide EncodeField, TypedSlot;
    if i < |t| {
      EmptyFrom(t, s, i + 1);
      assert TypedSlot(t[i], s[SlotOf(t, i)]);
      var b, rest := EncodeField(t[i], s[SlotOf(t, i)]), EncodeFrom(t, s, i + 1);
      if b.Some? && rest.Some? { assert b.value + rest.value == [] <==> b.value == [] && rest.value == []; }
      assert EncodeFrom(t, s, i) == Some([]) <==> b == Some([]) && rest == Some([]);
    }
  }

  lemma {:induction false} ArrayNonempty(f: Field, vs: seq<Value>)
    requires (forall k | 0 <= k < |vs| :: TypedValue(f, vs[k])) && vs != [] && EncodeUnpacked(f, vs).Some?
    ensures EncodeUnpacked(f, vs).value != []
  {
    hide EncodeItem, TypedValue;
    assert |EncodeUnpacked(f, vs).value| >= |FieldTag(f)| > 0;
  }

  lemma ArrayLeftOut(f: Field, sl: Slot)
    requires TypedSlot(f, sl) && f.htype.REPEATED?
    ensures EncodeField(f, sl) == Some([]) <==> Count(f, sl) == 0
  {
    hide EncodeItem, EncodePacked, EncodeUnpacked, TypedValue;
    var n := Count(f, sl);
    if 0 < n <= f.arraySize && EncodeField(f, sl).Some? {
      if Packable(f.ltype) {
        assert |EncodeField(f, sl).value| >= |TagBytes(WT_STRING, f.tag)| > 0;
      } else {
        assert EncodeArray(f, sl.items, n) == EncodeUnpacked(f, sl.items[..n]);
        ArrayNonempty(f, sl.items[..n]);
      }
    }
  }

  /** One entry: left out exactly when it is at its default, where a oneof is settled as a whole. */
  lemma EntryLeftOut(t: seq<Field>, s: seq<Slot>, j: nat)
    requires TypedStruct(t, s) && j < |t| && !FixedCount(t[j]) && TypedSlot(t[j], s[SlotOf(t, j)]) && !t[j].htype.ONEOF?
    ensures EncodeField(t[j], s[SlotOf(t, j)]) == Some([]) <==> Proto3Default(t[j], s[SlotOf(t, j)])
  {
    var f, sl := t[j], s[SlotOf(t, j)];
    if f.htype.REPEATED? { ArrayLeftOut(f, sl); } else { FieldNonempty(f, sl); }
  }

  /** A struct counts as default exactly when it would come out empty. */
  lemma DefaultIsEmpty(t: seq<Field>, s: seq<Slot>)
    requires TypedStruct(t, s) && Plain(t, s)
    ensures Proto3DefaultStruct(t, s) <==> EncodeMessage(t, s) == Some([])
  {
    EmptyFrom(t, s, 0);
    hide EncodeField, Proto3Default, EncodeFrom, ValidChoice;
    forall j | 0 <= j < |t| && !t[j].htype.ONEOF?
      ensures EncodeField(t[j], s[SlotOf(t, j)]) == Some([]) <==> Proto3Default(t[j], s[SlotOf(t, j)])
    {
      assert TypedSlot(t[j], s[SlotOf(t, j)]);
      EntryLeftOut(t, s, j);
    }
    OneofsLeftOut(t, s);
  }

  lemma OneofsLeftOut(t: seq<Field>, s: seq<Slot>)
    requires TypedStruct(t, s) && Plain(t, s)
    ensures (forall j | 0 <= j < |t| && t[j].htype.ONEOF? :: EncodeField(t[j], s[SlotOf(t, j)]) == Some([])) <==>
            forall j | 0 <= j < |t| && t[j].htype.ONEOF? :: Proto3Default(t[j], s[SlotOf(t, j)])
  {
    hide EncodeField;
    forall j | 0 <= j < |t| && t[j].htype.ONEOF?
      ensures EncodeField(t[j], s[SlotOf(t, j)]) == Some([]) <==> s[SlotOf(t, j)].size != t[j].tag
      ensures Proto3Default(t[j], s[SlotOf(t, j)]) <==> s[SlotOf(t, j)].size == 0
    {
      assert TypedSlot(t[j], s[SlotOf(t, j)]);
      FieldNonempty(t[j], s[SlotOf(t, j)]);
    }
    if forall j | 0 <= j < |t| && t[j].htype.ONEOF? :: EncodeField(t[j], s[SlotOf(t, j)]) == Some([]) {
      forall j | 0 <= j < |t| && t[j].htype.ONEOF? ensures s[SlotOf(t, j)].size == 0 { assert ValidChoice(t, s, j); }
    }
  }

  /** A proto3 submessage is left out exactly when it would come out empty. */
  lemma SubmessageLeftOut(f: Field, sl: Slot)
    requires TypedSlot(f, sl) && Singular(f) && f.ltype.SUBMESSAGE? && TypedValue(f, sl.items[0]) && Plain(f.sub, sl.items[0].slots)
    ensures EncodeField(f, sl) == Some([]) <==> EncodeMessage(f.sub, sl.items[0].slots) == Some([])
  {
    hide EncodeField, EncodeMessage, Proto3DefaultStruct, Plain;
    FieldNonempty(f, sl);
    DefaultIsEmpty(f.sub, sl.items[0].slots);
  }
}
