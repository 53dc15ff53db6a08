/**
 What the decoder accepts, in laws that hold of any input: required fields, the
 zero key, unknown fields that are malformed, arrays packed or not and full or
 not, fields that come twice.
 */
module PbLaws {
  import opened Common
  import opened Bits
  import opened PbWire
  import opened PbSchema
  import opened PbEncodeSpec
  import opened PbDecodeSpec
  import opened PbDefaults
  import opened PbRoundTrip
  import opened PbUnknown
  import opened PbEvolution

  // ---------- required fields ----------

  /** One of the fields that are read has this number. */
  ghost predicate Occurs(t: seq<Field>, bs: seq<byte>, st: DState, tag: nat)
    requires Consistent(t, st)
    decreases |bs|
  {
    bs != [] && DecodeTag(bs).TagGot? &&
    (DecodeTag(bs).tag == tag ||
      match DecodeOne(t, bs, st)
      case Error => false
      case Done(st', rest, stopped) => !stopped && Occurs(t, rest, st', tag))
  }

  lemma FieldSeen(t: seq<Field>, i: nat, wireType: nat, bs: seq<byte>, st: DState)
    requires Consistent(t, st) && i < |t| && DecodeField(t, i, wireType, bs, st).Done?
    ensures DecodeField(t, i, wireType, bs, st).st.seen ==
      st.seen + if t[i].htype.REQUIRED? && RequiredIndex(t, i) < 64 then {RequiredIndex(t, i)} else {}
  {
    hide DecodeSlot, RequiredIndex;
  }

  lemma OneSeen(t: seq<Field>, bs: seq<byte>, st: DState, j: nat)
    requires UniqueTags(t) && Consistent(t, st) && j < |t| && t[j].htype.REQUIRED? && RequiredIndex(t, j) < 64
    requires DecodeOne(t, bs, st).Done? && DecodeTag(bs).TagGot?
    ensures RequiredIndex(t, j) in DecodeOne(t, bs, st).st.seen <==> RequiredIndex(t, j) in st.seen || DecodeTag(bs).tag == t[j].tag
  {
    hide DecodeField, RequiredIndex, SkipField, DecodeTag, FindField;
    var tag, wireType, rest := DecodeTag(bs).tag, DecodeTag(bs).wireType, DecodeTag(bs).rest;
    var i := FindField(t, st.pos, tag);
    if i.Some? {
      FieldSeen(t, i.value, wireType, rest, st);
      if i.value < j { RequiredMonotone(t, i.value, j); }
      if i.value > j { RequiredMonotone(t, j, i.value); }
      assert i.value != j ==> t[i.value].tag != t[j].tag;
    }
  }

  lemma {:induction false} LoopSeen(t: seq<Field>, bs: seq<byte>, st: DState, j: nat)
    requires UniqueTags(t) && Consistent(t, st) && j < |t| && t[j].htype.REQUIRED? && RequiredIndex(t, j) < 64
    requires DecodeLoop(t, bs, st).Done?
    ensures RequiredIndex(t, j) in DecodeLoop(t, bs, st).st.seen <==> RequiredIndex(t, j) in st.seen || Occurs(t, bs, st, t[j].tag)
    decreases |bs|
  {
    hide RequiredIndex, UniqueTags, DecodeTagged;
    if bs != [] && DecodeTag(bs).TagGot? {
      OneSeen(t, bs, st, j);
      var r := DecodeOne(t, bs, st);
      OneGoesOn(t, bs, st);
      LoopSeen(t, r.rest, r.st, j);
    }
  }

  lemma OneGoesOn(t: seq<Field>, bs: seq<byte>, st: DState)
    requires Consistent(t, st) && DecodeOne(t, bs, st).Done? && DecodeTag(bs).TagGot?
    ensures !DecodeOne(t, bs, st).stopped
  {
    hide DecodeField, SkipField, DecodeTag, FindField;
    var i := FindField(t, st.pos, DecodeTag(bs).tag);
    if i.Some? { FieldContinues(t, i.value, DecodeTag(bs).wireType, DecodeTag(bs).rest, st); }
  }

  /** The numbers below the count of required fields are those of the required fields. */
  lemma {:induction false} RequiredAt(t: seq<Field>, n: nat, k: nat) returns (j: nat)
    requires n <= |t| && k < RequiredIndex(t, n)
    ensures j < n && t[j].htype.REQUIRED? && RequiredIndex(t, j) == k
  {
    if t[n - 1].htype.REQUIRED? && k == RequiredIndex(t, n - 1) {
      j := n - 1;
    } else {
      j := RequiredAt(t, n - 1, k);
    }
  }

  /**
   Any bytes are accepted exactly when every field in them can be read, the last
   array of fixed count is full, and each of the first 64 required fields of the
   table is among them.
   */
  lemma RequiredExactly(t: seq<Field>, bs: seq<byte>, s: seq<Slot>)
    requires UniqueTags(t) && |s| == |t|
    ensures DecodeNoInit(t, bs, s).Some? <==>
      && DecodeLoop(t, bs, Start(s)).Done?
      && var st := DecodeLoop(t, bs, Start(s)).st;
      && (st.fixedField.Some? ==> st.fixedSize == t[st.fixedField.value].arraySize)
      && forall j | 0 <= j < |t| && t[j].htype.REQUIRED? && RequiredIndex(t, j) < 64 :: Occurs(t, bs, Start(s), t[j].tag)
  {
    hide DecodeLoop, RequiredIndex, UniqueTags, Occurs;
    if DecodeLoop(t, bs, Start(s)).Done? {
      var st := DecodeLoop(t, bs, Start(s)).st;
      forall j | 0 <= j < |t| && t[j].htype.REQUIRED? && RequiredIndex(t, j) < 64
        ensures RequiredIndex(t, j) in st.seen <==> Occurs(t, bs, Start(s), t[j].tag)
        ensures RequiredIndex(t, j) < RequiredIndex(t, |t|)
      {
        LoopSeen(t, bs, Start(s), j);
        RequiredMonotone(t, j, |t|);
      }
      if forall j | 0 <= j < |t| && t[j].htype.REQUIRED? && RequiredIndex(t, j) < 64 :: Occurs(t, bs, Start(s), t[j].tag) {
        forall k | 0 <= k < RequiredIndex(t, |t|) && k < PB_MAX_REQUIRED_FIELDS ensures k in st.seen {
          var j := RequiredAt(t, |t|, k);
        }
      }
    }
  }

  // ---------- the end of a message, and unknown fields ----------

  /** A zero byte where a key should stand ends the message, whatever follows. */
  lemma ZeroKeyEnds(t: seq<Field>, a: seq<byte>, b: seq<byte>, s: seq<Slot>, st: DState)
    requires |s| == |t| && WholeFields(t, a, Start(DefaultStruct(t, s)), st)
    ensures DecodeMessage(t, a + ([0] + b), s) == DecodeMessage(t, a, s)
  {
    hide DecodeLoop;
    var st0 := Start(DefaultStruct(t, s));
    Compose(t, a, [0] + b, st0, st);
    ZeroKey(t, b, st);
  }

  lemma ZeroKey(t: seq<Field>, b: seq<byte>, st: DState)
    requires Consistent(t, st)
    ensures DecodeLoop(t, [0] + b, st) == Done(st, b, true)
  {
    hide DecodeTagged;
    assert ([0] + b)[1..] == b;
    assert DecodeTag([0] + b) == TagStop(b);
  }

  /** An unknown field without a payload of its type, groups among them: the message is refused. */
  lemma UnknownRefused(t: seq<Field>, a: seq<byte>, u: seq<byte>, s: seq<Slot>, st: DState)
    requires |s| == |t| && WholeFields(t, a, Start(DefaultStruct(t, s)), st)
    requires DecodeTag(u).TagGot? && DecodeTag(u).tag != 0 && Unlisted(t, DecodeTag(u).tag)
    requires forall n | 0 <= n <= |DecodeTag(u).rest| :: !IsPayload(DecodeTag(u).wireType, DecodeTag(u).rest[..n])
    ensures DecodeMessage(t, a + u, s) == None
  {
    hide DecodeLoop, SkipField, IsPayload, FindField, DecodeTag;
    var st0 := Start(DefaultStruct(t, s));
    Compose(t, a, u, st0, st);
    var wireType, rest := DecodeTag(u).wireType, DecodeTag(u).rest;
    if SkipField(wireType, rest).Got? { SkippedIsPayload(wireType, rest); }
    assert DecodeOne(t, u, st) == Error;
    LoopFails(t, u, st);
  }

  lemma LoopFails(t: seq<Field>, bs: seq<byte>, st: DState)
    requires Consistent(t, st) && DecodeOne(t, bs, st) == Error
    ensures bs != [] ==> DecodeLoop(t, bs, st) == Error
  {
    hide DecodeOne;
  }

  // ---------- fields that come twice ----------

  /** A single scalar, from any state: its value and its mark. */
  lemma ScalarStored(t: seq<Field>, j: nat, w: Value, rest: seq<byte>, st: DState)
    requires WellFormedTable(t) && Consistent(t, st) && j < |t| && !t[j].htype.REPEATED? && Packable(t[j].ltype)
    requires TypedValue(t[j], w) && |st.slots[SlotOf(t, j)].items| == 1
    ensures EncodeItem(t[j], w).Some?
    ensures var k, index := SlotOf(t, j), RequiredIndex(t, j);
      DecodeField(t, j, WireType(t[j].ltype), EncodeItem(t[j], w).value + rest, st) ==
        Done(st.(
               pos := j, seen := if t[j].htype.REQUIRED? && index < 64 then st.seen + {index} else st.seen,
               slots := st.slots[k := Slot(SizeCell(t[j], st.slots[k]), [w])]), rest, false)
  {
    hide WellFormedTable, WellFormedField, TypedValue, EncodeItem, DecodeItem, RequiredIndex;
    var f, sl := t[j], st.slots[SlotOf(t, j)];
    assert WellFormedField(f) by { FieldOf(t, j); }
    ScalarRoundTrip(f, w, sl.items[0], rest);
    assert Destination(f, sl) == sl.items[0];
  }

  lemma FieldOf(t: seq<Field>, j: nat)
    requires WellFormedTable(t) && j < |t|
    ensures WellFormedField(t[j]) && WireType(t[j].ltype) < 8
  {
  }

  /**
   A scalar that comes twice, or two members of a oneof: what came first is
   forgotten, and the rest is read as if it had not been there.
   */
  lemma LastWins(t: seq<Field>, i: nat, j: nat, v: Value, w: Value, rest: seq<byte>, st: DState)
    requires WellFormedTable(t) && Consistent(t, st) && i < |t| && j < |t| && SlotOf(t, i) == SlotOf(t, j)
    requires !t[i].htype.REPEATED? && Packable(t[i].ltype) && TypedValue(t[i], v)
    requires !t[j].htype.REPEATED? && Packable(t[j].ltype) && TypedValue(t[j], w)
    requires |st.slots[SlotOf(t, j)].items| == 1 && EncodeItem(t[i], v).Some? && EncodeItem(t[j], w).Some?
    ensures var second := FieldTag(t[j]) + (EncodeItem(t[j], w).value + rest);
      DecodeLoop(t, FieldTag(t[i]) + (EncodeItem(t[i], v).value + second), st) == DecodeLoop(t, second, st)
  {
    var k := SlotOf(t, j);
    FieldOf(t, i);
    FieldOf(t, j);
    if i != j { SharedSlot(t, i, j); }
    hide DecodeLoop, DecodeField, TagBytes, EncodeItem, RequiredIndex, WellFormedTable, TypedValue, WireType;
    var second := FieldTag(t[j]) + (EncodeItem(t[j], w).value + rest);
    ScalarStored(t, i, v, second, st);
    LoopEnters(t, i, WireType(t[i].ltype), EncodeItem(t[i], v).value + second, st);
    var st1 := DecodeField(t, i, WireType(t[i].ltype), EncodeItem(t[i], v).value + second, st).st;
    ScalarStored(t, j, w, rest, st);
    ScalarStored(t, j, w, rest, st1);
    assert st1.slots[k := Slot(SizeCell(t[j], st1.slots[k]), [w])] == st.slots[k := Slot(SizeCell(t[j], st.slots[k]), [w])];
    LoopEnters(t, j, WireType(t[j].ltype), EncodeItem(t[j], w).value + rest, st);
    LoopEnters(t, j, WireType(t[j].ltype), EncodeItem(t[j], w).value + rest, st1);
  }

  /** The wire type of a listed field matters only for whether an array of scalars is packed. */
  lemma WireTypeIgnored(t: seq<Field>, j: nat, a: nat, b: nat, bs: seq<byte>, st: DState)
    requires Consistent(t, st) && j < |t| && (t[j].htype.REPEATED? && Packable(t[j].ltype) ==> (a == 2 <==> b == 2))
    ensures DecodeField(t, j, a, bs, st) == DecodeField(t, j, b, bs, st)
  {
    hide DecodeSlot, EnterField;
    forall sl: Slot, count: nat | |sl.items| == if t[j].htype.REPEATED? then t[j].arraySize else 1
      ensures DecodeSlot(t[j], a, bs, sl, count) == DecodeSlot(t[j], b, bs, sl, count)
    {
      SlotTypeIgnored(t[j], a, b, bs, sl, count);
    }
  }

  lemma SlotTypeIgnored(f: Field, a: nat, b: nat, bs: seq<byte>, sl: Slot, count: nat)
    requires f.htype.REPEATED? && Packable(f.ltype) ==> (a == 2 <==> b == 2)
    requires |sl.items| == if f.htype.REPEATED? then f.arraySize else 1
    ensures DecodeSlot(f, a, bs, sl, count) == DecodeSlot(f, b, bs, sl, count)
  {
    hide DecodeItem, DecodePacked, DecodePayload;
  }

  /**
   A submessage that comes empty: refused if something is required in it; a
   member of a oneof starts from its defaults, any other keeps what it had.
   */
  lemma EmptySubmessage(f: Field, sl: Slot, rest: seq<byte>)
    requires f.ltype.SUBMESSAGE? && !f.htype.REPEATED? && |sl.items| == 1 && sl.items[0].Msg? && |sl.items[0].slots| == |f.sub|
    ensures var r := DecodeSlot(f, 2, [0] + rest, sl, 0);
      if exists j :: 0 <= j < |f.sub| && f.sub[j].htype.REQUIRED? then r == Fail
      else
        && r.Got? && r.rest == rest && r.value.1 == 0
        && r.value.0.items == [if f.htype.ONEOF? then Msg(DefaultStruct(f.sub, ZeroStruct(f.sub))) else sl.items[0]]
        && r.value.0.size == (if f.htype.ONEOF? then f.tag else if f.htype.OPTIONAL? && f.sizeOffset != 0 then 1 else sl.size)
  {
    hide DecodeItem;
    EmptyRead(f, Destination(f, sl), rest);
  }

  /** What an empty payload makes of a submessage. */
  lemma EmptyRead(f: Field, prev: Value, rest: seq<byte>)
    requires f.ltype.SUBMESSAGE?
    ensures DecodeItem(f, [0] + rest, prev) ==
      if exists j :: 0 <= j < |f.sub| && f.sub[j].htype.REQUIRED? then Fail else Got(Msg(Prepared(f, prev)), rest)
  {
    hide DecodeItem, DecodeNoInit, Prepared;
    var none: seq<byte> := [];
    assert Prefixed(none) == [0];
    SubmessageRead(f, none, prev, rest);
    EmptyDecodes(f.sub, Prepared(f, prev));
  }

  lemma EmptyDecodes(t: seq<Field>, s: seq<Slot>)
    requires |s| == |t|
    ensures DecodeNoInit(t, [], s) == if exists j :: 0 <= j < |t| && t[j].htype.REQUIRED? then None else Some(s)
  {
    hide RequiredIndex;
    if exists j :: 0 <= j < |t| && t[j].htype.REQUIRED? {
      var j :| 0 <= j < |t| && t[j].htype.REQUIRED?;
      RequiredMonotone(t, j, |t|);
      assert 0 < RequiredIndex(t, |t|) && 0 !in Start(s).seen;
    } else {
      NoneRequired(t, |t|);
    }
  }

  lemma {:induction false} NoneRequired(t: seq<Field>, n: nat)
    requires n <= |t| && forall j | 0 <= j < |t| :: !t[j].htype.REQUIRED?
    ensures RequiredIndex(t, n) == 0
  {
    if n > 0 { NoneRequired(t, n - 1); }
  }

  /** A new entry of an array of submessages starts from its defaults. */
  lemma EmptyEntry(f: Field, prev: Value, rest: seq<byte>)
    requires f.ltype.SUBMESSAGE? && f.htype.REPEATED? && prev.Msg? && |prev.slots| == |f.sub|
    requires forall j | 0 <= j < |f.sub| :: !f.sub[j].htype.REQUIRED?
    ensures DecodeItem(f, [0] + rest, prev) == Got(Msg(DefaultStruct(f.sub, prev.slots)), rest)
  {
    hide DecodeItem;
    EmptyRead(f, prev, rest);
  }

  /** A field that is not in the message: its default, in whatever memory; a count, a flag or a choice is zero. */
  lemma AbsentIsDefault(t: seq<Field>, s: seq<Slot>, j: nat)
    requires |s| == |t| && j < |t| && forall i | 0 <= i < |t| :: !t[i].htype.REQUIRED?
    ensures DecodeMessage(t, [], s).Some?
    ensures var f, sl := t[j], DecodeMessage(t, [], s).value[j];
      && (f.htype.OPTIONAL? && !f.ltype.SUBMESSAGE? ==>
            && (f.sizeOffset != 0 ==> sl.size == 0)
            && (f.init.Some? ==> sl.items == [f.init.value])
            && (f.init.None? && Packable(f.ltype) ==> sl.items == [Int(0)])
            && (f.init.None? && f.ltype.STRING? ==> |sl.items| == 1 && sl.items[0].Str? && CString(sl.items[0].buf) == [])
            && (f.init.None? && f.ltype.BYTES? ==> |sl.items| == 1 && sl.items[0].Bytes? && sl.items[0].len == 0))
      && (f.htype.ONEOF? ==> sl.size == 0)
      && (f.htype.REPEATED? && f.sizeOffset != 0 ==> sl.size == 0 && sl.items == s[j].items)
  {
    hide DecodeNoInit, DefaultSlot;
    var d := DefaultStruct(t, s);
    EmptyDecodes(t, d);
    assert d[j] == DefaultSlot(t[j], s[j]);
    SlotAtDefault(t[j], s[j]);
  }

  lemma SlotAtDefault(f: Field, sl: Slot)
    ensures var r := DefaultSlot(f, sl);
      && (f.htype.OPTIONAL? && !f.ltype.SUBMESSAGE? ==>
            && (f.sizeOffset != 0 ==> r.size == 0)
            && r.items == [if f.init.Some? then f.init.value else ZeroValue(f)])
      && (f.htype.ONEOF? ==> r.size == 0)
      && (f.htype.REPEATED? && f.sizeOffset != 0 ==> r.size == 0 && r.items == sl.items)
    ensures Packable(f.ltype) ==> ZeroValue(f) == Int(0)
    ensures f.ltype.STRING? ==> ZeroValue(f).Str? && CString(ZeroValue(f).buf) == []
    ensures f.ltype.BYTES? ==> ZeroValue(f).Bytes? && ZeroValue(f).len == 0
  {
  }
}
