/**
 Arrays on the wire: one length-delimited record or a record for each entry, in
 any mixture, give the same entries; one entry too many is refused; an array of
 fixed count must be filled before another one is begun and before the end.
 */
module PbArrays {
  import opened Common
  import opened Bits
  import opened PbWire
  import opened PbSchema
  import opened PbEncodeSpec
  import opened PbDecodeSpec
  import opened PbRoundTrip
  import opened PbUnknown
  import opened PbEvolution

  function Put(items: seq<Value>, n: nat, vs: seq<Value>): (r: seq<Value>)
    requires n + |vs| <= |items|
    ensures |r| == |items|
  {
    items[..n] + vs + items[n + |vs|..]
  }

  lemma PutMore(items: seq<Value>, n: nat, vs: seq<Value>)
    requires vs != [] && n + |vs| <= |items|
    ensures items[n := vs[0]] == Put(items, n, [vs[0]])
    ensures Put(items[n := vs[0]], n + 1, vs[1..]) == Put(items, n, vs)
  {
    var a, b := Put(items[n := vs[0]], n + 1, vs[1..]), Put(items, n, vs);
    forall k | 0 <= k < |items| ensures a[k] == b[k] {}
  }

  /** Entry i is an array of scalars that the decoder has turned to. */
  ghost predicate Turned(t: seq<Field>, i: nat, st: DState) {
    && WellFormedTable(t) && Consistent(t, st) && i < |t| && t[i].htype.REPEATED? && Packable(t[i].ltype)
    && |st.slots[i].items| == t[i].arraySize && EnterField(t, i, st) == Some(st)
  }

  ghost predicate Entries(f: Field, vs: seq<Value>) {
    forall k | 0 <= k < |vs| :: TypedValue(f, vs[k])
  }

  /** With these entries added to those that are there. */
  ghost function WithEntries(t: seq<Field>, i: nat, st: DState, vs: seq<Value>): DState
    requires Turned(t, i, st) && EntryCount(t[i], st, i) + |vs| <= t[i].arraySize
  {
    var f, n := t[i], EntryCount(t[i], st, i) + |vs|;
    var items := Put(st.slots[i].items, EntryCount(t[i], st, i), vs);
    st.(slots := st.slots[i := Slot(if FixedCount(f) then st.slots[i].size else n, items)],
        fixedSize := if FixedCount(f) then n else st.fixedSize)
  }

  lemma TurnedFacts(t: seq<Field>, i: nat, st: DState)
    requires Turned(t, i, st)
    ensures Consistent(t, st) && i < |t| && |st.slots[i].items| == t[i].arraySize <= PB_SIZE_MAX
    ensures SlotOf(t, i) == i && WellFormedField(t[i]) && (FixedCount(t[i]) ==> st.fixedField == Some(i))
    ensures t[i].tag < 0x2000_0000 && WireType(t[i].ltype) != WT_STRING && WireType(t[i].ltype) < 8
  {
  }

  lemma StillTurned(t: seq<Field>, i: nat, st: DState, vs: seq<Value>)
    requires Turned(t, i, st) && EntryCount(t[i], st, i) + |vs| <= t[i].arraySize
    ensures Turned(t, i, WithEntries(t, i, st, vs))
    ensures EntryCount(t[i], WithEntries(t, i, st, vs), i) == EntryCount(t[i], st, i) + |vs|
  {
    hide WellFormedTable, RequiredIndex;
  }

  lemma MoreEntries(t: seq<Field>, i: nat, st: DState, vs: seq<Value>)
    requires Turned(t, i, st) && vs != [] && EntryCount(t[i], st, i) + |vs| <= t[i].arraySize
    ensures Turned(t, i, WithEntries(t, i, st, [vs[0]]))
    ensures EntryCount(t[i], WithEntries(t, i, st, [vs[0]]), i) == EntryCount(t[i], st, i) + 1
    ensures WithEntries(t, i, WithEntries(t, i, st, [vs[0]]), vs[1..]) == WithEntries(t, i, st, vs)
  {
    hide WellFormedTable, EnterField, Put;
    StillTurned(t, i, st, [vs[0]]);
    PutMore(st.slots[i].items, EntryCount(t[i], st, i), vs);
  }

  // ---------- one record for each entry ----------

  /** DecodeField on such an entry, in terms of DecodeRepeated alone. */
  lemma TurnedField(t: seq<Field>, i: nat, st: DState, wireType: nat, bs: seq<byte>)
    requires Turned(t, i, st)
    ensures DecodeField(t, i, wireType, bs, st) ==
      match DecodeRepeated(t[i], wireType, bs, st.slots[i], EntryCount(t[i], st, i))
      case Fail => Error
      case Got((sl, n), rest) =>
        Done(st.(slots := st.slots[i := sl], fixedSize := if FixedCount(t[i]) then n else st.fixedSize), rest, false)
  {
    hide WellFormedTable, EnterField, DecodeRepeated;
  }

  lemma OneEntry(t: seq<Field>, i: nat, st: DState, v: Value, rest: seq<byte>)
    requires Turned(t, i, st) && TypedValue(t[i], v)
    ensures EncodeItem(t[i], v).Some?
    ensures DecodeField(t, i, WireType(t[i].ltype), EncodeItem(t[i], v).value + rest, st) ==
      if EntryCount(t[i], st, i) < t[i].arraySize then Done(WithEntries(t, i, st, [v]), rest, false) else Error
  {
    hide WellFormedTable, EnterField, DecodeItem, EncodeItem, WellFormedField, TypedValue, Put;
    TurnedFacts(t, i, st);
    ScalarRoundTrip(t[i], v, v, rest);
    TurnedField(t, i, st, WireType(t[i].ltype), EncodeItem(t[i], v).value + rest);
    hide DecodeField;
    var n := EntryCount(t[i], st, i);
    if n < t[i].arraySize {
      ScalarRoundTrip(t[i], v, st.slots[i].items[n], rest);
      PutMore(st.slots[i].items, n, [v]);
      assert [[v][0]] == [v];
    }
  }

  lemma {:induction false} EachEntry(t: seq<Field>, i: nat, st: DState, vs: seq<Value>, rest: seq<byte>)
    requires Turned(t, i, st) && Entries(t[i], vs) && EncodeUnpacked(t[i], vs).Some? && vs != []
    ensures DecodeLoop(t, EncodeUnpacked(t[i], vs).value + rest, st) ==
      if EntryCount(t[i], st, i) + |vs| <= t[i].arraySize then DecodeLoop(t, rest, WithEntries(t, i, st, vs)) else Error
    decreases |vs|
  {
    hide DecodeLoop, DecodeField, EncodeItem, TypedValue, Turned, WithEntries, TagBytes, EnterField, WellFormedTable;
    TurnedFacts(t, i, st);
    var f, n := t[i], EntryCount(t[i], st, i);
    var b, more := EncodeItem(f, vs[0]).value, EncodeUnpacked(f, vs[1..]).value;
    OneEntry(t, i, st, vs[0], more + rest);
    assert EncodeUnpacked(f, vs).value + rest == FieldTag(f) + (b + (more + rest));
    EntersAt(t, i, WireType(f.ltype), b + (more + rest), st);
    if n < f.arraySize {
      if |vs| > 1 {
        EachOfMore(t, i, st, vs);
        EachEntry(t, i, WithEntries(t, i, st, [vs[0]]), vs[1..], rest);
      } else {
        assert vs == [vs[0]] && more + rest == rest;
      }
    }
  }

  lemma EachOfMore(t: seq<Field>, i: nat, st: DState, vs: seq<Value>)
    requires Turned(t, i, st) && vs != [] && EntryCount(t[i], st, i) < t[i].arraySize
    ensures var st1 := WithEntries(t, i, st, [vs[0]]);
      && Turned(t, i, st1) && EntryCount(t[i], st1, i) == EntryCount(t[i], st, i) + 1
      && (EntryCount(t[i], st, i) + |vs| <= t[i].arraySize ==> WithEntries(t, i, st1, vs[1..]) == WithEntries(t, i, st, vs))
  {
    hide WellFormedTable, EnterField, Put;
    StillTurned(t, i, st, [vs[0]]);
    if EntryCount(t[i], st, i) + |vs| <= t[i].arraySize { MoreEntries(t, i, st, vs); }
  }

  lemma EntersAt(t: seq<Field>, i: nat, wireType: nat, body: seq<byte>, st: DState)
    requires Turned(t, i, st) && wireType < 8
    ensures DecodeLoop(t, TagBytes(wireType, t[i].tag) + body, st) ==
      match DecodeField(t, i, wireType, body, st)
      case Error => Error
      case Done(st', rest, _) => DecodeLoop(t, rest, st')
  {
    hide DecodeLoop, DecodeField, TagBytes, EnterField;
    LoopEnters(t, i, wireType, body, st);
  }

  // ---------- one record for all ----------

  lemma {:induction false} AllPacked(f: Field, vs: seq<Value>, n: nat, items: seq<Value>)
    requires WellFormedField(f) && Packable(f.ltype) && Entries(f, vs) && |items| == f.arraySize && n <= f.arraySize
    ensures EncodePacked(f, vs).Some?
    ensures DecodePacked(f, EncodePacked(f, vs).value, items, n) ==
      if n + |vs| <= f.arraySize then Some((Put(items, n, vs), n + |vs|)) else None
    decreases |vs|
  {
    hide DecodeItem, EncodeItem, TypedValue, WellFormedField, Put;
    if vs == [] {
      PutNothing(items, n);
    } else {
      if n < f.arraySize {
        AllPacked(f, vs[1..], n + 1, items[n := vs[0]]);
        ScalarRoundTrip(f, vs[0], items[n], EncodePacked(f, vs[1..]).value);
        if n + |vs| <= f.arraySize { PutMore(items, n, vs); }
      } else {
        PackedNonempty(f, vs);
      }
    }
  }

  lemma PutNothing(items: seq<Value>, n: nat)
    requires n <= |items|
    ensures Put(items, n, []) == items
  {
  }

  lemma {:induction false} PackedNonempty(f: Field, vs: seq<Value>)
    requires WellFormedField(f) && Packable(f.ltype) && Entries(f, vs) && vs != []
    ensures EncodePacked(f, vs).Some? && EncodePacked(f, vs).value != []
  {
    hide EncodeItem, DecodeItem, TypedValue, WellFormedField;
    ScalarRoundTrip(f, vs[0], vs[0], []);
    if |vs| > 1 { PackedNonempty(f, vs[1..]); }
  }

  lemma OneRecord(t: seq<Field>, i: nat, st: DState, vs: seq<Value>, rest: seq<byte>)
    requires Turned(t, i, st) && Entries(t[i], vs) && EncodePacked(t[i], vs).Some? && |EncodePacked(t[i], vs).value| < TWO32
    requires EntryCount(t[i], st, i) <= t[i].arraySize
    ensures DecodeField(t, i, WT_STRING, Prefixed(EncodePacked(t[i], vs).value) + rest, st) ==
      if EntryCount(t[i], st, i) + |vs| <= t[i].arraySize then Done(WithEntries(t, i, st, vs), rest, false) else Error
  {
    hide WellFormedTable, EnterField, DecodePacked, EncodePacked, WellFormedField, TypedValue, Put, Prefixed, DecodePayload;
    TurnedFacts(t, i, st);
    TurnedField(t, i, st, WT_STRING, Prefixed(EncodePacked(t[i], vs).value) + rest);
    hide DecodeField;
    AllPacked(t[i], vs, EntryCount(t[i], st, i), st.slots[i].items);
    PayloadRoundTrip(EncodePacked(t[i], vs).value, rest);
  }

  /** Turning to the array is all that happens before its first entry. */
  lemma Turns(t: seq<Field>, i: nat, st0: DState, st: DState, wireType: nat, body: seq<byte>)
    requires WellFormedTable(t) && Consistent(t, st0) && i < |t| && t[i].htype.REPEATED? && EnterField(t, i, st0) == Some(st) && wireType < 8
    ensures Consistent(t, st) && EnterField(t, i, st) == Some(st) && st.slots == st0.slots && st.seen == st0.seen
    ensures DecodeLoop(t, TagBytes(wireType, t[i].tag) + body, st0) == DecodeLoop(t, TagBytes(wireType, t[i].tag) + body, st)
  {
    TurnsField(t, i, st0, st, wireType, body);
    hide DecodeLoop, DecodeField, TagBytes, WellFormedTable, EnterField;
    LoopEnters(t, i, wireType, body, st0);
    LoopEnters(t, i, wireType, body, st);
  }

  lemma TurnsField(t: seq<Field>, i: nat, st0: DState, st: DState, wireType: nat, body: seq<byte>)
    requires Consistent(t, st0) && i < |t| && t[i].htype.REPEATED? && EnterField(t, i, st0) == Some(st)
    ensures Consistent(t, st) && EnterField(t, i, st) == Some(st) && st.slots == st0.slots && st.seen == st0.seen
    ensures DecodeField(t, i, wireType, body, st0) == DecodeField(t, i, wireType, body, st)
  {
    hide DecodeSlot, RequiredIndex;
  }

  /**
   Entries of a scalar array in one packed record or in a record each: the
   decoder takes them either way, behind those that are there, unless there are
   more than the array holds.
   */
  lemma PackedOrNot(t: seq<Field>, i: nat, st0: DState, st: DState, vs: seq<Value>, rest: seq<byte>)
    requires Consistent(t, st0) && i < |t| && EnterField(t, i, st0) == Some(st)
    requires Turned(t, i, st) && Entries(t[i], vs) && vs != [] && EntryCount(t[i], st, i) <= t[i].arraySize
    requires EncodePacked(t[i], vs).Some? && |EncodePacked(t[i], vs).value| < TWO32 && EncodeUnpacked(t[i], vs).Some?
    ensures var packed := TagBytes(WT_STRING, t[i].tag) + (Prefixed(EncodePacked(t[i], vs).value) + rest);
      DecodeLoop(t, packed, st0) == DecodeLoop(t, EncodeUnpacked(t[i], vs).value + rest, st0) ==
        if EntryCount(t[i], st, i) + |vs| <= t[i].arraySize then DecodeLoop(t, rest, WithEntries(t, i, st, vs)) else Error
  {
    hide DecodeLoop, DecodeField, EncodePacked, TypedValue, WithEntries, TagBytes, Prefixed, EnterField, WellFormedTable;
    TurnedFacts(t, i, st);
    var f := t[i];
    var body := Prefixed(EncodePacked(f, vs).value) + rest;
    EachEntry(t, i, st, vs, rest);
    OneRecord(t, i, st, vs, rest);
    EntersAt(t, i, WT_STRING, body, st);
    Turns(t, i, st0, st, WT_STRING, body);
    var each := EncodeItem(f, vs[0]).value + (EncodeUnpacked(f, vs[1..]).value + rest);
    assert EncodeUnpacked(f, vs).value + rest == FieldTag(f) + each;
    Turns(t, i, st0, st, WireType(f.ltype), each);
  }

  // ---------- arrays of fixed count ----------

  /** A message that ends with entries of an array of fixed count is accepted exactly when they fill it, and it would be without them. */
  lemma FixedCountWhole(t: seq<Field>, i: nat, a: seq<byte>, d: seq<Slot>, st0: DState, vs: seq<Value>)
    requires WellFormedTable(t) && |d| == |t| && WholeFields(t, a, Start(d), st0) && Consistent(t, st0) && st0.fixedField.None?
    requires i < |t| && FixedCount(t[i]) && Packable(t[i].ltype) && |st0.slots[i].items| == t[i].arraySize
    requires vs != [] && Entries(t[i], vs) && EncodePacked(t[i], vs).Some? && |EncodePacked(t[i], vs).value| < TWO32
    ensures var record := TagBytes(WT_STRING, t[i].tag) + Prefixed(EncodePacked(t[i], vs).value);
      DecodeNoInit(t, a + record, d).Some? <==> |vs| == t[i].arraySize && DecodeNoInit(t, a, d).Some?
  {
    var st := st0.(fixedField := Some(i), fixedSize := 0, pos := i);
    assert EnterField(t, i, st0) == Some(st);
    assert Turned(t, i, st);
    hide DecodeLoop, DecodeField, EncodePacked, TypedValue, TagBytes, Prefixed, EnterField, WellFormedTable, RequiredIndex;
    var body := Prefixed(EncodePacked(t[i], vs).value);
    var record := TagBytes(WT_STRING, t[i].tag) + body;
    Compose(t, a, record, Start(d), st0);
    Turns(t, i, st0, st, WT_STRING, body);
    EntersAt(t, i, WT_STRING, body, st);
    assert body + [] == body;
    OneRecord(t, i, st, vs, []);
    if |vs| <= t[i].arraySize {
      StillTurned(t, i, st, vs);
      NoFields(t, WithEntries(t, i, st, vs));
    }
  }

  /** While an array of fixed count is not full, another one is refused. */
  lemma FixedCountInterrupted(t: seq<Field>, i: nat, j: nat, wireType: nat, body: seq<byte>, st: DState)
    requires WellFormedTable(t) && Consistent(t, st) && i < |t| && j < |t| && i != j && wireType < 8
    requires st.fixedField == Some(i) && st.fixedSize != t[i].arraySize && FixedCount(t[j])
    ensures DecodeLoop(t, TagBytes(wireType, t[j].tag) + body, st) == Error
  {
    assert DecodeField(t, j, wireType, body, st) == Error;
    hide DecodeLoop, DecodeField, TagBytes, WellFormedTable;
    LoopEnters(t, j, wireType, body, st);
  }
}
