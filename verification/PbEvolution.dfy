/**
 Fields that the reader's table does not have: what skipping takes, that what
 the encoder writes for a field is skipped whole by a table without it, and
 that a message is read as well by a table from which fields were removed.
 */
module PbEvolution {
  import opened Common
  import opened Bits
  import opened PbWire
  import opened PbSchema
  import opened PbEncodeSpec
  import opened PbDecodeSpec
  import opened PbDefaults
  import opened PbForm
  import opened PbRoundTrip
  import opened PbUnknown

  // ---------- what is skipped ----------

  /** A payload by its wire type: bytes up to the first whose top bit is clear, eight bytes, a length and that many, four bytes. */
  predicate IsPayload(wireType: nat, p: seq<byte>) {
    || (wireType == 0 && p != [] && Stop(p) == |p| - 1)
    || (wireType == 1 && |p| == 8)
    || (wireType == 2 && Varint32(p).Got? && |Varint32(p).rest| == Varint32(p).value)
    || (wireType == 5 && |p| == 4)
  }

  lemma {:induction false} SkipVarintIs(bs: seq<byte>)
    ensures SkipVarint(bs) == if Stop(bs) < |bs| then Got((), bs[Stop(bs) + 1..]) else Fail
  {
    if bs != [] && bs[0] >= 128 { SkipVarintIs(bs[1..]); }
  }

  lemma {:induction false} StopBefore(p: seq<byte>, rest: seq<byte>)
    requires Stop(p) < |p|
    ensures Stop(p + rest) == Stop(p)
  {
    assert (p + rest)[1..] == p[1..] + rest;
    if p[0] >= 128 { StopBefore(p[1..], rest); }
  }

  lemma {:induction false} StopWithin(bs: seq<byte>, n: nat)
    requires Stop(bs) < n <= |bs|
    ensures Stop(bs[..n]) == Stop(bs)
  {
    assert bs[..n][1..] == bs[1..][..n - 1];
    if bs[0] >= 128 { StopWithin(bs[1..], n - 1); }
  }

  /** A payload is skipped whole, and nothing after it. */
  lemma PayloadSkipped(wireType: nat, p: seq<byte>, rest: seq<byte>)
    requires IsPayload(wireType, p)
    ensures SkipField(wireType, p + rest) == Got((), rest)
  {
    hide Varint32, Stop, SkipVarint;
    SkipLocal(wireType, p, rest);
    SkipVarintIs(p);
    assert [] + rest == rest;
  }

  lemma {:induction false} Varint32FromShrinks(bs: seq<byte>, n: nat, bitpos: nat, acc: nat)
    requires n <= |bs| && Varint32From(bs, bitpos, acc).Got? && |Varint32From(bs, bitpos, acc).rest| >= |bs| - n
    ensures Varint32From(bs[..n], bitpos, acc).Got?
    decreases |bs|
  {
    hide Varint32Step, NextBitpos;
    assert n > 0;
    assert bs[..n][1..] == bs[1..][..n - 1];
    var step := Varint32Step(bs[0], bitpos, acc);
    if bs[0] >= 128 { Varint32FromShrinks(bs[1..], n - 1, NextBitpos(bitpos), step.value); }
  }

  lemma Varint32Shrinks(bs: seq<byte>, n: nat)
    requires n <= |bs| && Varint32(bs).Got? && |Varint32(bs).rest| >= |bs| - n
    ensures Varint32(bs[..n]).Got? && Varint32(bs[..n]).value == Varint32(bs).value
    ensures |Varint32(bs[..n]).rest| == |Varint32(bs).rest| - (|bs| - n)
  {
    hide Varint32From;
    assert bs[..n][1..] == bs[1..][..n - 1];
    if bs[0] >= 128 { Varint32FromShrinks(bs[1..], n - 1, 7, Low7(bs[0])); }
    Varint32Local(bs[..n], bs[n..]);
    assert bs[..n] + bs[n..] == bs;
  }

  /** Nothing else is skipped: groups, unknown types and payloads cut short are refused. */
  lemma SkippedIsPayload(wireType: nat, bs: seq<byte>)
    requires SkipField(wireType, bs).Got?
    ensures IsPayload(wireType, bs[..|bs| - |SkipField(wireType, bs).rest|])
  {
    hide Varint32, Stop, SkipVarint;
    var n := |bs| - |SkipField(wireType, bs).rest|;
    SkipVarintIs(bs);
    if wireType == 0 {
      StopWithin(bs, n);
    } else if wireType == 2 {
      Varint32Shrinks(bs, n);
    }
  }

  // ---------- what is written is skipped ----------

  lemma {:induction false} VarintStops(v: nat)
    ensures Stop(VarintBytes(v)) == |VarintBytes(v)| - 1
  {
    if v > 0x7F { VarintStops(v / 128); }
  }

  lemma PrefixedIsPayload(payload: seq<byte>)
    requires |payload| < TWO32
    ensures IsPayload(2, Prefixed(payload))
  {
    hide Varint32, VarintBytes;
    SmallModulo(|payload|, TWO64);
    Varint32RoundTrip(|payload|, payload);
  }

  lemma ItemIsPayload(f: Field, v: Value)
    requires TypedValue(f, v) && FitsValue(f, v) && EncodeItem(f, v).Some?
    ensures IsPayload(TypeNumber(f.ltype), EncodeItem(f, v).value)
  {
    hide Varint32, VarintBytes, Stop, Prefixed, EncodeMessage;
    match f.ltype
    case VARINT | UVARINT => VarintStops(AsUnsigned64(v.n));
    case SVARINT => VarintStops(ZigZag(v.n));
    case FIXED32 | FIXED64 =>
    case BYTES => PrefixedIsPayload(v.buf[..v.len]);
    case STRING => PrefixedIsPayload(CString(v.buf));
    case FIXED_LENGTH_BYTES => PrefixedIsPayload(v.buf);
    case SUBMESSAGE => PrefixedIsPayload(EncodeMessage(f.sub, v.slots).value);
  }

  ghost predicate Unlisted(t: seq<Field>, tag: nat) {
    forall j | 0 <= j < |t| :: t[j].tag != tag
  }

  /** A key that is not listed and a payload of its type are whole fields that change nothing. */
  lemma RecordSkipped(t: seq<Field>, wireType: nat, tag: nat, p: seq<byte>, st: DState)
    requires wireType < 8 && 0 < tag < 0x2000_0000 && Unlisted(t, tag) && IsPayload(wireType, p) && Consistent(t, st)
    ensures WholeFields(t, TagBytes(wireType, tag) + p, st, st)
  {
    hide IsPayload, TagBytes, SkipField, DecodeTag;
    TagRoundTrip(wireType, tag, p);
    PayloadSkipped(wireType, p, []);
    assert p + [] == p;
    UnknownSkipped(t, TagBytes(wireType, tag) + p, st);
  }

  lemma {:induction false} UnpackedSkipped(t: seq<Field>, f: Field, vs: seq<Value>, st: DState)
    requires 0 < f.tag < 0x2000_0000 && Unlisted(t, f.tag) && Consistent(t, st)
    requires (forall k | 0 <= k < |vs| :: TypedValue(f, vs[k]) && FitsValue(f, vs[k])) && EncodeUnpacked(f, vs).Some?
    ensures WholeFields(t, EncodeUnpacked(f, vs).value, st, st)
    decreases |vs|
  {
    hide DecodeLoop, IsPayload, TagBytes, EncodeItem;
    if vs == [] {
      NoFields(t, st);
    } else {
      var head, rest := FieldTag(f) + EncodeItem(f, vs[0]).value, EncodeUnpacked(f, vs[1..]).value;
      ItemIsPayload(f, vs[0]);
      RecordSkipped(t, TypeNumber(f.ltype), f.tag, EncodeItem(f, vs[0]).value, st);
      UnpackedSkipped(t, f, vs[1..], st);
      Compose(t, head, rest, st, st);
    }
  }

  lemma NoFields(t: seq<Field>, st: DState)
    requires Consistent(t, st)
    ensures WholeFields(t, [], st, st)
  {
  }

  /** What is written for a field that the table does not have is whole fields to it, and changes nothing. */
  lemma EncodedIsSkipped(t: seq<Field>, f: Field, sl: Slot, st: DState)
    requires WellFormedField(f) && Unlisted(t, f.tag) && Consistent(t, st)
    requires TypedSlot(f, sl) && FitsSlot(f, sl) && EncodeField(f, sl).Some?
    ensures WholeFields(t, EncodeField(f, sl).value, st, st)
  {
    hide DecodeLoop, IsPayload, TagBytes, EncodeItem, EncodePacked, EncodeUnpacked, Prefixed, WholeFields, Proto3Default;
    NoFields(t, st);
    if f.htype.REPEATED? {
      var n := Count(f, sl);
      var w := Written(f, sl);
      WrittenTyped(f, sl);
      if n == 0 {
      } else if Packable(f.ltype) {
        PackedWritten(f, sl);
        PrefixedIsPayload(EncodePacked(f, sl.items[..n]).value);
        RecordSkipped(t, 2, f.tag, Prefixed(EncodePacked(f, sl.items[..n]).value), st);
      } else {
        assert w == sl.items[..n];
        UnpackedSkipped(t, f, w, st);
      }
    } else if Present(f, sl) {
      SingleWritten(f, sl);
      ItemIsPayload(f, sl.items[0]);
      RecordSkipped(t, TypeNumber(f.ltype), f.tag, EncodeItem(f, sl.items[0]).value, st);
    }
  }

  // ---------- a table from which fields were removed ----------

  /** The same field; in a oneof of which members were removed another member may lead. */
  predicate Alike(g: Field, f: Field) {
    g == f.(htype := g.htype) && if f.htype.ONEOF? then g.htype.ONEOF? else g.htype == f.htype
  }

  /** Table `r` has entries `e` of table `t`, in order, and `q` has their slots of `s`. */
  ghost predicate Remains(t: seq<Field>, s: seq<Slot>, r: seq<Field>, q: seq<Slot>, e: seq<nat>) {
    && |e| == |r| == |q| && |s| == |t|
    && (forall i, j | 0 <= i < j < |e| :: e[i] < e[j])
    && (forall j | 0 <= j < |e| :: e[j] < |t| && Alike(r[j], t[e[j]]) && q[SlotOf(r, j)] == s[SlotOf(t, e[j])])
  }

  lemma {:induction false} PackedAlike(g: Field, f: Field, vs: seq<Value>)
    requires Alike(g, f) && forall k | 0 <= k < |vs| :: TypedValue(f, vs[k])
    ensures forall k | 0 <= k < |vs| :: TypedValue(g, vs[k])
    ensures EncodePacked(g, vs) == EncodePacked(f, vs) && EncodeUnpacked(g, vs) == EncodeUnpacked(f, vs)
    decreases |vs|
  {
    hide TagBytes, Prefixed, EncodeMessage, VarintBytes, LittleEndian;
    assert forall k | 0 <= k < |vs| :: TypedValue(f, vs[k]) == TypedValue(g, vs[k]);
    if vs != [] { PackedAlike(g, f, vs[1..]); }
  }

  lemma FieldAlike(g: Field, f: Field, sl: Slot)
    requires Alike(g, f) && TypedSlot(f, sl)
    ensures TypedSlot(g, sl) && EncodeField(g, sl) == EncodeField(f, sl)
  {
    hide TagBytes, Prefixed, EncodeMessage, VarintBytes, LittleEndian, Proto3DefaultStruct;
    assert forall v :: TypedValue(f, v) == TypedValue(g, v);
    if f.htype.REPEATED? {
      PackedAlike(g, f, sl.items);
      if Count(f, sl) <= |sl.items| { PackedAlike(g, f, sl.items[..Count(f, sl)]); }
    }
  }

  /** Everything that was written for entry i of a table, in front of `suffix`. */
  lemma {:induction false} EntryRead(t: seq<Field>, s: seq<Slot>, d: seq<Slot>, i: nat, suffix: seq<byte>, st: DState) returns (st': DState)
    requires WellFormedTable(t) && TypedStruct(t, s) && FitsStruct(t, s) && i < |t| == |d|
    requires ReadUpTo(t, s, d, i, st) && TypedSlot(t[i], s[SlotOf(t, i)]) && EncodeField(t[i], s[SlotOf(t, i)]).Some?
    ensures StepsOver(t, s, d, i, TerminatedSlot(t[i], s[SlotOf(t, i)]), EncodeField(t[i], s[SlotOf(t, i)]).value + suffix, suffix, st, st')
  {
    hide DecodeOne, DecodeField, WellFormedTable, EncodeField, Present, Halfway, TypedSlot, TerminatedSlot, FitsSlot, DecodeLoop;
    var f, sl := t[i], s[SlotOf(t, i)];
    st' := st;
    if f.htype.REPEATED? {
      assert SlotOf(t, i) == i;
      st' := RepeatedStep(t, s, d, i, suffix, st);
    } else if Present(f, sl) {
      st' := SingleStep(t, s, d, i, suffix, st);
    } else {
      AbsentStep(t, s, d, i, st);
      AbsentWritten(f, sl);
      assert EncodeField(f, sl).value + suffix == suffix;
    }
  }

  /** What follows an entry does not matter to how it is read. */
  lemma EntryThen(t: seq<Field>, s: seq<Slot>, d: seq<Slot>, i: nat, x: seq<byte>, y: seq<byte>, st: DState) returns (st': DState)
    requires WellFormedTable(t) && TypedStruct(t, s) && FitsStruct(t, s) && i < |t| == |d|
    requires ReadUpTo(t, s, d, i, st) && TypedSlot(t[i], s[SlotOf(t, i)]) && EncodeField(t[i], s[SlotOf(t, i)]).Some?
    ensures var b := EncodeField(t[i], s[SlotOf(t, i)]).value;
      if TerminatedSlot(t[i], s[SlotOf(t, i)])
      then
        && ReadUpTo(t, s, d, i + 1, st')
        && DecodeLoop(t, b + x, st) == DecodeLoop(t, x, st') && DecodeLoop(t, b + y, st) == DecodeLoop(t, y, st')
      else DecodeLoop(t, b + x, st) == Error == DecodeLoop(t, b + y, st)
  {
    hide DecodeLoop, EncodeField, TerminatedSlot, WellFormedTable, Halfway, Settled;
    var b := EncodeField(t[i], s[SlotOf(t, i)]).value;
    if TerminatedSlot(t[i], s[SlotOf(t, i)]) {
      st' := EntryRead(t, s, d, i, [], st);
      assert b + [] == b;
      ReadIsConsistent(t, s, d, i, st);
      ReadIsConsistent(t, s, d, i + 1, st');
      NoFields(t, st');
      Compose(t, b, x, st, st');
      Compose(t, b, y, st, st');
    } else {
      st' := EntryRead(t, s, d, i, x, st);
      st' := EntryRead(t, s, d, i, y, st);
    }
  }

  lemma ReadIsConsistent(t: seq<Field>, s: seq<Slot>, d: seq<Slot>, i: nat, st: DState)
    requires i <= |t| == |s| == |d| && ReadUpTo(t, s, d, i, st)
    ensures Consistent(t, st)
  {
  }

  /** Up to entry k of the one table there are the first j entries of the other. */
  ghost predicate Between(e: seq<nat>, k: nat, j: nat) {
    forall i | 0 <= i < |e| :: i < j <==> e[i] < k
  }

  lemma AllPassed(e: seq<nat>, k: nat, j: nat)
    requires Between(e, k, j) && j <= |e| && forall i | 0 <= i < |e| :: e[i] < k
    ensures j == |e|
  {
    if e != [] { assert e[|e| - 1] < k; }
  }

  lemma NotShared(t: seq<Field>, r: seq<Field>, e: seq<nat>, k: nat, j: nat)
    requires UniqueTags(t) && k < |t| && |e| == |r| && (forall i | 0 <= i < |e| :: e[i] < |t| && Alike(r[i], t[e[i]]))
    requires Between(e, k, j) && (forall i, m | 0 <= i < m < |e| :: e[i] < e[m]) && !(j < |r| && e[j] == k)
    ensures Unlisted(r, t[k].tag) && Between(e, k + 1, j)
  {
    forall i | 0 <= i < |e| ensures e[i] != k { assert j < i ==> e[j] < e[i]; }
  }

  lemma SharedStep(t: seq<Field>, s: seq<Slot>, r: seq<Field>, q: seq<Slot>, e: seq<nat>, k: nat, j: nat)
    requires Remains(t, s, r, q, e) && Between(e, k, j) && j < |r| && e[j] == k && TypedStruct(t, s)
    ensures k < |t| && SlotOf(t, k) < |s| && SlotOf(r, j) < |q| && Between(e, k + 1, j + 1)
    ensures TypedSlot(t[k], s[SlotOf(t, k)]) && TypedSlot(r[j], q[SlotOf(r, j)])
    ensures EncodeField(r[j], q[SlotOf(r, j)]) == EncodeField(t[k], s[SlotOf(t, k)])
  {
    hide EncodeField, TypedSlot;
    FieldAlike(r[j], t[k], s[SlotOf(t, k)]);
  }

  lemma {:induction false} RemainsEncodes(t: seq<Field>, s: seq<Slot>, r: seq<Field>, q: seq<Slot>, e: seq<nat>, k: nat, j: nat)
    requires UniqueTags(t) && TypedStruct(t, s) && k <= |t| && EncodeFrom(t, s, k).Some?
    requires TypedStruct(r, q) && j <= |r| && Remains(t, s, r, q, e) && Between(e, k, j)
    ensures EncodeFrom(r, q, j).Some?
    decreases |t| - k
  {
    hide EncodeField, TypedSlot, Alike, UniqueTags;
    if k < |t| {
      if j < |r| && e[j] == k {
        SharedStep(t, s, r, q, e, k, j);
        RemainsEncodes(t, s, r, q, e, k + 1, j + 1);
      } else {
        NotShared(t, r, e, k, j);
        RemainsEncodes(t, s, r, q, e, k + 1, j);
      }
    }
  }

  lemma EncodeNext(t: seq<Field>, s: seq<Slot>, k: nat)
    requires TypedStruct(t, s) && k < |t| && EncodeFrom(t, s, k).Some?
    ensures TypedSlot(t[k], s[SlotOf(t, k)]) && EncodeField(t[k], s[SlotOf(t, k)]).Some? && EncodeFrom(t, s, k + 1).Some?
    ensures EncodeFrom(t, s, k).value == EncodeField(t[k], s[SlotOf(t, k)]).value + EncodeFrom(t, s, k + 1).value
  {
    hide EncodeField, TypedSlot;
  }

  /** From entry k of the one table and entry j of the other on. */
  lemma {:induction false} RemainsFrom(
    t: seq<Field>, s: seq<Slot>, r: seq<Field>, q: seq<Slot>, e: seq<nat>, d: seq<Slot>, k: nat, j: nat, st: DState)
    requires WellFormedTable(t) && TypedStruct(t, s) && FitsStruct(t, s) && k <= |t| && EncodeFrom(t, s, k).Some?
    requires WellFormedTable(r) && TypedStruct(r, q) && FitsStruct(r, q) && j <= |r| == |d| && ReadUpTo(r, q, d, j, st)
    requires Remains(t, s, r, q, e) && Between(e, k, j)
    ensures EncodeFrom(r, q, j).Some?
    ensures DecodeLoop(r, EncodeFrom(t, s, k).value, st) == DecodeLoop(r, EncodeFrom(r, q, j).value, st)
    decreases |t| - k
  {
    hide DecodeLoop, EncodeField, EncodeFrom, TerminatedSlot, WellFormedField, ReadUpTo, TypedSlot, FitsSlot, Alike, UniqueTags, Consistent;
    RemainsEncodes(t, s, r, q, e, k, j);
    if k == |t| {
      AllPassed(e, k, j);
      NothingWritten(t, s);
      NothingWritten(r, q);
    } else {
      EncodeNext(t, s, k);
      var b, rest := EncodeField(t[k], s[SlotOf(t, k)]).value, EncodeFrom(t, s, k + 1).value;
      if j < |r| && e[j] == k {
        SharedStep(t, s, r, q, e, k, j);
        EncodeNext(r, q, j);
        var st' := EntryThen(r, q, d, j, rest, EncodeFrom(r, q, j + 1).value, st);
        if TerminatedSlot(r[j], q[SlotOf(r, j)]) { RemainsFrom(t, s, r, q, e, d, k + 1, j + 1, st'); }
      } else {
        NotShared(t, r, e, k, j);
        ReadIsConsistent(r, q, d, j, st);
        assert FitsSlot(t[k], s[SlotOf(t, k)]) && WellFormedField(t[k]);
        EncodedIsSkipped(r, t[k], s[SlotOf(t, k)], st);
        Compose(r, b, rest, st, st);
        RemainsFrom(t, s, r, q, e, d, k + 1, j, st);
      }
    }
  }

  lemma NothingWritten(t: seq<Field>, s: seq<Slot>)
    requires TypedStruct(t, s)
    ensures EncodeFrom(t, s, |t|) == Some([])
  {
  }

  /**
   A message written by one table and read by the same table with any entries
   removed, into a struct with any previous contents: what is read is exactly
   what would be read had the removed fields never been written. It succeeds
   exactly when the strings of the remaining fields are NUL-terminated, and then
   the remaining fields are those of the message, where they are kept.
   */
  lemma FieldsRemoved(t: seq<Field>, s: seq<Slot>, r: seq<Field>, q: seq<Slot>, e: seq<nat>, dest: seq<Slot>)
    requires WellFormedTable(t) && TypedStruct(t, s) && FitsStruct(t, s) && EncodeMessage(t, s).Some?
    requires WellFormedTable(r) && TypedStruct(r, q) && FitsStruct(r, q) && TypedStruct(r, dest)
    requires Remains(t, s, r, q, e)
    ensures EncodeMessage(r, q).Some?
    ensures DecodeMessage(r, EncodeMessage(t, s).value, dest) == DecodeMessage(r, EncodeMessage(r, q).value, dest)
    ensures var m := DecodeMessage(r, EncodeMessage(t, s).value, dest);
      if TerminatedStruct(r, q)
      then m.Some? && TypedStruct(r, m.value) && (SameMessage(r, q, m.value) <==> Kept(r, q, DefaultStruct(r, dest)))
      else m.None?
  {
    hide DecodeLoop, EncodeFrom, WellFormedTable, Remains, Complete;
    var d := DefaultStruct(r, dest);
    DefaultsPristine(r, dest);
    StartRead(r, q, d);
    assert Between(e, 0, 0);
    RemainsFrom(t, s, r, q, e, d, 0, 0, Start(d));
    RoundTripExactly(r, q, dest);
  }

  lemma StartRead(t: seq<Field>, s: seq<Slot>, d: seq<Slot>)
    requires WellFormedTable(t) && |s| == |t| && TypedStruct(t, d) && PristineStruct(t, d)
    ensures ReadUpTo(t, s, d, 0, Start(d))
  {
    forall j | 0 <= j < |t| ensures Untouched(t[j], d[SlotOf(t, j)], d[SlotOf(t, j)]) {
      assert WellFormedField(t[j]) && TypedSlot(t[j], d[SlotOf(t, j)]) && PristineSlot(t[j], d[SlotOf(t, j)]);
    }
  }
}
