/**
 Locality of the decoder: what it does with one field does not depend on what
 follows, so unknown fields between whole fields are transparent.
 */
module PbUnknown {
  import opened Common
  import opened PbWire
  import opened PbSchema
  import opened PbEncodeSpec
  import opened PbDecodeSpec

  lemma {:induction false} Varint64Local(bs: seq<byte>, more: seq<byte>, bitpos: nat, acc: nat)
    ensures var r := Varint64From(bs, bitpos, acc);
      r.Got? ==> Varint64From(bs + more, bitpos, acc) == Got(r.value, r.rest + more)
    decreases |bs|
  {
    hide OrIn;
    if bs != [] && bitpos < 64 {
      assert (bs + more)[1..] == bs[1..] + more;
      if bs[0] >= 128 { Varint64Local(bs[1..], more, bitpos + 7, OrIn(acc, Low7(bs[0]), bitpos, TWO64)); }
    }
  }

  lemma {:induction false} Varint32FromLocal(bs: seq<byte>, more: seq<byte>, bitpos: nat, acc: nat)
    ensures var r := Varint32From(bs, bitpos, acc);
      r.Got? ==> Varint32From(bs + more, bitpos, acc) == Got(r.value, r.rest + more)
    decreases |bs|
  {
    hide Varint32Step;
    if bs != [] {
      assert (bs + more)[1..] == bs[1..] + more;
      var step := Varint32Step(bs[0], bitpos, acc);
      if bs[0] >= 128 && step.Some? {
        Varint32FromLocal(bs[1..], more, if bitpos + 7 >= 256 then bitpos + 7 - 256 else bitpos + 7, step.value);
      }
    }
  }

  lemma Varint32Local(bs: seq<byte>, more: seq<byte>)
    ensures Varint32(bs).Got? ==> Varint32(bs + more) == Got(Varint32(bs).value, Varint32(bs).rest + more)
  {
    hide Varint32From;
    if bs != [] {
      assert (bs + more)[1..] == bs[1..] + more;
      Varint32FromLocal(bs[1..], more, 7, Low7(bs[0]));
    }
  }

  lemma {:induction false} SkipVarintLocal(bs: seq<byte>, more: seq<byte>)
    ensures SkipVarint(bs).Got? ==> SkipVarint(bs + more) == Got((), SkipVarint(bs).rest + more)
    decreases |bs|
  {
    if bs != [] {
      assert (bs + more)[1..] == bs[1..] + more;
      SkipVarintLocal(bs[1..], more);
    }
  }

  lemma PayloadLocal(bs: seq<byte>, more: seq<byte>)
    ensures DecodePayload(bs).Got? ==> DecodePayload(bs + more) == Got(DecodePayload(bs).value, DecodePayload(bs).rest + more)
  {
    hide Varint32;
    Varint32Local(bs, more);
    match Varint32(bs)
    case Fail =>
    case Got(size, rest) =>
      if size <= |rest| {
        assert (rest + more)[..size] == rest[..size];
        assert (rest + more)[size..] == rest[size..] + more;
      }
  }

  lemma FixedLocal(width: nat, bs: seq<byte>, more: seq<byte>)
    requires width <= |bs|
    ensures (bs + more)[..width] == bs[..width] && (bs + more)[width..] == bs[width..] + more
  {
  }

  lemma SkipLocal(wireType: nat, bs: seq<byte>, more: seq<byte>)
    ensures SkipField(wireType, bs).Got? ==> SkipField(wireType, bs + more) == Got((), SkipField(wireType, bs).rest + more)
  {
    hide SkipVarint, DecodePayload;
    SkipVarintLocal(bs, more);
    PayloadLocal(bs, more);
    if |bs| >= 8 { FixedLocal(8, bs, more); }
    if |bs| >= 4 { FixedLocal(4, bs, more); }
  }

  lemma ScalarLocal(f: Field, bs: seq<byte>, more: seq<byte>, prev: Value)
    requires Packable(f.ltype)
    ensures var r := DecodeItem(f, bs, prev); r.Got? ==> DecodeItem(f, bs + more, prev) == Got(r.value, r.rest + more)
  {
    hide Varint64From;
    Varint64Local(bs, more, 0, 0);
    if f.ltype.FIXED64? && |bs| >= 8 { FixedLocal(8, bs, more); }
    if f.ltype.FIXED32? && |bs| >= 4 { FixedLocal(4, bs, more); }
  }

  lemma ItemLocal(f: Field, bs: seq<byte>, more: seq<byte>, prev: Value)
    ensures var r := DecodeItem(f, bs, prev); r.Got? ==> DecodeItem(f, bs + more, prev) == Got(r.value, r.rest + more)
  {
    hide DecodePayload, DecodeNoInit;
    if Packable(f.ltype) { ScalarLocal(f, bs, more, prev); } else { PayloadLocal(bs, more); }
  }

  lemma SlotLocal(f: Field, wireType: nat, bs: seq<byte>, more: seq<byte>, sl: Slot, count: nat)
    requires |sl.items| == if f.htype.REPEATED? then f.arraySize else 1
    ensures var r := DecodeSlot(f, wireType, bs, sl, count);
      r.Got? ==> DecodeSlot(f, wireType, bs + more, sl, count) == Got(r.value, r.rest + more)
  {
    hide DecodeItem, DecodePayload, DecodePacked;
    PayloadLocal(bs, more);
    if f.htype.REPEATED? {
      if count < f.arraySize { ItemLocal(f, bs, more, sl.items[count]); }
    } else {
      ItemLocal(f, bs, more, Destination(f, sl));
    }
  }

  ghost predicate SameOutcome(r: Outcome, r': Outcome, more: seq<byte>) {
    r.Done? ==> r' == Done(r.st, r.rest + more, r.stopped)
  }

  /** One field of the message is read the same whatever follows it. */
  lemma OneLocal(t: seq<Field>, bs: seq<byte>, more: seq<byte>, st: DState)
    requires Consistent(t, st)
    ensures SameOutcome(DecodeOne(t, bs, st), DecodeOne(t, bs + more, st), more)
  {
    hide Varint32, SkipField, DecodeField, FindField;
    Varint32Local(bs, more);
    match DecodeTag(bs)
    case TagFail =>
    case TagStop(_) =>
    case TagGot(wireType, tag, rest) =>
      SkipLocal(wireType, rest, more);
      var j := FindField(t, st.pos, tag);
      if j.Some? { FieldLocal(t, j.value, wireType, rest, more, st); }
  }

  lemma FieldLocal(t: seq<Field>, j: nat, wireType: nat, bs: seq<byte>, more: seq<byte>, st: DState)
    requires Consistent(t, st) && j < |t|
    ensures SameOutcome(DecodeField(t, j, wireType, bs, st), DecodeField(t, j, wireType, bs + more, st), more)
  {
    hide DecodeSlot, EnterField;
    match EnterField(t, j, st)
    case None =>
    case Some(st1) =>
      var sl := st1.slots[SlotOf(t, j)];
      if |sl.items| == (if t[j].htype.REPEATED? then t[j].arraySize else 1) {
        SlotLocal(t[j], wireType, bs, more, sl, if FixedCount(t[j]) then st1.fixedSize else sl.size);
      }
  }

  /** Whole fields `a` take the decoder from `st` to `st'` whatever follows them. */
  ghost predicate WholeFields(t: seq<Field>, a: seq<byte>, st: DState, st': DState)
    requires Consistent(t, st)
  {
    DecodeLoop(t, a, st) == Done(st', [], false)
  }

  /** Decoding composes at field boundaries. */
  lemma {:induction false} Compose(t: seq<Field>, a: seq<byte>, b: seq<byte>, st: DState, st': DState)
    requires Consistent(t, st) && WholeFields(t, a, st, st')
    ensures Consistent(t, st') && DecodeLoop(t, a + b, st) == DecodeLoop(t, b, st')
    decreases |a|
  {
    hide DecodeOne;
    if a == [] {
      assert a + b == b;
    } else {
      OneLocal(t, a, b, st);
      var r := DecodeOne(t, a, st);
      Compose(t, r.rest, b, r.st, st');
    }
  }

  /** A field that no table entry has the tag of: a tag word and a payload of its wire type. */
  ghost predicate UnknownField(t: seq<Field>, u: seq<byte>) {
    match DecodeTag(u)
    case TagGot(wireType, tag, payload) =>
      && tag != 0 && (forall j | 0 <= j < |t| :: t[j].tag != tag)
      && SkipField(wireType, payload) == Got((), [])
    case _ => false
  }

  lemma UnknownSkipped(t: seq<Field>, u: seq<byte>, st: DState)
    requires UnknownField(t, u) && Consistent(t, st)
    ensures WholeFields(t, u, st, st)
  {
    hide SkipField, FindField, DecodeTag;
    assert DecodeOne(t, u, st) == Done(st, [], false);
    assert DecodeLoop(t, [], st) == Done(st, [], false);
  }

  /** Inserting an unknown field between whole fields changes neither success nor the decoded message. */
  lemma UnknownTransparent(t: seq<Field>, a: seq<byte>, u: seq<byte>, b: seq<byte>, s: seq<Slot>, st: DState)
    requires |s| == |t| && UnknownField(t, u) && WholeFields(t, a, Start(DefaultStruct(t, s)), st)
    ensures DecodeMessage(t, a + u + b, s) == DecodeMessage(t, a + b, s)
  {
    hide DecodeLoop, DecodeTag, UnknownField;
    var st0 := Start(DefaultStruct(t, s));
    Compose(t, a, u + b, st0, st);
    Compose(t, a, b, st0, st);
    UnknownSkipped(t, u, st);
    Compose(t, u, b, st, st);
    assert a + u + b == a + (u + b);
  }
}
