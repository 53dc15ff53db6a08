/**
 Freshly initialised structs: what pb_message_set_to_defaults leaves behind, and
 why a proto3 field that the encoder skips reads back as it was.
 */
module PbDefaults {
  import opened Common
  import opened Bits
  import opened PbWire
  import opened PbSchema
  import opened PbEncodeSpec

  ghost predicate PristineValue(f: Field, v: Value)
    decreases f, 0
  {
    f.ltype.SUBMESSAGE? ==> v.Msg? && PristineStruct(f.sub, v.slots)
  }

  /** The zero value of a proto3 singular field, up to bytes that are never looked at. */
  ghost predicate ZeroLike(f: Field, v: Value)
    decreases f, 1
  {
    match f.ltype
    case BYTES => v.Bytes? && v.len == 0
    case STRING => v.Str? && v.buf != [] && v.buf[0] == 0
    case FIXED_LENGTH_BYTES => true
    case SUBMESSAGE => PristineValue(f, v)
    case _ => v == Int(0)
  }

  ghost predicate PristineSlot(f: Field, sl: Slot)
    decreases f, 2
  {
    match f.htype
    case REQUIRED => |sl.items| == 1 && PristineValue(f, sl.items[0])
    case OPTIONAL =>
      |sl.items| == 1 &&
      if f.sizeOffset != 0 then sl.size == 0 && PristineValue(f, sl.items[0]) else ZeroLike(f, sl.items[0])
    case REPEATED => f.sizeOffset != 0 ==> sl.size == 0
    case ONEOF(_) => sl.size == 0
  }

  ghost predicate PristineStruct(t: seq<Field>, s: seq<Slot>)
    decreases t
  {
    |s| == |t| && forall j | 0 <= j < |t| :: PristineSlot(t[j], s[SlotOf(t, j)])
  }

  lemma {:induction false} ZeroTyped(t: seq<Field>)
    requires WellFormedTable(t)
    ensures TypedStruct(t, ZeroStruct(t))
    decreases t
  {
    forall j | 0 <= j < |t| ensures TypedSlot(t[j], ZeroStruct(t)[SlotOf(t, j)]) {
      assert WellFormedField(t[j]);
      if !t[j].htype.ONEOF? { ZeroValueTyped(t[j]); }
    }
  }

  lemma {:induction false} ZeroValueTyped(f: Field)
    requires WellFormedField(f)
    ensures TypedValue(f, ZeroValue(f))
    decreases f
  {
    if f.ltype.SUBMESSAGE? { ZeroTyped(f.sub); }
  }

  /** Initialisation yields a pristine struct from any memory of the right type. */
  lemma {:induction false} DefaultsPristine(t: seq<Field>, s: seq<Slot>)
    requires WellFormedTable(t) && TypedStruct(t, s)
    ensures TypedStruct(t, DefaultStruct(t, s)) && PristineStruct(t, DefaultStruct(t, s))
    decreases t
  {
    var d := DefaultStruct(t, s);
    forall j | 0 <= j < |t| ensures TypedSlot(t[j], d[SlotOf(t, j)]) && PristineSlot(t[j], d[SlotOf(t, j)]) {
      var k := SlotOf(t, j);
      assert WellFormedField(t[j]) && TypedSlot(t[j], s[k]);
      assert d[k] == DefaultSlot(t[k], s[k]);
      if t[j].htype.OPTIONAL? || t[j].htype.REQUIRED? { DefaultSlotPristine(t[j], s[j]); }
      if FixedCount(t[j]) && !t[j].ltype.SUBMESSAGE? { ClearedTyped(t[j], s[j].items); }
    }
  }

  /** Clearing the first four bytes of an array leaves values of its type. */
  lemma ClearedTyped(f: Field, items: seq<Value>)
    requires WellFormedField(f) && !f.ltype.SUBMESSAGE? && forall i | 0 <= i < |items| :: TypedValue(f, items[i])
    ensures forall i | 0 <= i < |items| :: TypedValue(f, ClearedArray(f, items)[i])
  {
    hide WellFormedField;
    forall i | 0 <= i < |items| ensures TypedValue(f, ClearedArray(f, items)[i]) {
      ClearedValueTyped(f, items[i], i, COUNT_SIZE - i * f.dataSize);
    }
  }

  lemma ClearedValueTyped(f: Field, v: Value, i: nat, n: int)
    requires WellFormedField(f) && !f.ltype.SUBMESSAGE? && TypedValue(f, v) && n == COUNT_SIZE - i * f.dataSize
    ensures TypedValue(f, Cleared(f, v, n))
  {
    hide Pow256;
    if v.Int? && 0 < n < f.dataSize {
      Lowered(v.n, Pow256(n));
      if f.ltype.VARINT? || f.ltype.SVARINT? {
        OnlyEightBytes(f.dataSize, i, n);
        FourBytes(n);
        LowWordCleared(v.n);
      }
    }
  }

  lemma Lowered(m: int, p: nat)
    requires p > 0
    ensures m >= 0 ==> 0 <= m - m % p <= m
  {
  }

  lemma FourBytes(n: nat)
    requires n == 4
    ensures Pow256(n) == TWO32
  {
  }

  lemma OnlyEightBytes(d: int, i: nat, n: nat)
    requires ScalarWidth(d) && n == COUNT_SIZE - i * d && 0 < n < d
    ensures d == 8 && n == 4
  {
    if i > 0 { MulUpTo(1, i, d); }
  }

  lemma LowWordCleared(m: int)
    requires -TWO63 <= m < TWO63
    ensures -TWO63 <= m - m % TWO32 < TWO63
  {
  }

  lemma {:induction false} DefaultSlotPristine(f: Field, sl: Slot)
    requires WellFormedField(f) && TypedSlot(f, sl) && (f.htype.OPTIONAL? || f.htype.REQUIRED?)
    ensures TypedSlot(f, DefaultSlot(f, sl)) && PristineSlot(f, DefaultSlot(f, sl))
    decreases f
  {
    if f.ltype.SUBMESSAGE? {
      assert TypedValue(f, sl.items[0]);
      DefaultsPristine(f.sub, sl.items[0].slots);
    } else if f.init.None? {
      ZeroValueTyped(f);
    }
  }

  /** The fixed-count arrays agree, in this struct and in the proto3 submessages inside it. */
  ghost predicate ArraysAgree(t: seq<Field>, a: seq<Slot>, b: seq<Slot>)
    decreases t, 1
  {
    |a| == |b| == |t| && forall j | 0 <= j < |t| :: AgreesAt(t[j], a[SlotOf(t, j)], b[SlotOf(t, j)])
  }

  ghost predicate AgreesAt(f: Field, a: Slot, b: Slot)
    decreases f
  {
    && (FixedCount(f) ==> SameSlot(f, a, b))
    && (Singular(f) && f.ltype.SUBMESSAGE? ==>
          && |a.items| == |b.items| == 1 && a.items[0].Msg? && b.items[0].Msg?
          && ArraysAgree(f.sub, a.items[0].slots, b.items[0].slots))
  }

  /**
   A struct that pb_check_proto3_default_value calls default is what
   initialisation leaves, if and only if its fixed-count arrays are.
   */
  lemma {:induction false} DefaultsSame(t: seq<Field>, a: seq<Slot>, b: seq<Slot>)
    requires WellFormedTable(t) && TypedStruct(t, a) && TypedStruct(t, b) && Proto3DefaultStruct(t, a) && PristineStruct(t, b)
    ensures SameMessage(t, a, b) <==> ArraysAgree(t, a, b)
    decreases t
  {
    forall j | 0 <= j < |t| ensures SameSlot(t[j], a[SlotOf(t, j)], b[SlotOf(t, j)]) <==> AgreesAt(t[j], a[SlotOf(t, j)], b[SlotOf(t, j)]) {
      var k := SlotOf(t, j);
      assert WellFormedField(t[j]) && TypedSlot(t[j], a[k]) && TypedSlot(t[j], b[k]);
      assert Proto3Default(t[j], a[k]) && PristineSlot(t[j], b[k]);
      if Singular(t[j]) { DefaultValueSame(t[j], a[k], b[k]); }
    }
  }

  lemma {:induction false} DefaultValueSame(f: Field, a: Slot, b: Slot)
    requires WellFormedField(f) && Singular(f) && TypedSlot(f, a) && TypedSlot(f, b)
    requires Proto3Default(f, a) && PristineSlot(f, b)
    ensures SameValue(f, a.items[0], b.items[0]) <==> AgreesAt(f, a, b)
    decreases f
  {
    var v, w := a.items[0], b.items[0];
    assert TypedValue(f, v) && TypedValue(f, w) && ZeroLike(f, w);
    if f.ltype.SUBMESSAGE? {
      assert PristineValue(f, w);
      DefaultsSame(f.sub, v.slots, w.slots);
    } else if f.ltype.BYTES? {
      assert v.buf[..0] == w.buf[..0];
    }
  }
}
