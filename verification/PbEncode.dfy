/**
 The nanopb encoder over a memory buffer, proved against PbEncodeSpec: the sizing
 pass counts exactly what the writing pass writes, and encoding into a buffer
 succeeds exactly when sizing succeeds and the size fits.
 */
module PbEncode {
  import opened Common
  import opened Bits
  import opened PbWire
  import opened PbSchema
  import opened PbEncodeSpec
  import opened PbDecodeSpec
  import opened PbIterator

  /** Memory `mem` with `data` stored at `at`. */
  function Splice(mem: seq<byte>, at: nat, data: seq<byte>): (r: seq<byte>)
    requires at + |data| <= |mem|
    ensures |r| == |mem|
  {
    mem[..at] + data + mem[at + |data|..]
  }

  /** The state of a stream together with the buffer it writes to. */
  datatype Snapshot = Snapshot(writing: bool, mem: seq<byte>, state: nat, written: nat, maxSize: nat) {

    predicate Valid() {
      writing ==> written <= state && written <= maxSize && state - written + maxSize <= |mem|
    }

    predicate Fits(n: nat) {
      !writing || written + n <= maxSize
    }

    /** `data` appended, and nothing else in memory changed. */
    function Append(data: seq<byte>): Snapshot
      requires Valid() && Fits(|data|)
    {
      if writing then this.(mem := Splice(mem, state, data), state := state + |data|, written := written + |data|)
      else this.(written := written + |data|)
    }

    /** What even a failed call respects: nothing outside the stream's free space changes. */
    ghost predicate Confines(after: Snapshot)
      requires Valid()
    {
      && after.Valid() && after.writing == writing && after.maxSize == maxSize && |after.mem| == |mem|
      && written <= after.written
      && (writing ==> after.state - after.written == state - written)
      && forall i | 0 <= i < |mem| && !(writing && state <= i < state - written + maxSize) :: after.mem[i] == mem[i]
    }
  }

  lemma AppendTwice(s: Snapshot, a: seq<byte>, b: seq<byte>)
    requires s.Valid() && s.Fits(|a|)
    ensures s.Append(a).Valid()
    ensures s.Append(a).Fits(|b|) <==> s.Fits(|a + b|)
    ensures s.Fits(|a + b|) ==> s.Append(a).Append(b) == s.Append(a + b)
  {
    if s.writing && s.Fits(|a + b|) {
      assert Splice(Splice(s.mem, s.state, a), s.state + |a|, b) == Splice(s.mem, s.state, a + b);
    }
  }

  lemma AppendNothing(s: Snapshot)
    requires s.Valid()
    ensures s.Fits(0) && s.Append([]) == s
  {
    if s.writing { assert Splice(s.mem, s.state, []) == s.mem; }
  }

  lemma AppendConfined(s: Snapshot, data: seq<byte>)
    requires s.Valid() && s.Fits(|data|)
    ensures s.Confines(s.Append(data))
  {
  }

  /** pb_ostream_t. `writing` is callback != NULL: a sizing stream only counts. */
  class OStream {
    const writing: bool
    const dest: array<byte>
    const maxSize: nat
    var state: nat
    var bytesWritten: nat

    ghost function Snap(): Snapshot
      reads this, dest
    {
      Snapshot(writing, dest[..], state, bytesWritten, maxSize)
    }

    constructor FromBuffer(buf: array<byte>)
      ensures Snap() == Snapshot(true, buf[..], 0, 0, buf.Length) && dest == buf && Snap().Valid()
    {
      writing, dest, maxSize, state, bytesWritten := true, buf, buf.Length, 0, 0;
    }

    /** PB_OSTREAM_SIZING. */
    constructor Sizing()
      ensures Snap() == Snapshot(false, [], 0, 0, 0) && fresh(dest)
    {
      writing, maxSize, state, bytesWritten := false, 0, 0, 0;
      dest := new byte[0];
    }

    /** The limited substream for a submessage of `size` bytes. */
    constructor Limited(parent: OStream, size: nat)
      requires parent.Snap().Valid() && parent.writing && parent.Snap().Fits(size)
      ensures Snap() == Snapshot(true, parent.dest[..], parent.state, 0, size) && dest == parent.dest
    {
      writing, dest, maxSize, state, bytesWritten := true, parent.dest, size, parent.state, 0;
    }

    /** pb_write, with the copying loop of buf_write. */
    method Write(buf: seq<byte>) returns (ok: bool)
      requires Snap().Valid()
      modifies this, dest
      ensures ok <==> old(Snap()).Fits(|buf|)
      ensures Snap() == if ok then old(Snap()).Append(buf) else old(Snap())
    {
      if writing {
        if bytesWritten + |buf| > maxSize { return false; }
        var at := state;
        state := at + |buf|;
        var i := 0;
        while i < |buf|
          invariant 0 <= i <= |buf|
          invariant forall k | 0 <= k < dest.Length :: dest[k] == if at <= k < at + i then buf[k - at] else old(dest[k])
          invariant state == at + |buf| && bytesWritten == old(bytesWritten)
        {
          dest[at + i] := buf[i];
          i := i + 1;
        }
        assert dest[..] == Splice(old(dest[..]), at, buf);
      }
      bytesWritten := bytesWritten + |buf|;
      return true;
    }

    /** pb_write(stream, NULL, size) on a sizing stream. */
    method Count(size: nat)
      requires !writing
      modifies this
      ensures Snap() == old(Snap()).(written := old(bytesWritten) + size)
    {
      bytesWritten := bytesWritten + size;
    }
  }

  // ---------- scalars ----------

  lemma VarintStep(v: nat, n: nat)
    requires v > 0 && v < Pow2(7 * n)
    ensures n >= 1 && v / 128 < Pow2(7 * (n - 1))
  {
    if n >= 1 { assert Pow2(7 * n) == 128 * Pow2(7 * n - 7); }
  }

  /** The first `i` bytes of the local buffer and the value still to encode make up the varint. */
  ghost predicate VarintSoFar(value: nat, done: seq<byte>, rest: nat) {
    if rest > 0 then VarintBytes(value) == done + VarintBytes(rest)
    else done != [] && done[|done| - 1] >= 128 && VarintBytes(value) == done[..|done| - 1] + [done[|done| - 1] - 128]
  }

  lemma VarintSoFarStep(value: nat, done: seq<byte>, v: nat)
    requires v > 0 && VarintSoFar(value, done, v)
    ensures VarintSoFar(value, done + [v % 128 + 128], v / 128)
  {
    hide VarintBytes;
    var n := 1 + v;
    var b: byte := v % 128 + 128;
    assert VarintBytes(value) == done + VarintBytes(v);
    VarintUnfold(v);
    if v / 128 > 0 {
      assert done + ([b] + VarintBytes(v / 128)) == (done + [b]) + VarintBytes(v / 128);
    } else {
      assert (done + [b])[..|done|] == done;
    }
  }

  lemma VarintSoFarEnds(value: nat, done: seq<byte>)
    ensures value > 0 && done == [] ==> VarintSoFar(value, done, value)
    ensures VarintSoFar(value, done, 0) ==>
      done != [] && done[|done| - 1] >= 128 && VarintBytes(value) == done[..|done| - 1] + [done[|done| - 1] - 128]
  {
    hide VarintBytes;
    assert [] + VarintBytes(value) == VarintBytes(value);
  }

  lemma VarintUnfold(v: nat)
    requires v > 0
    ensures v / 128 > 0 ==> VarintBytes(v) == [v % 128 + 128] + VarintBytes(v / 128)
    ensures v / 128 == 0 ==> VarintBytes(v) == [v % 128]
  {
  }

  /** The loop of pb_encode_varint: the local buffer receives the varint, `n` bytes of it. */
  method FillVarint(buffer: array<byte>, value: nat) returns (n: nat)
    requires buffer.Length == 10 && 0x7F < value < TWO64
    modifies buffer
    ensures n <= 10 && buffer[..n] == VarintBytes(value)
  {
    hide VarintBytes, Pow2, VarintSoFar;
    var v: nat := value;
    n := 0;
    Pow2Values(70);
    VarintSoFarEnds(value, buffer[..0]);
    while v != 0
      invariant 0 <= n <= 10 && v < Pow2(7 * (10 - n))
      invariant VarintSoFar(value, buffer[..n], v)
    {
      VarintStep(v, 10 - n);
      VarintSoFarStep(value, buffer[..n], v);
      buffer[n] := v % 128 + 128;
      v := v / 128;
      n := n + 1;
      assert buffer[..n] == buffer[..n - 1] + [buffer[n - 1]];
    }
    ghost var last := buffer[..n];
    VarintSoFarEnds(value, last);
    buffer[n - 1] := buffer[n - 1] - 128;
    assert buffer[..n] == last[..n - 1] + [last[n - 1] - 128];
  }

  /** pb_encode_varint. */
  method EncodeVarint(s: OStream, value: nat) returns (ok: bool)
    requires s.Snap().Valid() && value < TWO64
    modifies s, s.dest
    ensures ok <==> old(s.Snap()).Fits(|VarintBytes(value)|)
    ensures s.Snap() == if ok then old(s.Snap()).Append(VarintBytes(value)) else old(s.Snap())
  {
    if value <= 0x7F {
      ok := s.Write([value]);
      return;
    }
    var buffer := new byte[10](_ => 0);
    var n := FillVarint(buffer, value);
    ok := s.Write(buffer[..n]);
  }

  /** pb_encode_tag. */
  method EncodeTag(s: OStream, wireType: nat, tag: nat) returns (ok: bool)
    requires s.Snap().Valid()
    modifies s, s.dest
    ensures ok <==> old(s.Snap()).Fits(|TagBytes(wireType, tag)|)
    ensures s.Snap() == if ok then old(s.Snap()).Append(TagBytes(wireType, tag)) else old(s.Snap())
  {
    ok := EncodeVarint(s, (tag * 8 + wireType) % TWO64);
  }

  /** pb_encode_string: a length and that many bytes. */
  method EncodeString(s: OStream, data: seq<byte>) returns (ok: bool)
    requires s.Snap().Valid()
    modifies s, s.dest
    ensures ok <==> old(s.Snap()).Fits(|Prefixed(data)|)
    ensures s.Snap() ==
      if ok then old(s.Snap()).Append(Prefixed(data))
      else if old(s.Snap()).Fits(|SizeBytes(|data|)|) then old(s.Snap()).Append(SizeBytes(|data|)) else old(s.Snap())
    ensures old(s.Snap()).Confines(s.Snap())
  {
    hide VarintBytes;
    ghost var before := s.Snap();
    ok := EncodeVarint(s, |data| % TWO64);
    if ok {
      AppendTwice(before, SizeBytes(|data|), data);
      AppendConfined(before, SizeBytes(|data|));
      ok := s.Write(data);
      if ok { AppendConfined(before, Prefixed(data)); }
    }
  }

  /** pb_encode_fixed32 and pb_encode_fixed64: the bytes are gathered by shifting, least significant first. */
  method EncodeFixed(s: OStream, value: nat, width: nat) returns (ok: bool)
    requires s.Snap().Valid()
    modifies s, s.dest
    ensures ok <==> old(s.Snap()).Fits(width)
    ensures s.Snap() == if ok then old(s.Snap()).Append(LittleEndian(value, width)) else old(s.Snap())
  {
    var bytes: seq<byte>, v: nat, i: nat := [], value, 0;
    while i < width
      invariant 0 <= i <= width && LittleEndian(value, width) == bytes + LittleEndian(v, width - i)
      invariant s.Snap() == old(s.Snap())
    {
      assert bytes + ([v % 256] + LittleEndian(v / 256, width - i - 1)) == bytes + [v % 256] + LittleEndian(v / 256, width - i - 1);
      bytes := bytes + [v % 256];
      v := v / 256;
      i := i + 1;
    }
    assert bytes + [] == bytes;
    ok := s.Write(bytes);
  }

  // ---------- sequencing ----------

  /** What a call that should write `enc` must do: succeed exactly when there is something to write and room for it. */
  ghost predicate Wrote(before: Snapshot, after: Snapshot, ok: bool, enc: Option<seq<byte>>)
    requires before.Valid()
  {
    && (ok <==> enc.Some? && before.Fits(|enc.value|))
    && (ok ==> after == before.Append(enc.value))
    && before.Confines(after)
  }

  function Then(a: Option<seq<byte>>, b: Option<seq<byte>>): Option<seq<byte>> {
    if a.Some? && b.Some? then Some(a.value + b.value) else None
  }

  lemma WroteBytes(before: Snapshot, after: Snapshot, ok: bool, data: seq<byte>)
    requires before.Valid() && (ok <==> before.Fits(|data|)) && after == if ok then before.Append(data) else before
    ensures Wrote(before, after, ok, Some(data))
  {
    if ok { AppendConfined(before, data); }
  }

  lemma WroteThen(s0: Snapshot, s1: Snapshot, s2: Snapshot, ok: bool, a: Option<seq<byte>>, b: Option<seq<byte>>)
    requires s0.Valid() && Wrote(s0, s1, true, a) && s1.Valid() && Wrote(s1, s2, ok, b)
    ensures Wrote(s0, s2, ok, Then(a, b))
  {
    if b.Some? { AppendTwice(s0, a.value, b.value); }
  }

  lemma WroteFailed(s0: Snapshot, s1: Snapshot, a: Option<seq<byte>>, b: Option<seq<byte>>)
    requires s0.Valid() && Wrote(s0, s1, false, a)
    ensures Wrote(s0, s1, false, Then(a, b))
  {
  }

  lemma WroteNothing(s0: Snapshot)
    requires s0.Valid()
    ensures Wrote(s0, s0, true, Some([]))
  {
    AppendNothing(s0);
  }

  // ---------- the proto3 default test ----------

  /** pb_check_proto3_default_value. */
  method CheckDefault(f: Field, sl: Slot) returns (r: bool)
    requires TaggedField(f) && TypedSlot(f, sl)
    ensures r == Proto3Default(f, sl)
    decreases f, 0
  {
    match f.htype
    case REQUIRED => return false;
    case REPEATED => return if f.sizeOffset == 0 then CountsZero(f, sl) else sl.size == 0;
    case ONEOF(_) => return sl.size == 0;
    case OPTIONAL =>
      if f.sizeOffset != 0 { return sl.size == 0; }
      var v := sl.items[0];
      assert TypedValue(f, v);
      match f.ltype
      case BYTES => return v.len == 0;
      case STRING => return v.buf == [] || v.buf[0] == 0;
      case FIXED_LENGTH_BYTES => return f.dataSize == 0;
      case SUBMESSAGE => r := CheckDefaultStruct(f.sub, v.slots);
      case _ => return v.n == 0;
  }

  method CheckDefaultStruct(t: seq<Field>, s: seq<Slot>) returns (r: bool)
    requires Tagged(t) && TypedStruct(t, s)
    ensures r == Proto3DefaultStruct(t, s)
    decreases t
  {
    TagsNotZero(t);
    var it := new FieldIter(t);
    if t == [] { return true; }
    var more := true;
    while more
      invariant it.Valid() && it.table == t
      invariant more ==> forall j | 0 <= j < it.pos :: Proto3Default(t[j], s[SlotOf(t, j)])
      invariant !more ==> Proto3DefaultStruct(t, s)
      decreases more, |t| - it.pos
    {
      assert TaggedField(t[it.pos]) && TypedSlot(t[it.pos], s[SlotOf(t, it.pos)]);
      var b := CheckDefault(t[it.pos], s[SlotOf(t, it.pos)]);
      if !b { return false; }
      more := it.Next();
    }
    return true;
  }

  // ---------- fields ----------

  /** The encoder PB_ENCODERS selects for the field. */
  method WriteItem(s: OStream, f: Field, v: Value) returns (ok: bool)
    requires s.Snap().Valid() && TaggedField(f) && TypedValue(f, v)
    modifies s, s.dest
    ensures Wrote(old(s.Snap()), s.Snap(), ok, EncodeItem(f, v))
    decreases f, 1
  {
    ghost var before := s.Snap();
    match f.ltype
    case VARINT | UVARINT =>
      if !ScalarWidth(f.dataSize) { return false; }
      ok := EncodeVarint(s, AsUnsigned64(v.n));
      WroteBytes(before, s.Snap(), ok, VarintBytes(AsUnsigned64(v.n)));
    case SVARINT =>
      if !ScalarWidth(f.dataSize) { return false; }
      ok := EncodeVarint(s, ZigZag(v.n));
      WroteBytes(before, s.Snap(), ok, VarintBytes(ZigZag(v.n)));
    case FIXED32 =>
      ok := EncodeFixed(s, v.n, 4);
      WroteBytes(before, s.Snap(), ok, LittleEndian(v.n, 4));
    case FIXED64 =>
      ok := EncodeFixed(s, v.n, 8);
      WroteBytes(before, s.Snap(), ok, LittleEndian(v.n, 8));
    case BYTES =>
      if v.len + BYTES_HEADER > f.dataSize { return false; }
      ok := EncodeString(s, v.buf[..v.len]);
    case STRING =>
      var size := 0;
      while size < f.dataSize && v.buf[size] != 0
        invariant 0 <= size <= f.dataSize && s.Snap() == before
        invariant 0 !in v.buf[..size]
      {
        assert v.buf[..size + 1] == v.buf[..size] + [v.buf[size]];
        size := size + 1;
      }
      CStringLength(v.buf, size);
      ok := EncodeString(s, v.buf[..size]);
    case FIXED_LENGTH_BYTES =>
      ok := EncodeString(s, v.buf);
    case SUBMESSAGE =>
      ok := WriteSubmessage(s, f.sub, v.slots);
  }

  lemma CStringLength(buf: seq<byte>, size: nat)
    requires size <= |buf| && 0 !in buf[..size] && (size < |buf| ==> buf[size] == 0)
    ensures CString(buf) == buf[..size]
  {
    var c := CString(buf);
    assert c == buf[..|c|];
    assert forall k | 0 <= k < size :: buf[k] in buf[..size];
    assert forall k | 0 <= k < |c| :: buf[k] in c;
  }

  /** pb_encode_submessage: size first, then write into a substream of exactly that size. */
  method WriteSubmessage(s: OStream, t: seq<Field>, slots: seq<Slot>) returns (ok: bool)
    requires s.Snap().Valid() && Tagged(t) && TypedStruct(t, slots)
    modifies s, s.dest
    ensures Wrote(old(s.Snap()), s.Snap(), ok,
              match EncodeMessage(t, slots) case None => None case Some(body) => Some(Prefixed(body)))
    decreases t, 1
  {
    hide EncodeMessage, TypedStruct, Tagged;
    ghost var before := s.Snap();
    ghost var enc := EncodeMessage(t, slots);
    var sizing := new OStream.Sizing();
    ok := WriteMessage(sizing, t, slots);
    if !ok { return; }
    var size := sizing.bytesWritten;
    assert enc.Some? && size == |enc.value|;
    ok := EncodeVarint(s, size % TWO64);
    ghost var prefixed := s.Snap();
    WroteBytes(before, prefixed, ok, SizeBytes(size));
    if !ok {
      WroteFailed(before, prefixed, Some(SizeBytes(size)), enc);
      return;
    }
    if !s.writing {
      s.Count(size);
      WroteBytes(prefixed, s.Snap(), true, enc.value);
      WroteThen(before, prefixed, s.Snap(), true, Some(SizeBytes(size)), enc);
      return;
    }
    if s.bytesWritten + size > s.maxSize {
      WroteBytes(prefixed, prefixed, false, enc.value);
      WroteThen(before, prefixed, prefixed, false, Some(SizeBytes(size)), enc);
      return false;
    }
    var sub := new OStream.Limited(s, size);
    ghost var inner := sub.Snap();
    var status := WriteMessage(sub, t, slots);
    s.bytesWritten := s.bytesWritten + sub.bytesWritten;
    s.state := sub.state;
    assert s.Snap() == prefixed.Append(enc.value);
    WroteBytes(prefixed, s.Snap(), true, enc.value);
    WroteThen(before, prefixed, s.Snap(), true, Some(SizeBytes(size)), enc);
    return status && sub.bytesWritten == size;  // "submsg size changed"
  }

  lemma ThenAssociative(a: Option<seq<byte>>, b: Option<seq<byte>>, c: Option<seq<byte>>)
    ensures Then(Then(a, b), c) == Then(a, Then(b, c))
  {
    if a.Some? && b.Some? && c.Some? { assert a.value + b.value + c.value == a.value + (b.value + c.value); }
  }

  /** One more step of a loop that writes `item` and then `rest` after what is already `done`. */
  lemma WroteStep(s0: Snapshot, s1: Snapshot, s2: Snapshot, ok: bool,
                  done: Option<seq<byte>>, item: Option<seq<byte>>, rest: Option<seq<byte>>)
    requires s0.Valid() && Wrote(s0, s1, true, done) && s1.Valid() && Wrote(s1, s2, ok, item)
    ensures Then(Then(done, item), rest) == Then(done, Then(item, rest))
    ensures ok ==> Wrote(s0, s2, true, Then(done, item))
    ensures !ok ==> Wrote(s0, s2, false, Then(done, Then(item, rest)))
  {
    hide Wrote, Then;
    WroteThen(s0, s1, s2, ok, done, item);
    ThenAssociative(done, item, rest);
    if !ok { WroteFailed(s0, s2, Then(done, item), rest); }
  }

  lemma PackedUnfold(f: Field, vs: seq<Value>, i: nat)
    requires i < |vs| && forall k | 0 <= k < |vs| :: TypedValue(f, vs[k])
    ensures EncodePacked(f, vs[i..]) == Then(EncodeItem(f, vs[i]), EncodePacked(f, vs[i + 1..]))
    ensures EncodeUnpacked(f, vs[i..]) == Then(Then(Some(FieldTag(f)), EncodeItem(f, vs[i])), EncodeUnpacked(f, vs[i + 1..]))
  {
    hide FieldTag, EncodeItem;
    assert vs[i..][0] == vs[i] && vs[i..][1..] == vs[i + 1..];
  }

  /** The loop over the entries of a packed array. */
  method WritePacked(s: OStream, f: Field, vs: seq<Value>) returns (ok: bool)
    requires s.Snap().Valid() && TaggedField(f) && forall k | 0 <= k < |vs| :: TypedValue(f, vs[k])
    modifies s, s.dest
    ensures Wrote(old(s.Snap()), s.Snap(), ok, EncodePacked(f, vs))
    decreases f, 2
  {
    hide Wrote, EncodeItem, TypedValue, TaggedField, EncodePacked;
    ghost var before, done := s.Snap(), Some([]);
    WroteNothing(before);
    PackedStart(f, vs);
    var i := 0;
    while i < |vs|
      invariant 0 <= i <= |vs| && s.Snap().Valid()
      invariant Wrote(before, s.Snap(), true, done)
      invariant EncodePacked(f, vs) == Then(done, EncodePacked(f, vs[i..]))
    {
      ghost var now := s.Snap();
      ok := WriteItem(s, f, vs[i]);
      PackedUnfold(f, vs, i);
      WroteValid(now, s.Snap(), ok, EncodeItem(f, vs[i]));
      WroteStep(before, now, s.Snap(), ok, done, EncodeItem(f, vs[i]), EncodePacked(f, vs[i + 1..]));
      if !ok { return; }
      done := Then(done, EncodeItem(f, vs[i]));
      i := i + 1;
    }
    PackedEnd(f, vs, done);
    return true;
  }

  lemma PackedStart(f: Field, vs: seq<Value>)
    requires forall k | 0 <= k < |vs| :: TypedValue(f, vs[k])
    ensures vs[0..] == vs
    ensures EncodePacked(f, vs) == Then(Some([]), EncodePacked(f, vs))
    ensures EncodeUnpacked(f, vs) == Then(Some([]), EncodeUnpacked(f, vs))
  {
    var p, u := EncodePacked(f, vs), EncodeUnpacked(f, vs);
    if p.Some? { assert [] + p.value == p.value; }
    if u.Some? { assert [] + u.value == u.value; }
  }

  lemma PackedEnd(f: Field, vs: seq<Value>, done: Option<seq<byte>>)
    requires forall k | 0 <= k < |vs| :: TypedValue(f, vs[k])
    ensures vs[|vs|..] == [] && Then(done, EncodePacked(f, [])) == done && Then(done, EncodeUnpacked(f, [])) == done
  {
    if done.Some? { assert done.value + [] == done.value; }
  }

  lemma WroteValid(before: Snapshot, after: Snapshot, ok: bool, enc: Option<seq<byte>>)
    requires before.Valid() && Wrote(before, after, ok, enc)
    ensures after.Valid()
  {
  }

  /** The loop over the entries of an unpacked array. */
  method WriteUnpacked(s: OStream, f: Field, vs: seq<Value>) returns (ok: bool)
    requires s.Snap().Valid() && TaggedField(f) && forall k | 0 <= k < |vs| :: TypedValue(f, vs[k])
    modifies s, s.dest
    ensures Wrote(old(s.Snap()), s.Snap(), ok, EncodeUnpacked(f, vs))
    decreases f, 3
  {
    hide Wrote, EncodeItem, TypedValue, TaggedField, EncodeUnpacked;
    ghost var before, done := s.Snap(), Some([]);
    WroteNothing(before);
    PackedStart(f, vs);
    var i := 0;
    while i < |vs|
      invariant 0 <= i <= |vs| && s.Snap().Valid()
      invariant Wrote(before, s.Snap(), true, done)
      invariant EncodeUnpacked(f, vs) == Then(done, EncodeUnpacked(f, vs[i..]))
    {
      ghost var now := s.Snap();
      ghost var item := Then(Some(FieldTag(f)), EncodeItem(f, vs[i]));
      ok := WriteTagged(s, f, vs[i]);
      PackedUnfold(f, vs, i);
      WroteValid(now, s.Snap(), ok, item);
      WroteStep(before, now, s.Snap(), ok, done, item, EncodeUnpacked(f, vs[i + 1..]));
      if !ok { return; }
      done := Then(done, item);
      i := i + 1;
    }
    PackedEnd(f, vs, done);
    return true;
  }

  /** A value under its own tag. */
  method WriteTagged(s: OStream, f: Field, v: Value) returns (ok: bool)
    requires s.Snap().Valid() && TaggedField(f) && TypedValue(f, v)
    modifies s, s.dest
    ensures Wrote(old(s.Snap()), s.Snap(), ok, Then(Some(FieldTag(f)), EncodeItem(f, v)))
    decreases f, 2
  {
    hide EncodeItem, TypedValue, TaggedField;
    ghost var before := s.Snap();
    ok := EncodeTag(s, WireType(f.ltype), f.tag);
    ghost var mid := s.Snap();
    WroteBytes(before, mid, ok, FieldTag(f));
    if !ok {
      WroteFailed(before, mid, Some(FieldTag(f)), EncodeItem(f, v));
      return;
    }
    ok := WriteItem(s, f, v);
    WroteThen(before, mid, s.Snap(), ok, Some(FieldTag(f)), EncodeItem(f, v));
  }

  lemma {:induction false} FixedPackedLength(f: Field, vs: seq<Value>, width: nat)
    requires forall k | 0 <= k < |vs| :: TypedValue(f, vs[k])
    requires (f.ltype.FIXED32? && width == 4) || (f.ltype.FIXED64? && width == 8)
    ensures EncodePacked(f, vs).Some? && |EncodePacked(f, vs).value| == width * |vs|
  {
    if vs != [] { FixedPackedLength(f, vs[1..], width); }
  }

  /** The packed branch of encode_array. */
  method WritePackedArray(s: OStream, f: Field, vs: seq<Value>) returns (ok: bool)
    requires s.Snap().Valid() && TaggedField(f) && Packable(f.ltype) && forall k | 0 <= k < |vs| :: TypedValue(f, vs[k])
    modifies s, s.dest
    ensures Wrote(old(s.Snap()), s.Snap(), ok,
              match EncodePacked(f, vs)
              case None => None
              case Some(body) => Some(TagBytes(WT_STRING, f.tag) + Prefixed(body)))
    decreases f, 4
  {
    hide EncodeItem, TypedValue, TaggedField, EncodePacked, TagBytes;
    ghost var before, body := s.Snap(), EncodePacked(f, vs);
    ghost var tag := Some(TagBytes(WT_STRING, f.tag));
    ok := EncodeTag(s, WT_STRING, f.tag);
    ghost var s1 := s.Snap();
    WroteBytes(before, s1, ok, tag.value);
    if !ok { return; }
    var size: nat;
    if f.ltype.FIXED32? {
      FixedPackedLength(f, vs, 4);
      size := 4 * |vs|;
    } else if f.ltype.FIXED64? {
      FixedPackedLength(f, vs, 8);
      size := 8 * |vs|;
    } else {
      var sizing := new OStream.Sizing();
      ok := WritePacked(sizing, f, vs);
      if !ok { return; }
      size := sizing.bytesWritten;
    }
    assert body.Some? && size == |body.value|;
    ok := EncodeVarint(s, size % TWO64);
    ghost var s2, length := s.Snap(), Some(SizeBytes(size));
    WroteBytes(s1, s2, ok, length.value);
    WroteStep(before, s1, s2, ok, tag, length, body);
    PackedBytes(tag.value, body.value);
    if !ok { return; }
    if !s.writing {
      s.Count(size);
      WroteBytes(s2, s.Snap(), true, body.value);
    } else {
      ok := WritePacked(s, f, vs);
    }
    WroteThen(before, s2, s.Snap(), ok, Then(tag, length), body);
  }

  lemma PackedBytes(tag: seq<byte>, body: seq<byte>)
    ensures Then(Then(Some(tag), Some(SizeBytes(|body|))), Some(body)) == Some(tag + Prefixed(body))
  {
    assert tag + SizeBytes(|body|) + body == tag + Prefixed(body);
  }

  /** encode_array. */
  method WriteArray(s: OStream, f: Field, vs: seq<Value>, count: nat) returns (ok: bool)
    requires s.Snap().Valid() && TaggedField(f)
    requires |vs| == f.arraySize && forall k | 0 <= k < |vs| :: TypedValue(f, vs[k])
    modifies s, s.dest
    ensures Wrote(old(s.Snap()), s.Snap(), ok, EncodeArray(f, vs, count))
    decreases f, 5
  {
    hide EncodePacked, EncodeUnpacked, EncodeItem, TypedValue, TaggedField;
    if count == 0 {
      WroteNothing(s.Snap());
      return true;
    }
    if count > f.arraySize { return false; }
    if Packable(f.ltype) {
      ok := WritePackedArray(s, f, vs[..count]);
    } else {
      ok := WriteUnpacked(s, f, vs[..count]);
    }
  }

  /** encode_basic_field for a static field. */
  method WriteField(s: OStream, f: Field, sl: Slot) returns (ok: bool)
    requires s.Snap().Valid() && TaggedField(f) && TypedSlot(f, sl)
    modifies s, s.dest
    ensures Wrote(old(s.Snap()), s.Snap(), ok, EncodeField(f, sl))
    decreases f, 6
  {
    hide EncodeItem, EncodeArray, TaggedField, TypedValue, Wrote;
    if f.htype.REPEATED? {
      ok := WriteArray(s, f, sl.items, if f.sizeOffset != 0 then sl.size else f.arraySize);
      return;
    }
    var present := true;
    if f.htype.OPTIONAL? {
      if f.sizeOffset != 0 {
        present := sl.size != 0;
      } else {
        var default := CheckDefault(f, sl);
        present := !default;
      }
    } else if f.htype.ONEOF? {
      present := sl.size == f.tag;
    }
    if !present {
      WroteNothing(s.Snap());
      return true;
    }
    ok := WriteTagged(s, f, sl.items[0]);
  }

  /** pb_encode. */
  method WriteMessage(s: OStream, t: seq<Field>, slots: seq<Slot>) returns (ok: bool)
    requires s.Snap().Valid() && Tagged(t) && TypedStruct(t, slots)
    modifies s, s.dest
    ensures Wrote(old(s.Snap()), s.Snap(), ok, EncodeMessage(t, slots))
    decreases t, 0
  {
    hide Wrote, EncodeField, TypedSlot, TaggedField;
    ghost var before, done := s.Snap(), Some([]);
    WroteNothing(before);
    MessageStart(t, slots);
    TagsNotZero(t);
    var it := new FieldIter(t);
    if t == [] { return true; }
    var more := true;
    while more
      invariant it.Valid() && it.table == t && s.Snap().Valid()
      invariant Wrote(before, s.Snap(), true, done)
      invariant EncodeMessage(t, slots) == Then(done, EncodeFrom(t, slots, if more then it.pos else |t|))
      decreases more, |t| - it.pos
    {
      ghost var now, i := s.Snap(), it.pos;
      ghost var item := EncodeField(t[i], slots[SlotOf(t, i)]);
      ok := WriteField(s, t[it.pos], slots[SlotOf(t, it.pos)]);
      MessageUnfold(t, slots, i);
      WroteValid(now, s.Snap(), ok, item);
      WroteStep(before, now, s.Snap(), ok, done, item, EncodeFrom(t, slots, i + 1));
      if !ok { return; }
      done := Then(done, item);
      more := it.Next();
    }
    MessageEnd(t, slots, done);
    return true;
  }

  lemma TagsNotZero(t: seq<Field>)
    requires Tagged(t)
    ensures forall j | 0 <= j < |t| :: t[j].tag != 0
  {
    forall j | 0 <= j < |t| ensures t[j].tag != 0 { assert TaggedField(t[j]); }
  }

  lemma MessageStart(t: seq<Field>, slots: seq<Slot>)
    requires TypedStruct(t, slots)
    ensures EncodeMessage(t, slots) == Then(Some([]), EncodeFrom(t, slots, 0))
    ensures t == [] ==> EncodeMessage(t, slots) == Some([])
  {
    var e := EncodeFrom(t, slots, 0);
    if e.Some? { assert [] + e.value == e.value; }
  }

  lemma MessageUnfold(t: seq<Field>, slots: seq<Slot>, i: nat)
    requires TypedStruct(t, slots) && i < |t|
    ensures TypedSlot(t[i], slots[SlotOf(t, i)])
    ensures EncodeFrom(t, slots, i) == Then(EncodeField(t[i], slots[SlotOf(t, i)]), EncodeFrom(t, slots, i + 1))
  {
    hide EncodeField;
  }

  lemma MessageEnd(t: seq<Field>, slots: seq<Slot>, done: Option<seq<byte>>)
    requires TypedStruct(t, slots)
    ensures Then(done, EncodeFrom(t, slots, |t|)) == done
  {
    if done.Some? { assert done.value + [] == done.value; }
  }

  /** pb_get_encoded_size: the length of the encoding, whenever there is one. */
  method EncodedSize(t: seq<Field>, slots: seq<Slot>) returns (ok: bool, size: nat)
    requires Tagged(t) && TypedStruct(t, slots)
    ensures ok <==> EncodeMessage(t, slots).Some?
    ensures ok ==> size == |EncodeMessage(t, slots).value|
  {
    var s := new OStream.Sizing();
    ok := WriteMessage(s, t, slots);
    size := s.bytesWritten;
  }

  /** Encoding into a buffer succeeds exactly when the sizing pass does and its result fits, and fills exactly that much. */
  method EncodeToBuffer(buf: array<byte>, t: seq<Field>, slots: seq<Slot>) returns (ok: bool, size: nat)
    requires Tagged(t) && TypedStruct(t, slots)
    modifies buf
    ensures ok <==> EncodeMessage(t, slots).Some? && |EncodeMessage(t, slots).value| <= buf.Length
    ensures ok ==> size == |EncodeMessage(t, slots).value| && buf[..] == EncodeMessage(t, slots).value + old(buf[size..])
  {
    var s := new OStream.FromBuffer(buf);
    ok := WriteMessage(s, t, slots);
    size := s.bytesWritten;
  }
}
