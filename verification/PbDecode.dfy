/**
 The nanopb decoder over a memory buffer, proved against PbDecodeSpec. On success
 every decoder keeps cursor + bytes_left, so it never reads past its (sub)stream.
 */
module PbDecode {
  import opened Common
  import opened PbWire
  import opened PbSchema
  import opened PbEncodeSpec
  import opened PbDecodeSpec
  import opened PbIterator
  import opened PbRequired

  // ---------- one round of each decoding loop ----------

  lemma Varint64Unfold(bs: seq<byte>, bitpos: nat, acc: nat)
    ensures Varint64From(bs, bitpos, acc) ==
      if bitpos >= 64 || bs == [] then Fail
      else if bs[0] < 128 then Got(OrIn(acc, Low7(bs[0]), bitpos, TWO64), bs[1..])
      else Varint64From(bs[1..], bitpos + 7, OrIn(acc, Low7(bs[0]), bitpos, TWO64))
  {
    hide OrIn;
  }

  lemma Varint32Unfold(bs: seq<byte>, bitpos: nat, acc: nat)
    ensures Varint32From(bs, bitpos, acc) ==
      if bs == [] then Fail
      else
        match Varint32Step(bs[0], bitpos, acc)
        case None => Fail
        case Some(acc') =>
          if bs[0] >= 128 then Varint32From(bs[1..], NextBitpos(bitpos), acc')
          else if NextBitpos(bitpos) == 35 && bs[0] >= 16 then Fail
          else Got(acc', bs[1..])
  {
    hide Varint32Step;
  }

  /** pb_istream_t over a buffer. */
  class IStream {
    const buf: seq<byte>
    var state: nat
    var bytesLeft: nat

    ghost predicate Valid()
      reads this
    {
      state + bytesLeft <= |buf|
    }

    ghost function End(): nat
      reads this
    {
      state + bytesLeft
    }

    /** What is left to read. */
    ghost function Rest(): (r: seq<byte>)
      requires Valid()
      reads this
      ensures |r| == bytesLeft
    {
      buf[state..state + bytesLeft]
    }

    /** A read that began at `start` with the stream ending at `end` went as `r` says. */
    ghost predicate Went<T>(r: Read<T>, start: nat, end: nat, ok: bool, value: T)
      reads this
    {
      && Valid() && start <= state && End() <= end
      && (ok <==> r.Got?)
      && (ok ==> value == r.value && Rest() == r.rest && End() == end)
    }

    /** pb_istream_from_buffer. */
    constructor (data: seq<byte>)
      ensures Valid() && Rest() == data && state == 0 && End() == |data| && buf == data
    {
      buf, state, bytesLeft := data, 0, |data|;
      new;
      assert buf[0..|data|] == data;
    }

    /** The substream of pb_make_string_substream. */
    constructor Sub(parent: IStream, size: nat)
      requires parent.Valid() && size <= parent.bytesLeft
      ensures Valid() && buf == parent.buf && state == parent.state && bytesLeft == size
      ensures Rest() == parent.Rest()[..size]
    {
      buf, state, bytesLeft := parent.buf, parent.state, size;
    }

    /** pb_read. */
    method Read(count: nat) returns (ok: bool, data: seq<byte>)
      requires Valid()
      modifies this
      ensures Valid() && (ok <==> count <= old(bytesLeft))
      ensures ok ==> data == old(Rest())[..count] && Rest() == old(Rest())[count..] && End() == old(End()) && state == old(state) + count
      ensures !ok ==> state == old(state) && bytesLeft == old(bytesLeft)
    {
      if bytesLeft < count { return false, []; }
      data := buf[state..state + count];
      state := state + count;
      bytesLeft := bytesLeft - count;
      ok := true;
    }

    /** pb_readbyte. */
    method ReadByte() returns (ok: bool, b: byte)
      requires Valid()
      modifies this
      ensures Valid() && (ok <==> old(bytesLeft) > 0)
      ensures ok ==> b == old(Rest())[0] && Rest() == old(Rest())[1..] && End() == old(End()) && state == old(state) + 1
      ensures !ok ==> state == old(state) && bytesLeft == old(bytesLeft)
    {
      if bytesLeft == 0 { return false, 0; }
      b := buf[state];
      state := state + 1;
      bytesLeft := bytesLeft - 1;
      ok := true;
    }

    /** pb_decode_varint. */
    method DecodeVarint64() returns (ok: bool, value: nat)
      requires Valid()
      modifies this
      ensures Went(Varint64(old(Rest())), old(state), old(End()), ok, value)
    {
      hide Varint64From, OrIn;
      var bitpos: nat := 0;
      value := 0;
      while true
        invariant Valid() && End() == old(End()) && old(state) <= state
        invariant Varint64(old(Rest())) == Varint64From(Rest(), bitpos, value)
        decreases bytesLeft
      {
        Varint64Unfold(Rest(), bitpos, value);
        if bitpos >= 64 { return false, 0; }
        var got, b := ReadByte();
        if !got { return false, 0; }
        value := OrIn(value, Low7(b), bitpos, TWO64);
        bitpos := bitpos + 7;
        if b < 128 { return true, value; }
      }
    }

    /** pb_decode_varint32_eof; `eof` when the stream was empty to begin with. */
    method DecodeVarint32() returns (ok: bool, value: nat, eof: bool)
      requires Valid()
      modifies this
      ensures Went(Varint32(old(Rest())), old(state), old(End()), ok, value)
      ensures eof <==> old(bytesLeft) == 0
    {
      hide Varint32From, OrIn;
      eof, value := false, 0;
      var b: byte;
      ok, b := ReadByte();
      if !ok {
        eof := bytesLeft == 0;
        return;
      }
      if b < 128 { return true, b, false; }
      var bitpos: nat := 7;
      value := Low7(b);
      while true
        invariant Valid() && End() == old(End()) && old(state) <= state && !eof
        invariant Varint32(old(Rest())) == Varint32From(Rest(), bitpos, value)
        decreases bytesLeft
      {
        Varint32Unfold(Rest(), bitpos, value);
        ok, b := ReadByte();
        if !ok { return; }
        if bitpos >= 32 {
          var signExtension := if bitpos < 63 then 0xFF else 0x01;
          if Low7(b) != 0 && (value < TWO31 || b != signExtension) { return false, 0, false; }
        } else {
          value := OrIn(value, Low7(b), bitpos, TWO32);
        }
        bitpos := NextBitpos(bitpos);
        if b < 128 {
          if bitpos == 35 && b >= 16 { return false, 0, false; }
          return true, value, false;
        }
      }
    }

    /** pb_skip_varint. */
    method SkipVarintBytes() returns (ok: bool)
      requires Valid()
      modifies this
      ensures Went(SkipVarint(old(Rest())), old(state), old(End()), ok, ())
    {
      while true
        invariant Valid() && End() == old(End()) && old(state) <= state
        invariant SkipVarint(old(Rest())) == SkipVarint(Rest())
        decreases bytesLeft
      {
        var got, b := ReadByte();
        if !got { return false; }
        if b < 128 { return true; }
      }
    }

    /** A length and that many bytes: pb_skip_string and the readers of strings and bytes. */
    method ReadPayload() returns (ok: bool, data: seq<byte>)
      requires Valid()
      modifies this
      ensures Went(DecodePayload(old(Rest())), old(state), old(End()), ok, data)
    {
      hide Varint32;
      var size, eof;
      ok, size, eof := DecodeVarint32();
      if !ok { return false, []; }
      ok, data := Read(size);
    }

    /** pb_decode_tag on a stream that is not empty. */
    method ReadTag() returns (ok: bool, wireType: nat, tag: nat, eof: bool)
      requires Valid() && bytesLeft > 0
      modifies this
      ensures Valid() && End() <= old(End()) && old(state) <= state
      ensures DecodeTag(old(Rest())).TagFail? ==> !ok && !eof
      ensures DecodeTag(old(Rest())).TagStop? ==> !ok && eof && Rest() == DecodeTag(old(Rest())).rest && End() == old(End())
      ensures DecodeTag(old(Rest())).TagGot? ==> ok && DecodeTag(old(Rest())) == TagGot(wireType, tag, Rest()) && End() == old(End())
    {
      hide Varint32;
      var word;
      wireType, tag := 0, 0;
      ok, word, eof := DecodeVarint32();
      if !ok { return; }
      if word == 0 { return false, 0, 0, true; }
      return true, word % 8, word / 8, false;
    }

    /** pb_skip_field. */
    method Skip(wireType: nat) returns (ok: bool)
      requires Valid()
      modifies this
      ensures Went(SkipField(wireType, old(Rest())), old(state), old(End()), ok, ())
    {
      hide SkipVarint, DecodePayload;
      var data;
      if wireType == WT_VARINT {
        ok := SkipVarintBytes();
      } else if wireType == WT_64BIT {
        ok, data := Read(8);
      } else if wireType == WT_STRING {
        ok, data := ReadPayload();
      } else if wireType == WT_32BIT {
        ok, data := Read(4);
      } else {
        ok := false;
      }
    }

    /** pb_make_string_substream. */
    method MakeSubstream() returns (ok: bool, sub: IStream?)
      requires Valid()
      modifies this
      ensures Valid() && End() <= old(End()) && old(state) <= state
      ensures ok <==> DecodePayload(old(Rest())).Got?
      ensures ok ==> sub != null && fresh(sub) && sub.Valid() && sub.buf == buf && sub.state == state
      ensures ok ==> sub.Rest() == DecodePayload(old(Rest())).value
      ensures ok ==> sub.End() + bytesLeft == old(End()) && buf[sub.End()..old(End())] == DecodePayload(old(Rest())).rest
    {
      hide Varint32;
      var size, eof;
      sub := null;
      ok, size, eof := DecodeVarint32();
      if !ok { return; }
      if bytesLeft < size { return false, null; }
      sub := new IStream.Sub(this, size);
      bytesLeft := bytesLeft - size;
    }

    /** pb_close_string_substream: whatever the substream left is skipped. */
    method CloseSubstream(sub: IStream)
      requires Valid() && sub.Valid() && sub != this && sub.buf == buf && sub.End() + bytesLeft <= |buf|
      modifies this, sub
      ensures Valid() && state == old(sub.End()) && bytesLeft == old(bytesLeft)
    {
      if sub.bytesLeft > 0 {
        var ok, data := sub.Read(sub.bytesLeft);
      }
      state := sub.state;
    }
  }

  // ---------- values ----------

  /** pb_dec_varint. */
  method ReadVarintItem(s: IStream, dataSize: int) returns (ok: bool, v: Value)
    requires s.Valid()
    modifies s
    ensures s.Went(DecodeVarintItem(dataSize, old(s.Rest())), old(s.state), old(s.End()), ok, v)
  {
    hide Varint64;
    var value;
    v := Int(0);
    ok, value := s.DecodeVarint64();
    if !ok { return; }
    var svalue := if dataSize == 8 then CastSigned(value, TWO63) else CastSigned(value, TWO31);
    if !ScalarWidth(dataSize) { return false, v; }
    if svalue < -SignedLimit(dataSize) || svalue >= SignedLimit(dataSize) { return false, v; }
    v := Int(svalue);
  }

  /** pb_dec_uvarint. */
  method ReadUvarintItem(s: IStream, dataSize: int) returns (ok: bool, v: Value)
    requires s.Valid()
    modifies s
    ensures s.Went(DecodeUvarintItem(dataSize, old(s.Rest())), old(s.state), old(s.End()), ok, v)
  {
    hide Varint64;
    var value;
    v := Int(0);
    ok, value := s.DecodeVarint64();
    if !ok { return; }
    if !ScalarWidth(dataSize) || value >= 2 * SignedLimit(dataSize) { return false, v; }
    v := Int(value);
  }

  /** pb_dec_svarint. */
  method ReadSvarintItem(s: IStream, dataSize: int) returns (ok: bool, v: Value)
    requires s.Valid()
    modifies s
    ensures s.Went(DecodeSvarintItem(dataSize, old(s.Rest())), old(s.state), old(s.End()), ok, v)
  {
    hide Varint64;
    var value;
    v := Int(0);
    ok, value := s.DecodeVarint64();
    if !ok { return; }
    var svalue := UnZigZag(value % TWO64);
    if !ScalarWidth(dataSize) || svalue < -SignedLimit(dataSize) || svalue >= SignedLimit(dataSize) { return false, v; }
    v := Int(svalue);
  }

  /** pb_dec_fixed32 and pb_dec_fixed64. */
  method ReadFixedItem(s: IStream, width: nat) returns (ok: bool, v: Value)
    requires s.Valid()
    modifies s
    ensures s.Went(DecodeFixedItem(width, old(s.Rest())), old(s.state), old(s.End()), ok, v)
  {
    var data;
    ok, data := s.Read(width);
    v := Int(FromLittleEndian(data));
  }

  /** pb_dec_bytes: the length is checked against the buffer before anything is read. */
  method ReadBytesItem(s: IStream, dataSize: int, prev: Value) returns (ok: bool, v: Value)
    requires s.Valid()
    modifies s
    ensures s.Went(DecodeBytesItem(dataSize, old(s.Rest()), prev), old(s.state), old(s.End()), ok, v)
  {
    hide Varint32;
    v := Int(0);
    var size, eof, data;
    ok, size, eof := s.DecodeVarint32();
    if !ok { return; }
    if size > PB_SIZE_MAX || size + BYTES_HEADER > dataSize { return false, v; }
    ok, data := s.Read(size);
    if ok { v := Bytes(size, data + Buffer(prev, dataSize - BYTES_HEADER)[size..]); }
  }

  /** pb_dec_string: room for the terminating NUL is required. */
  method ReadStringItem(s: IStream, dataSize: int, prev: Value) returns (ok: bool, v: Value)
    requires s.Valid()
    modifies s
    ensures s.Went(DecodeStringItem(dataSize, old(s.Rest()), prev), old(s.state), old(s.End()), ok, v)
  {
    hide Varint32;
    v := Int(0);
    var size, eof, data;
    ok, size, eof := s.DecodeVarint32();
    if !ok { return; }
    if size + 1 > dataSize { return false, v; }
    ok, data := s.Read(size);
    if ok { v := Str(data + [0] + Buffer(prev, dataSize)[size + 1..]); }
  }

  /** pb_dec_fixed_length_bytes: an empty string stands for all zeros. */
  method ReadFixedLengthItem(s: IStream, dataSize: pb_size) returns (ok: bool, v: Value)
    requires s.Valid()
    modifies s
    ensures s.Went(DecodeFixedLengthItem(dataSize, old(s.Rest())), old(s.state), old(s.End()), ok, v)
  {
    hide Varint32;
    v := Int(0);
    var size, eof, data;
    ok, size, eof := s.DecodeVarint32();
    if !ok { return; }
    if size == 0 { return true, Fixed(Zeros(dataSize)); }
    if size != dataSize { return false, v; }
    ok, data := s.Read(dataSize);
    if ok { v := Fixed(data); }
  }

  // ---------- fields and messages ----------

  /** The decoder PB_DECODERS selects for the field. */
  method ReadItem(s: IStream, f: Field, prev: Value) returns (ok: bool, v: Value)
    requires s.Valid() && Tagged(f.sub)
    modifies s
    ensures s.Went(DecodeItem(f, old(s.Rest()), prev), old(s.state), old(s.End()), ok, v)
    decreases f, 1
  {
    hide DecodeVarintItem, DecodeUvarintItem, DecodeSvarintItem, DecodeFixedItem, DecodeBytesItem, DecodeStringItem, DecodeFixedLengthItem;
    match f.ltype
    case VARINT => ok, v := ReadVarintItem(s, f.dataSize);
    case UVARINT => ok, v := ReadUvarintItem(s, f.dataSize);
    case SVARINT => ok, v := ReadSvarintItem(s, f.dataSize);
    case FIXED32 => ok, v := ReadFixedItem(s, 4);
    case FIXED64 => ok, v := ReadFixedItem(s, 8);
    case BYTES => ok, v := ReadBytesItem(s, f.dataSize, prev);
    case STRING => ok, v := ReadStringItem(s, f.dataSize, prev);
    case FIXED_LENGTH_BYTES => ok, v := ReadFixedLengthItem(s, f.dataSize);
    case SUBMESSAGE => ok, v := ReadSubmessage(s, f, prev);
  }

  /** pb_field_set_to_default for a static field. */
  method SetToDefault(f: Field, sl: Slot) returns (r: Slot)
    requires Tagged(f.sub)
    ensures r == DefaultSlot(f, sl)
    decreases f
  {
    var size := sl.size;
    if f.htype.OPTIONAL? && f.sizeOffset != 0 {
      size := 0;
    } else if f.htype.REPEATED? || f.htype.ONEOF? {
      if FixedCount(f) && !f.ltype.SUBMESSAGE? { return sl.(items := ClearedArray(f, sl.items)); }
      return sl.(size := 0);
    }
    if f.ltype.SUBMESSAGE? {
      var prev := if |sl.items| == 1 && sl.items[0].Msg? && |sl.items[0].slots| == |f.sub| then sl.items[0].slots else ZeroStruct(f.sub);
      var slots := SetToDefaults(f.sub, prev);
      return Slot(size, [Msg(slots)]);
    }
    return Slot(size, [if f.init.Some? then f.init.value else ZeroValue(f)]);
  }

  /** pb_message_set_to_defaults. */
  method SetToDefaults(t: seq<Field>, s: seq<Slot>) returns (r: seq<Slot>)
    requires Tagged(t) && |s| == |t|
    ensures r == DefaultStruct(t, s)
    decreases t
  {
    hide DefaultSlot;
    r := s;
    if t == [] { return; }
    var it := new FieldIter(t);
    var more := true;
    while more
      invariant it.Valid() && it.table == t && |r| == |t|
      invariant more ==> forall j | 0 <= j < |t| :: r[j] == if j < it.pos then DefaultSlot(t[j], s[j]) else s[j]
      invariant !more ==> r == DefaultStruct(t, s)
      decreases more, |t| - it.pos
    {
      var d := SetToDefault(t[it.pos], s[it.pos]);
      r := r[it.pos := d];
      more := it.Next();
    }
  }

  method Prepare(f: Field, prev: Value) returns (dest: seq<Slot>)
    requires Tagged(f.sub)
    ensures dest == Prepared(f, prev)
  {
    dest := StructOf(f.sub, prev);
    if f.htype.REPEATED? { dest := SetToDefaults(f.sub, dest); }
  }

  lemma SubmessageItem(f: Field, bs: seq<byte>, prev: Value)
    requires f.ltype.SUBMESSAGE?
    ensures match DecodePayload(bs)
      case Fail => DecodeItem(f, bs, prev) == Fail
      case Got(body, rest) =>
        match DecodeNoInit(f.sub, body, Prepared(f, prev))
        case None => DecodeItem(f, bs, prev) == Fail
        case Some(slots) => DecodeItem(f, bs, prev) == Got(Msg(slots), rest)
  {
  }

  /** pb_dec_submessage. */
  method ReadSubmessage(s: IStream, f: Field, prev: Value) returns (ok: bool, v: Value)
    requires s.Valid() && f.ltype.SUBMESSAGE? && Tagged(f.sub)
    modifies s
    ensures s.Went(DecodeItem(f, old(s.Rest()), prev), old(s.state), old(s.End()), ok, v)
    decreases f, 0
  {
    hide DecodePayload, DecodeNoInit, Unread, Prepared, Tagged, DecodeItem;
    SubmessageItem(f, s.Rest(), prev);
    v := Int(0);
    var sub;
    ok, sub := s.MakeSubstream();
    if !ok { return; }
    var dest := Prepare(f, prev);
    var slots;
    ok, slots := ReadMessage(sub, f.sub, dest);
    if ok {
      s.CloseSubstream(sub);
      v := Msg(slots);
    }
  }

  /** The loop over a packed payload in decode_static_field. */
  method ReadPacked(sub: IStream, f: Field, entries: seq<Value>, start: nat) returns (ok: bool, items: seq<Value>, count: nat)
    requires sub.Valid() && Tagged(f.sub) && |entries| == f.arraySize
    modifies sub
    ensures sub.Valid() && sub.End() <= old(sub.End()) && old(sub.state) <= sub.state
    ensures ok <==> DecodePacked(f, old(sub.Rest()), entries, start).Some?
    ensures ok ==> DecodePacked(f, old(sub.Rest()), entries, start) == Some((items, count)) && sub.End() == old(sub.End())
    decreases f, 2
  {
    hide DecodeItem;
    items, count := entries, start;
    while sub.bytesLeft > 0 && count < f.arraySize
      invariant sub.Valid() && sub.End() == old(sub.End()) && old(sub.state) <= sub.state && |items| == f.arraySize
      invariant DecodePacked(f, old(sub.Rest()), entries, start) == DecodePacked(f, sub.Rest(), items, count)
      decreases f.arraySize - count
    {
      var v;
      ok, v := ReadItem(sub, f, items[count]);
      if !ok { return; }
      items := items[count := v];
      count := count + 1;
    }
    ok := sub.bytesLeft == 0;
  }

  /** The repeated case of decode_static_field. */
  method ReadRepeated(s: IStream, f: Field, wireType: nat, sl: Slot, count: nat) returns (ok: bool, r: (Slot, nat))
    requires s.Valid() && Tagged(f.sub) && |sl.items| == f.arraySize
    modifies s
    ensures s.Went(DecodeRepeated(f, wireType, old(s.Rest()), sl, count), old(s.state), old(s.End()), ok, r)
    decreases f, 3
  {
    hide DecodePayload, DecodePacked, DecodeItem;
    r := (sl, count);
    if wireType == WT_STRING && Packable(f.ltype) {
      var sub, items, n;
      ok, sub := s.MakeSubstream();
      if !ok { return; }
      ok, items, n := ReadPacked(sub, f, sl.items, count);
      if !ok { return; }
      s.CloseSubstream(sub);
      r := (CountedSlot(f, sl, items, n), n);
    } else {
      if count >= f.arraySize { return false, r; }
      var v;
      ok, v := ReadItem(s, f, sl.items[count]);
      if ok { r := (CountedSlot(f, sl, sl.items[count := v], count + 1), count + 1); }
    }
  }

  /** decode_static_field. */
  method ReadSlot(s: IStream, f: Field, wireType: nat, sl: Slot, count: nat) returns (ok: bool, r: (Slot, nat))
    requires s.Valid() && Tagged(f.sub) && |sl.items| == if f.htype.REPEATED? then f.arraySize else 1
    modifies s
    ensures s.Went(DecodeSlot(f, wireType, old(s.Rest()), sl, count), old(s.state), old(s.End()), ok, r)
    decreases f, 4
  {
    hide DecodeItem, DecodeRepeated;
    r := (sl, count);
    if f.htype.REPEATED? {
      ok, r := ReadRepeated(s, f, wireType, sl, count);
    } else {
      var v;
      ok, v := ReadItem(s, f, Destination(f, sl));
      if ok { r := (Slot(SizeCell(f, sl), [v]), count); }
    }
  }

  ghost predicate SeenInTable(t: seq<Field>, seen: set<nat>) {
    forall k | k in seen :: k < RequiredIndex(t, |t|)
  }

  /** The iterator and the bitset used while decoding. */
  ghost predicate Tracking(t: seq<Field>, it: FieldIter, fs: FieldsSeen)
    reads it, fs, fs.words
  {
    it.Valid() && it.table == t && fs.Valid() && SeenInTable(t, fs.seen)
  }

  /** What one round of pb_decode_noinit must do, given DecodeOne's verdict. */
  ghost predicate RoundWent(r: Outcome, st: DState, rest: seq<byte>, ok: bool, stopped: bool) {
    match r
    case Error => !ok
    case Done(st', rest', stopped') => ok && st' == st && rest' == rest && stopped' == stopped
  }

  /** One round of the loop of pb_decode_noinit, from a tag to the end of its field. */
  method ReadOne(s: IStream, t: seq<Field>, it: FieldIter, fs: FieldsSeen,
                 slots: seq<Slot>, fixedField: Option<nat>, fixedSize: nat)
    returns (ok: bool, stopped: bool, slots': seq<Slot>, fixedField': Option<nat>, fixedSize': nat)
    requires s.Valid() && s.bytesLeft > 0 && Tagged(t) && Tracking(t, it, fs)
    requires Consistent(t, DState(slots, fs.seen, it.pos, fixedField, fixedSize))
    modifies s, it, fs, fs.words
    ensures s.Valid() && s.End() <= old(s.End()) && old(s.state) <= s.state && Tracking(t, it, fs)
    ensures RoundWent(DecodeOne(t, old(s.Rest()), DState(slots, old(fs.seen), old(it.pos), fixedField, fixedSize)),
              DState(slots', fs.seen, it.pos, fixedField', fixedSize'), s.Rest(), ok, stopped)
    ensures ok ==> s.End() == old(s.End())
    decreases t, 0
  {
    hide DecodeTag, SkipField, DecodeField, FindField, RequiredIndex, SeenInTable, FieldsSeen.Valid;
    slots', fixedField', fixedSize', stopped := slots, fixedField, fixedSize, false;
    var wireType, tag, eof;
    ok, wireType, tag, eof := s.ReadTag();
    if !ok {
      return eof, eof, slots, fixedField, fixedSize;
    }
    var found := it.Find(tag);
    if !found {
      ok := s.Skip(wireType);
      return;
    }
    if t == [] {
      // The terminator decodes as a varint field whose data_size is invalid.
      var v;
      ok, v := ReadVarintItem(s, 0);
      return;
    }
    ok, slots', fixedField', fixedSize' := ReadField(s, t, it, fs, wireType, slots, fixedField, fixedSize, old(it.pos));
  }

  lemma TagsBelow(t: seq<Field>, j: nat)
    requires Tagged(t) && j < |t|
    ensures Tagged(t[j].sub)
  {
    assert TaggedField(t[j]);
  }

  /** The round once the iterator stands on the field's entry. */
  method ReadField(s: IStream, t: seq<Field>, it: FieldIter, fs: FieldsSeen, wireType: nat,
                   slots: seq<Slot>, fixedField: Option<nat>, fixedSize: nat, ghost from: nat)
    returns (ok: bool, slots': seq<Slot>, fixedField': Option<nat>, fixedSize': nat)
    requires s.Valid() && Tagged(t) && Tracking(t, it, fs) && t != []
    requires Consistent(t, DState(slots, fs.seen, from, fixedField, fixedSize))
    modifies s, fs, fs.words
    ensures s.Valid() && s.End() <= old(s.End()) && old(s.state) <= s.state && Tracking(t, it, fs)
    ensures RoundWent(DecodeField(t, it.pos, wireType, old(s.Rest()), DState(slots, old(fs.seen), from, fixedField, fixedSize)),
              DState(slots', fs.seen, it.pos, fixedField', fixedSize'), s.Rest(), ok, false)
    ensures ok ==> s.End() == old(s.End())
    decreases t, 0, 0
  {
    hide DecodeSlot, RequiredIndex, SeenInTable, Tagged;
    TagsBelow(t, it.pos);
    slots', fixedField', fixedSize' := slots, fixedField, fixedSize;
    var j := it.pos;
    var f := t[j];
    if FixedCount(f) && fixedField != Some(j) {
      if fixedField.Some? && fixedSize != t[fixedField.value].arraySize { return false, slots, fixedField, fixedSize; }
      fixedField', fixedSize' := Some(j), 0;
    }
    if f.htype.REQUIRED? && it.requiredFieldIndex < PB_MAX_REQUIRED_FIELDS {
      SeenGrows(t, j, fs.seen);
      fs.Mark(it.requiredFieldIndex);
    }
    var k := SlotOf(t, j);
    if |slots[k].items| != (if f.htype.REPEATED? then f.arraySize else 1) { return false, slots, fixedField', fixedSize'; }
    var r;
    ok, r := ReadSlot(s, f, wireType, slots[k], if FixedCount(f) then fixedSize' else slots[k].size);
    if ok {
      slots' := slots[k := r.0];
      if FixedCount(f) { fixedSize' := r.1; }
    }
  }

  lemma SeenGrows(t: seq<Field>, j: nat, seen: set<nat>)
    requires j < |t| && t[j].htype.REQUIRED? && SeenInTable(t, seen)
    ensures SeenInTable(t, seen + {RequiredIndex(t, j)})
  {
    RequiredMonotone(t, j, |t|);
  }

  lemma LoopUnfold(t: seq<Field>, bs: seq<byte>, st: DState)
    requires Consistent(t, st)
    ensures bs == [] ==> DecodeLoop(t, bs, st) == Done(st, [], false)
    ensures bs != [] ==>
      DecodeLoop(t, bs, st) ==
        match DecodeOne(t, bs, st)
        case Error => Error
        case Done(st', rest, stopped) => if stopped then Done(st', rest, true) else DecodeLoop(t, rest, st')
  {
    hide DecodeOne;
  }

  /** The number of required entries, found by walking the iterator to the end of the table. */
  method CountRequired(t: seq<Field>, it: FieldIter) returns (count: nat)
    requires it.Valid() && it.table == t
    modifies it
    ensures it.Valid() && it.table == t && count == RequiredIndex(t, |t|)
  {
    if t == [] { return 0; }
    var more, lastRequired := true, false;
    count := it.requiredFieldIndex;
    while more
      invariant it.Valid() && it.table == t
      invariant !more ==> count == RequiredIndex(t, |t| - 1) && lastRequired == t[|t| - 1].htype.REQUIRED?
      decreases more, |t| - it.pos
    {
      count := it.requiredFieldIndex;
      lastRequired := t[it.pos].htype.REQUIRED?;
      more := it.Next();
    }
    if lastRequired { count := count + 1; }
  }

  /** pb_decode_noinit. */
  method ReadMessage(s: IStream, t: seq<Field>, dest: seq<Slot>) returns (ok: bool, slots: seq<Slot>)
    requires s.Valid() && Tagged(t) && |dest| == |t|
    modifies s
    ensures s.Valid() && s.End() <= old(s.End()) && old(s.state) <= s.state
    ensures ok <==> DecodeNoInit(t, old(s.Rest()), dest).Some?
    ensures ok ==> DecodeNoInit(t, old(s.Rest()), dest) == Some(slots) && s.End() == old(s.End())
    ensures ok ==> s.Rest() == Unread(t, old(s.Rest()), dest)
    decreases t, 1
  {
    hide DecodeLoop, DecodeOne, RequiredIndex, Suffix;
    slots := dest;
    var fixedField: Option<nat>, fixedSize: nat := None, 0;
    var fs := new FieldsSeen();
    var it := new FieldIter(t);
    var stopped := false;
    ghost var outcome := DecodeLoop(t, s.Rest(), Start(dest));
    ghost var st := Start(dest);
    while s.bytesLeft > 0 && !stopped
      invariant s.Valid() && s.End() == old(s.End()) && old(s.state) <= s.state
      invariant Tracking(t, it, fs) && fresh(it) && fresh(fs) && fresh(fs.words)
      invariant st == DState(slots, fs.seen, it.pos, fixedField, fixedSize) && Consistent(t, st)
      invariant if stopped then outcome == Done(st, s.Rest(), true) else outcome == DecodeLoop(t, s.Rest(), st)
      decreases !stopped, s.bytesLeft
    {
      LoopUnfold(t, s.Rest(), st);
      ghost var bs := s.Rest();
      ok, stopped, slots, fixedField, fixedSize := ReadOne(s, t, it, fs, slots, fixedField, fixedSize);
      if !ok { return; }
      st := DState(slots, fs.seen, it.pos, fixedField, fixedSize);
    }
    LoopUnfold(t, s.Rest(), st);
    assert outcome.Done? && outcome.st == st;
    if fixedField.Some? && fixedSize != t[fixedField.value].arraySize { return false, slots; }
    var count := CountRequired(t, it);
    if count > PB_MAX_REQUIRED_FIELDS { count := PB_MAX_REQUIRED_FIELDS; }
    ok := fs.Complete(count);
  }

  /** pb_decode. */
  method Decode(s: IStream, t: seq<Field>, dest: seq<Slot>) returns (ok: bool, slots: seq<Slot>)
    requires s.Valid() && Tagged(t) && |dest| == |t|
    modifies s
    ensures s.Valid() && s.End() <= old(s.End()) && old(s.state) <= s.state
    ensures ok <==> DecodeMessage(t, old(s.Rest()), dest).Some?
    ensures ok ==> DecodeMessage(t, old(s.Rest()), dest) == Some(slots) && s.End() == old(s.End())
    ensures ok ==> s.Rest() == Unread(t, old(s.Rest()), DefaultStruct(t, dest))
  {
    slots := SetToDefaults(t, dest);
    ok, slots := ReadMessage(s, t, slots);
  }
}
