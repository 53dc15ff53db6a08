/**
 pb_field_iter_t: a cursor over a descriptor table that keeps running pointers
 into the struct. However it got to a table entry, what it knows there depends
 on the entry alone.
 */
module PbIterator {
  import opened Common
  import opened PbWire
  import opened PbSchema
  import opened PbDecodeSpec

  /** The size of the struct member that an entry describes. */
  function MemberSize(f: Field): nat {
    if f.htype.REPEATED? then f.dataSize * f.arraySize else f.dataSize
  }

  /** A further member of the union that the entry before it belongs to. */
  predicate InUnion(t: seq<Field>, i: nat)
    requires 0 < i < |t|
  {
    t[i - 1].htype.ONEOF? && t[i].htype.ONEOF? && t[i].dataOffset == PB_SIZE_MAX
  }

  /** Where an entry's data lies in the struct. */
  function DataOffset(t: seq<Field>, i: nat): nat
    requires i < |t|
  {
    if i == 0 then t[0].dataOffset
    else if InUnion(t, i) then DataOffset(t, i - 1)
    else DataOffset(t, i - 1) + MemberSize(t[i - 1]) + t[i].dataOffset
  }

  /** Where an entry's has, count or which cell lies. */
  function SizeOffset(t: seq<Field>, i: nat): int
    requires i < |t|
  {
    if i > 0 && InUnion(t, i) then SizeOffset(t, i - 1) else DataOffset(t, i) + t[i].sizeOffset
  }

  class FieldIter {
    const table: seq<Field>
    var pos: nat
    var requiredFieldIndex: nat
    var data: int
    var size: int

    /** Everything the iterator holds is a function of its position. */
    ghost predicate Valid()
      reads this
    {
      && (forall j | 0 <= j < |table| :: table[j].tag != 0)
      && (if table == [] then pos == 0 else pos < |table| && data == DataOffset(table, pos) && size == SizeOffset(table, pos))
      && requiredFieldIndex == RequiredIndex(table, pos)
    }

    /** pb_field_iter_begin on a fresh iterator. */
    constructor (fields: seq<Field>)
      requires forall j | 0 <= j < |fields| :: fields[j].tag != 0
      ensures Valid() && table == fields && pos == 0
    {
      table := fields;
      pos := 0;
      requiredFieldIndex := 0;
      data := if fields == [] then 0 else fields[0].dataOffset;
      size := if fields == [] then 0 else fields[0].dataOffset + fields[0].sizeOffset;
    }

    /** pb_field_iter_begin on an iterator in use. */
    method Rewind()
      requires table != [] && forall j | 0 <= j < |table| :: table[j].tag != 0
      modifies this
      ensures Valid() && pos == 0
    {
      pos := 0;
      requiredFieldIndex := 0;
      data := table[0].dataOffset;
      size := data + table[0].sizeOffset;
    }

    /** pb_field_iter_next: false when it wraps, or when the table is empty. */
    method Next() returns (more: bool)
      requires Valid()
      modifies this
      ensures Valid()
      ensures more <==> old(pos) + 1 < |table|
      ensures pos == if more then old(pos) + 1 else 0
    {
      if table == [] { return false; }
      var prev := table[pos];
      pos := pos + 1;
      if pos == |table| {
        Rewind();
        return false;
      }
      var prevSize: nat := prev.dataSize;
      if prev.htype.ONEOF? && table[pos].htype.ONEOF? && table[pos].dataOffset == PB_SIZE_MAX {
        return true;
      } else if prev.htype.REPEATED? {
        prevSize := prevSize * prev.arraySize;
      }
      if prev.htype.REQUIRED? { requiredFieldIndex := requiredFieldIndex + 1; }
      data := data + prevSize + table[pos].dataOffset;
      size := data + table[pos].sizeOffset;
      return true;
    }

    /** pb_field_iter_find. On an empty table the terminator itself matches tag 0. */
    method Find(tag: nat) returns (found: bool)
      requires Valid()
      modifies this
      ensures Valid()
      ensures table == [] ==> found == (tag == 0)
      ensures table != [] ==> found == FindField(table, old(pos), tag).Some?
      ensures table != [] && found ==> pos == FindField(table, old(pos), tag).value
      ensures !found ==> pos == old(pos)
    {
      if table == [] { return tag == 0; }
      var start, wrapped := pos, false;
      while true
        invariant Valid()
        invariant if wrapped then pos < start else pos >= start
        invariant !wrapped ==> forall k | start <= k < pos :: table[k].tag != tag
        invariant wrapped ==> forall k | 0 <= k < pos || start <= k < |table| :: table[k].tag != tag
        decreases !wrapped, |table| - pos
      {
        if table[pos].tag == tag {
          SearchFound(table, start, pos, wrapped, tag);
          return true;
        }
        var more := Next();
        wrapped := wrapped || !more;
        if pos == start {
          return false;
        }
      }
    }
  }

  lemma {:induction false} ForwardUnique(t: seq<Field>, lo: nat, hi: nat, at: nat, tag: nat)
    requires lo <= at < hi <= |t| && t[at].tag == tag && forall k | lo <= k < at :: t[k].tag != tag
    ensures FindForward(t, lo, hi, tag) == Some(at)
  {
  }

  /** The entry at which the circular search stops is the one FindField names. */
  lemma SearchFound(t: seq<Field>, start: nat, at: nat, wrapped: bool, tag: nat)
    requires start < |t| && at < |t| && t[at].tag == tag
    requires if wrapped then at < start else at >= start
    requires !wrapped ==> forall k | start <= k < at :: t[k].tag != tag
    requires wrapped ==> forall k | 0 <= k < at || start <= k < |t| :: t[k].tag != tag
    ensures FindField(t, start, tag) == Some(at)
  {
    if wrapped { ForwardUnique(t, 0, start, at, tag); } else { ForwardUnique(t, start, |t|, at, tag); }
  }
}
