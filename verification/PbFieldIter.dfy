/** nanopb's cyclic field iterator: it walks the descriptor, keeping the position of the field's data in
    the struct and the number of required fields passed, and wraps around at the end. */
module PbFieldIter {
  import opened PbSchema

  /** The terminator has tag zero, so no field has. */
  predicate TagsNonZero(desc: Desc) {
    forall i :: 0 <= i < |desc.fields| ==> desc.fields[i].tag != 0
  }

  predicate TagsDistinct(desc: Desc) {
    forall i, j :: 0 <= i < j < |desc.fields| ==> desc.fields[i].tag != desc.fields[j].tag
  }

  /** How many required fields there are before field `i`. */
  function ReqIndex(desc: Desc, i: nat): (n: nat)
    requires i <= |desc.fields|
    ensures n <= i
  {
    if i == 0 then 0 else ReqIndex(desc, i - 1) + if desc.fields[i - 1].htype.Required? then 1 else 0
  }

  /** The bytes a field takes up in the struct: one entry, or all entries of a repeated field. */
  function Extent(f: Field): nat {
    if f.htype.Repeated? then f.dataSize * f.arraySize else f.dataSize
  }

  /** Where the data of field `i` starts: offsets are relative to the end of the field before, except
      inside a union. */
  function DataPos(desc: Desc, i: nat): nat
    requires i < |desc.fields|
  {
    if i == 0 then desc.fields[0].dataOffset
    else if SharesUnion(desc.fields[i - 1], desc.fields[i]) then DataPos(desc, i - 1)
    else DataPos(desc, i - 1) + Extent(desc.fields[i - 1]) + desc.fields[i].dataOffset
  }

  /** Fields share their place in the struct when they share a slot of the model, and only then if no
      field before the later one is empty. */
  lemma {:induction false} SameSlotSamePlace(desc: Desc, i: nat, j: nat)
    requires i <= j < |desc.fields|
    ensures SlotOf(desc, i) == SlotOf(desc, j) ==> DataPos(desc, i) == DataPos(desc, j)
    ensures (forall k :: i <= k < j ==> Extent(desc.fields[k]) > 0) ==>
              (DataPos(desc, i) == DataPos(desc, j) ==> SlotOf(desc, i) == SlotOf(desc, j))
    ensures DataPos(desc, i) <= DataPos(desc, j)
  {
    if i < j {
      SlotsGrow(desc, i, j - 1);
      SameSlotSamePlace(desc, i, j - 1);
    }
  }

  lemma {:induction false} SlotsGrow(desc: Desc, i: nat, j: nat)
    requires i <= j < |desc.fields|
    ensures SlotOf(desc, i) <= SlotOf(desc, j)
  {
    if i < j {
      SlotsGrow(desc, i, j - 1);
    }
  }

  /** `pb_field_iter_t`. An empty descriptor has only the terminator, at position zero. */
  class FieldIter {
    const desc: Desc
    var pos: nat
    var requiredFieldIndex: nat
    var pData: nat
    /** The slot that stands for the memory at `pData`. */
    var slot: nat

    ghost predicate Valid()
      reads this
    {
      && TagsNonZero(desc)
      && (desc.fields == [] ==> pos == 0 && requiredFieldIndex == 0 && pData == 0 && slot == 0)
      && (desc.fields != [] ==>
            && pos < |desc.fields|
            && requiredFieldIndex == ReqIndex(desc, pos)
            && pData == DataPos(desc, pos)
            && slot == SlotOf(desc, pos))
    }

    /** `pb_field_iter_begin`. */
    constructor Begin(desc: Desc)
      requires TagsNonZero(desc)
      ensures Valid() && this.desc == desc && pos == 0
    {
      this.desc := desc;
      pos, requiredFieldIndex, slot := 0, 0, 0;
      pData := if desc.fields == [] then 0 else desc.fields[0].dataOffset;
    }

    /** `pb_field_iter_next`: false when it wraps around to the first field. */
    method Next() returns (more: bool)
      requires Valid()
      modifies this
      ensures Valid()
      ensures more <==> old(pos) + 1 < |desc.fields|
      ensures pos == if more then old(pos) + 1 else 0
    {
      if desc.fields == [] {
        return false;
      }
      var prev := desc.fields[pos];
      pos := pos + 1;
      if pos == |desc.fields| {
        pos, requiredFieldIndex, pData, slot := 0, 0, desc.fields[0].dataOffset, 0;
        return false;
      }
      var prevSize := prev.dataSize;
      if SharesUnion(prev, desc.fields[pos]) {
        return true;
      } else if prev.htype.Repeated? {
        prevSize := prevSize * prev.arraySize;
      }
      if prev.htype.Required? {
        requiredFieldIndex := requiredFieldIndex + 1;
      }
      pData := pData + prevSize + desc.fields[pos].dataOffset;
      slot := pos;
      return true;
    }

    /** `pb_field_iter_find`: at most one lap from wherever the iterator stands. */
    method Find(tag: nat) returns (found: bool)
      requires Valid()
      modifies this
      ensures Valid()
      ensures desc.fields == [] ==> found == (tag == 0)
      ensures desc.fields != [] ==> (found <==> exists i :: 0 <= i < |desc.fields| && desc.fields[i].tag == tag)
      ensures found && desc.fields != [] ==> desc.fields[pos].tag == tag
      ensures !found ==> pos == old(pos)
    {
      if desc.fields == [] {
        return tag == 0;
      }
      var start := pos;
      ghost var wrapped := false;
      while true
        invariant Valid() && (wrapped ==> pos < start) && (!wrapped ==> start <= pos)
        invariant forall i :: start <= i < (if wrapped then |desc.fields| else pos) ==> desc.fields[i].tag != tag
        invariant wrapped ==> forall i :: 0 <= i < pos ==> desc.fields[i].tag != tag
        decreases if wrapped then start - pos else |desc.fields| - pos + start
      {
        if desc.fields[pos].tag == tag {
          return true;
        }
        var more := Next();
        wrapped := wrapped || !more;
        if pos == start {
          break;
        }
      }
      return false;
    }
  }
}
