/**
  The circular field iterator of pb_common.c and the plain scan it stands for.
 */
module FieldIteration {
  import opened Schema

  /** The tag at a position; the terminator's is 0. */
  function TagAt(fields: seq<Field>, i: nat): nat
    requires i <= |fields|
  {
    if i < |fields| then fields[i].tag else 0
  }

  /** Bytes a member takes in the struct: an array holds arraySize entries. */
  function Span(f: Field): int {
    if f.htype.REPEATED? then f.dataSize * f.arraySize else f.dataSize
  }

  /** Where the iterator believes member `i` starts, summed up from the relative offsets. */
  function OffsetOf(fields: seq<Field>, i: nat): int
    requires i < |fields| || i == 0
  {
    if fields == [] then 0
    else if i == 0 then fields[0].dataOffset
    else OffsetOf(fields, i - 1) + Span(fields[i - 1]) + fields[i].dataOffset
  }

  function SizeOffsetAt(fields: seq<Field>, i: nat): int {
    if i < |fields| then fields[i].sizeOffset else 0
  }

  ghost predicate TagsNonzero(fields: seq<Field>) {
    forall i | 0 <= i < |fields| :: fields[i].tag != 0
  }

  /**
    The first match at or after `from`, else the first from the start: what the circular
    search finds. On the empty table the only position is the terminator.
   */
  function CircularFind(fields: seq<Field>, from: nat, tag: nat): (i: nat)
    requires from <= |fields|
    ensures i <= |fields|
  {
    var i := Find(fields[from..], tag);
    if from + i < |fields| then from + i else Find(fields, tag)
  }

  class FieldIter {
    const start: seq<Field>
    const destStruct: int
    var pos: nat
    var requiredFieldIndex: nat
    var pData: int
    var pSize: int

    /** Every field of the iterator agrees with its position, which is the terminator only in an empty table. */
    ghost predicate Valid()
      reads this
    {
      && TagsNonzero(start)
      && (pos < |start| || pos == |start| == 0)
      && requiredFieldIndex == RequiredCount(start[..pos])
      && pData == destStruct + OffsetOf(start, pos)
      && pSize == pData + SizeOffsetAt(start, pos)
    }

    /** pb_field_iter_begin on a new iterator. */
    constructor (fields: seq<Field>, dest: int)
      requires TagsNonzero(fields)
      ensures Valid() && start == fields && destStruct == dest && pos == 0
    {
      start := fields;
      destStruct := dest;
      pos := 0;
      requiredFieldIndex := 0;
      pData := dest + if fields == [] then 0 else fields[0].dataOffset;
      pSize := dest + if fields == [] then 0 else fields[0].dataOffset + fields[0].sizeOffset;
    }

    method Begin() returns (nonEmpty: bool)
      requires TagsNonzero(start)
      modifies this
      ensures Valid() && pos == 0
      ensures nonEmpty <==> start != []
    {
      pos := 0;
      requiredFieldIndex := 0;
      pData := destStruct + if start == [] then 0 else start[0].dataOffset;
      pSize := pData + SizeOffsetAt(start, 0);
      nonEmpty := TagAt(start, pos) != 0;
    }

    /** One step round the circle; false when it wrapped to the first field. */
    method Next() returns (more: bool)
      requires Valid()
      modifies this
      ensures Valid()
      ensures more <==> old(pos) + 1 < |start|
      ensures pos == if more then old(pos) + 1 else 0
    {
      if TagAt(start, pos) == 0 {
        return false;
      }
      ghost var prevPos := pos;
      var prev := start[pos];
      pos := pos + 1;
      if TagAt(start, pos) == 0 {
        var _ := Begin();
        return false;
      }
      var prevSize := prev.dataSize;
      if prev.htype.REPEATED? {
        prevSize := prevSize * prev.arraySize;
      }
      if prev.htype.REQUIRED? {
        requiredFieldIndex := requiredFieldIndex + 1;
      }
      assert start[..pos][..prevPos] == start[..prevPos];
      pData := pData + prevSize + start[pos].dataOffset;
      pSize := pData + start[pos].sizeOffset;
      return true;
    }

    /** Goes round at most once. On failure the iterator is back where it was. */
    method Find(tag: nat) returns (found: bool)
      requires Valid()
      modifies this
      ensures Valid()
      ensures found <==> if start == [] then tag == 0 else Schema.Find(start, tag) < |start|
      ensures pos == if found then CircularFind(start, old(pos), tag) else old(pos)
    {
      var from := pos;
      var visited: nat := 0;
      while true
        invariant Valid() && (start == [] ==> visited == 0)
        invariant start != [] ==> visited < |start|
        invariant pos == if from + visited < |start| || start == [] then from + visited else from + visited - |start|
        invariant start != [] ==> forall k | from <= k < from + visited && k < |start| :: start[k].tag != tag
        invariant start != [] ==> forall k | 0 <= k < from + visited - |start| :: start[k].tag != tag
        decreases |start| - visited
      {
        if TagAt(start, pos) == tag {
          FoundHere(start, from, pos, tag);
          return true;
        }
        var _ := Next();
        visited := visited + 1;
        if pos == from {
          break;
        }
      }
      if start != [] { NowhereFound(start, tag); }
      return false;
    }
  }

  lemma FindIsFirst(fields: seq<Field>, i: nat, tag: nat)
    requires i < |fields| && fields[i].tag == tag && forall k | 0 <= k < i :: fields[k].tag != tag
    ensures Find(fields, tag) == i
  {
  }

  lemma NowhereFound(fields: seq<Field>, tag: nat)
    requires forall k | 0 <= k < |fields| :: fields[k].tag != tag
    ensures Find(fields, tag) == |fields|
  {
  }

  lemma FoundHere(fields: seq<Field>, from: nat, pos: nat, tag: nat)
    requires from <= |fields| && pos <= |fields| && TagAt(fields, pos) == tag
    requires (pos < |fields| && from < |fields|) || fields == []
    requires if pos >= from then forall k | from <= k < pos :: fields[k].tag != tag
             else (forall k | from <= k < |fields| :: fields[k].tag != tag)
                  && (forall k | 0 <= k < pos :: fields[k].tag != tag)
    ensures CircularFind(fields, from, tag) == pos
    ensures fields != [] ==> Find(fields, tag) < |fields|
  {
    if fields != [] {
      var tail := fields[from..];
      if pos >= from {
        assert tail[pos - from].tag == tag;
        FindIsFirst(tail, pos - from, tag);
      } else {
        NowhereFound(tail, tag);
        FindIsFirst(fields, pos, tag);
      }
    }
  }

  // ---------------------------------------------------------------------------
  // The circle refines the scan
  // ---------------------------------------------------------------------------

  ghost predicate OccursOnce(fields: seq<Field>, tag: nat) {
    forall i, j | 0 <= i < |fields| && 0 <= j < |fields| && fields[i].tag == tag && fields[j].tag == tag :: i == j
  }

  /**
    The circular search finds what a scan from the first field finds, from every position,
    exactly when the tag does not occur twice.
   */
  lemma CircleRefinesScan(fields: seq<Field>, tag: nat)
    ensures OccursOnce(fields, tag)
            <==> forall from | 0 <= from <= |fields| :: CircularFind(fields, from, tag) == Find(fields, tag)
  {
    if OccursOnce(fields, tag) {
      forall from | 0 <= from <= |fields| ensures CircularFind(fields, from, tag) == Find(fields, tag) {
        var i := Find(fields[from..], tag);
        if from + i < |fields| { assert fields[from..][i] == fields[from + i]; }
      }
    } else {
      var i, j :| 0 <= i < |fields| && 0 <= j < |fields| && fields[i].tag == tag && fields[j].tag == tag && i != j;
      var later := if i < j then j else i;
      assert fields[later..][0] == fields[later];
      FindIsFirst(fields[later..], 0, tag);
      assert CircularFind(fields, later, tag) == later;
      assert Find(fields, tag) < later;
    }
  }

  /** A table made by the PB_FIELD macros from a struct whose members start at `at`. */
  ghost predicate LaidOutAt(fields: seq<Field>, at: seq<int>) {
    && |at| == |fields|
    && (fields != [] ==> fields[0].dataOffset == at[0])
    && forall i | 0 < i < |fields| :: fields[i].dataOffset == at[i] - at[i - 1] - Span(fields[i - 1])
  }

  /** The running sum lands on every member: pData is the struct plus offsetof the member. */
  lemma {:induction false} OffsetsAreLayout(fields: seq<Field>, at: seq<int>, i: nat)
    requires LaidOutAt(fields, at) && i < |fields|
    ensures OffsetOf(fields, i) == at[i]
    decreases i
  {
    if i > 0 { OffsetsAreLayout(fields, at, i - 1); }
  }
}
