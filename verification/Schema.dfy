/**
  Message descriptors (pb_field_t tables) and the C structs they describe.

  A table is a sequence of fields; the PB_LAST_FIELD terminator is the end of the
  sequence. A struct is one slot per field. Slots keep everything the C member keeps,
  including array entries past the count and string bytes past the terminator, because
  some of the code reads them.
 */
module Schema {
  import opened Wire

  /** PB_LTYPE_*: how one entry is stored and written. */
  datatype LType = VARINT | UVARINT | SVARINT | FIXED32 | FIXED64 | BYTES | STRING | SUBMESSAGE

  /** PB_HTYPE_*: how often it occurs. A proto3 singular field is OPTIONAL with sizeOffset 0. */
  datatype HType = REQUIRED | OPTIONAL | REPEATED

  /** One pb_field_t with static allocation and no default value. */
  datatype Field = Field(
    tag: nat, htype: HType, ltype: LType,
    dataOffset: int, sizeOffset: int, dataSize: nat, arraySize: nat, sub: seq<Field>)
  {
    /** PB_OPTIONAL_STATIC: presence is kept in a has_ flag beside the data. */
    predicate HasFlag() { htype.OPTIONAL? && sizeOffset != 0 }

    /** PB_SINGULAR_STATIC: presence is read off the value. */
    predicate Implicit() { htype.OPTIONAL? && sizeOffset == 0 }

    /** PB_LTYPE(type) <= PB_LTYPE_LAST_PACKABLE */
    predicate Packable() { !ltype.BYTES? && !ltype.STRING? && !ltype.SUBMESSAGE? }
  }

  /** One entry. A Blob is pb_bytes_array_t (size, then the buffer); Text is a char buffer. */
  datatype Value = Num(n: int) | Blob(size: nat, data: seq<byte>) | Text(buf: seq<byte>) | Msg(slots: seq<Slot>)

  /** One struct member with its has_ flag or _count, if it has one. */
  datatype Slot = One(v: Value) | Flagged(has: bool, v: Value) | Many(count: nat, items: seq<Value>)

  /** offsetof(pb_bytes_array_t, bytes) for the one-byte pb_size_t the headers select. */
  const BYTES_HEADER: nat := 1

  // ---------------------------------------------------------------------------
  // Structs that have the type their table says
  // ---------------------------------------------------------------------------

  predicate IntegerSize(size: nat) { size == 1 || size == 2 || size == 4 || size == 8 }

  /** Half the number of values of an integer of `size` bytes. */
  function HalfRange(size: nat): (h: int)
    requires IntegerSize(size)
    ensures 0 < 2 * h <= TWO64
  {
    if size == 1 then 0x80 else if size == 2 then 0x8000
    else if size == 4 then 0x8000_0000 else 0x8000_0000_0000_0000
  }

  ghost predicate ValueFits(f: Field, v: Value)
    decreases f, 0
  {
    match f.ltype
    case VARINT => v.Num? && IntegerSize(f.dataSize) && -HalfRange(f.dataSize) <= v.n < HalfRange(f.dataSize)
    case SVARINT => v.Num? && IntegerSize(f.dataSize) && -HalfRange(f.dataSize) <= v.n < HalfRange(f.dataSize)
    case UVARINT => v.Num? && IntegerSize(f.dataSize) && 0 <= v.n < 2 * HalfRange(f.dataSize)
    case FIXED32 => v.Num? && 0 <= v.n < TWO32
    case FIXED64 => v.Num? && 0 <= v.n < TWO64
    case BYTES => v.Blob? && BYTES_HEADER + |v.data| == f.dataSize
    case STRING => v.Text? && |v.buf| == f.dataSize
    case SUBMESSAGE => v.Msg? && MsgFits(f.sub, v.slots)
  }

  ghost predicate SlotFits(f: Field, slot: Slot)
    decreases f, 1
  {
    if f.htype.REPEATED? then
      slot.Many? && |slot.items| == f.arraySize && forall k | 0 <= k < |slot.items| :: ValueFits(f, slot.items[k])
    else if f.HasFlag() then slot.Flagged? && ValueFits(f, slot.v)
    else slot.One? && ValueFits(f, slot.v)
  }

  ghost predicate MsgFits(fields: seq<Field>, slots: seq<Slot>)
    decreases fields, 2
  {
    |slots| == |fields| && forall i | 0 <= i < |fields| :: SlotFits(fields[i], slots[i])
  }

  // ---------------------------------------------------------------------------
  // Well-formed tables
  // ---------------------------------------------------------------------------

  function RequiredCount(fields: seq<Field>): nat {
    if fields == [] then 0
    else RequiredCount(fields[..|fields| - 1]) + if fields[|fields| - 1].htype.REQUIRED? then 1 else 0
  }

  /** The first field with this tag, or |fields| when there is none. */
  function Find(fields: seq<Field>, tag: nat): (i: nat)
    ensures i <= |fields|
    ensures i < |fields| ==> fields[i].tag == tag
    ensures forall k | 0 <= k < i :: fields[k].tag != tag
  {
    if fields == [] then 0
    else if fields[0].tag == tag then 0
    else
      var i := Find(fields[1..], tag);
      assert forall k | 0 < k < i + 1 :: fields[k] == fields[1..][k - 1];
      i + 1
  }

  ghost predicate TagsDistinct(fields: seq<Field>) {
    forall i, j | 0 <= i < j < |fields| :: fields[i].tag != fields[j].tag
  }

  /** As in every generated table: tags are nonzero, below 2^29 and distinct, and sizes are ones the code can store. */
  ghost predicate WellFormed(fields: seq<Field>)
    decreases fields, 2
  {
    && TagsDistinct(fields)
    && forall i | 0 <= i < |fields| :: WellFormedField(fields[i])
  }

  ghost predicate WellFormedField(f: Field)
    decreases f, 1
  {
    && 0 < f.tag < 0x2000_0000
    && (f.htype.REPEATED? ==> 0 < f.arraySize && f.sizeOffset != 0)
    && (f.ltype.VARINT? || f.ltype.UVARINT? || f.ltype.SVARINT? ==> IntegerSize(f.dataSize))
    && (f.ltype.FIXED32? ==> f.dataSize == 4) && (f.ltype.FIXED64? ==> f.dataSize == 8)
    && (f.ltype.BYTES? || f.ltype.STRING? ==> 0 < f.dataSize)
    && (f.ltype.SUBMESSAGE? ==> WellFormed(f.sub))
  }

  // ---------------------------------------------------------------------------
  // Text and bytes
  // ---------------------------------------------------------------------------

  /** The bytes before the first NUL, or the whole buffer when there is none. */
  function CString(buf: seq<byte>): (s: seq<byte>)
    ensures |s| <= |buf| && s == buf[..|s|]
    ensures |s| < |buf| ==> buf[|s|] == 0
    ensures 0 !in s
    ensures |s| < |buf| <==> 0 in buf
  {
    if buf == [] || buf[0] == 0 then [] else [buf[0]] + CString(buf[1..])
  }

  function Zeros(n: nat): (s: seq<byte>)
    ensures |s| == n && forall k | 0 <= k < n :: s[k] == 0
  {
    seq(n, _ => 0)
  }

  // ---------------------------------------------------------------------------
  // pb_message_set_to_defaults
  // ---------------------------------------------------------------------------

  /** Zeroes an entry: memset for scalars, recursively field by field for a submessage. */
  function ZeroValue(f: Field, v: Value): (z: Value)
    requires ValueFits(f, v)
    ensures ValueFits(f, z)
    decreases f, 0
  {
    match v
    case Num(_) => Num(0)
    case Blob(_, data) => Blob(0, Zeros(|data|))
    case Text(buf) => Text(Zeros(|buf|))
    case Msg(slots) => Msg(Defaults(f.sub, slots))
  }

  /** Clears a has_ flag and zeroes the data; an array only gets its count set to 0. */
  function DefaultSlot(f: Field, slot: Slot): (z: Slot)
    requires SlotFits(f, slot)
    ensures SlotFits(f, z)
    decreases f, 1
  {
    match slot
    case One(v) => One(ZeroValue(f, v))
    case Flagged(_, v) => Flagged(false, ZeroValue(f, v))
    case Many(_, items) => Many(0, items)
  }

  function Defaults(fields: seq<Field>, slots: seq<Slot>): (z: seq<Slot>)
    requires MsgFits(fields, slots)
    ensures MsgFits(fields, z)
    decreases fields, 2
  {
    seq(|fields|, i requires 0 <= i < |fields| && |slots| == |fields| && SlotFits(fields[i], slots[i]) =>
      DefaultSlot(fields[i], slots[i]))
  }

  // ---------------------------------------------------------------------------
  // pb_check_proto3_default_value
  // ---------------------------------------------------------------------------

  predicate ValueIsDefault(f: Field, v: Value)
    requires WellFormedField(f) && ValueFits(f, v)
    decreases f, 0
  {
    match v
    case Num(n) => n == 0
    case Blob(size, _) => size == 0
    case Text(buf) => buf[0] == 0
    case Msg(slots) =>
      assert WellFormed(f.sub) && MsgFits(f.sub, slots);
      forall i | 0 <= i < |f.sub| :: SlotIsDefault(f.sub[i], slots[i])
  }

  /** The test never looks at a has_ flag or a count, and of an array only at entry 0. */
  predicate SlotIsDefault(f: Field, slot: Slot)
    requires WellFormedField(f) && SlotFits(f, slot)
    decreases f, 1
  {
    match slot
    case One(v) => ValueIsDefault(f, v)
    case Flagged(_, v) => ValueIsDefault(f, v)
    case Many(_, items) => ValueIsDefault(f, items[0])
  }

  // ---------------------------------------------------------------------------
  // What a program can tell apart
  // ---------------------------------------------------------------------------

  /** Equal as far as the live contents go: stale bytes and stale array entries do not matter. */
  ghost predicate SameValue(f: Field, a: Value, b: Value)
    requires ValueFits(f, a) && ValueFits(f, b)
    decreases f, 0
  {
    match a
    case Num(n) => n == b.n
    case Blob(size, data) => size == b.size && (size <= |data| ==> data[..size] == b.data[..size])
    case Text(buf) => CString(buf) == CString(b.buf)
    case Msg(slots) => SameMsg(f.sub, slots, b.slots)
  }

  ghost predicate SameSlot(f: Field, a: Slot, b: Slot)
    requires SlotFits(f, a) && SlotFits(f, b)
    decreases f, 1
  {
    match a
    case One(v) => SameValue(f, v, b.v)
    case Flagged(has, v) => has == b.has && (has ==> SameValue(f, v, b.v))
    case Many(count, items) =>
      count == b.count && forall k | 0 <= k < count && k < |items| :: SameValue(f, items[k], b.items[k])
  }

  ghost predicate SameMsg(fields: seq<Field>, a: seq<Slot>, b: seq<Slot>)
    requires MsgFits(fields, a) && MsgFits(fields, b)
    decreases fields, 2
  {
    forall i | 0 <= i < |fields| :: SameSlot(fields[i], a[i], b[i])
  }
}
