/**
  What pb_encode writes: the bytes of a struct under a table, as a value.

  Encoding fails (None) only where the code reports a value error: a count above the
  array size, or a bytes size above its buffer. Whether the bytes fit the stream is the
  concern of Encoder.dfy.
 */
module Encoding {
  import opened Wire
  import opened Schema

  datatype Option<+T> = None | Some(value: T)

  /** One write after another; a value error anywhere is an error of the whole. */
  function Cat(a: Option<seq<byte>>, b: Option<seq<byte>>): Option<seq<byte>> {
    if a.Some? && b.Some? then Some(a.value + b.value) else None
  }

  // Wire types
  const WT_VARINT: nat := 0
  const WT_64BIT: nat := 1
  const WT_STRING: nat := 2
  const WT_32BIT: nat := 5

  function WireType(t: LType): nat {
    match t
    case VARINT => WT_VARINT
    case UVARINT => WT_VARINT
    case SVARINT => WT_VARINT
    case FIXED32 => WT_32BIT
    case FIXED64 => WT_64BIT
    case BYTES => WT_STRING
    case STRING => WT_STRING
    case SUBMESSAGE => WT_STRING
  }

  function EncodeTag(wireType: nat, tag: nat): seq<byte> {
    EncodeVarint(8 * tag + wireType)
  }

  /** A length prefix and then the bytes. */
  function Delimited(bs: seq<byte>): seq<byte> {
    EncodeVarint(|bs|) + bs
  }

  /** Every entry but a submessage. */
  function EncodeScalar(f: Field, v: Value): Option<seq<byte>>
    requires WellFormedField(f) && ValueFits(f, v) && !f.ltype.SUBMESSAGE?
  {
    match f.ltype
    case VARINT => Some(EncodeVarint(ToUnsigned64(v.n)))
    case UVARINT => Some(EncodeVarint(v.n))
    case SVARINT => Some(EncodeVarint(ZigZag(v.n)))
    case FIXED32 => Some(LittleEndian(v.n, 4))
    case FIXED64 => Some(LittleEndian(v.n, 8))
    case BYTES => if v.size + BYTES_HEADER > f.dataSize then None else Some(Delimited(v.data[..v.size]))
    case STRING => Some(Delimited(CString(v.buf)))
  }

  function EncodeValue(f: Field, v: Value): Option<seq<byte>>
    requires WellFormedField(f) && ValueFits(f, v)
    decreases f, 0
  {
    if f.ltype.SUBMESSAGE? then
      match EncodeMsg(f.sub, v.slots)
      case Some(bs) => Some(Delimited(bs))
      case None => None
    else EncodeScalar(f, v)
  }

  /** The field's own tag and one entry. */
  function EncodeTagged(f: Field, v: Value): Option<seq<byte>>
    requires WellFormedField(f) && ValueFits(f, v)
    decreases f, 1
  {
    Cat(Some(EncodeTag(WireType(f.ltype), f.tag)), EncodeValue(f, v))
  }

  ghost predicate AllFit(f: Field, vs: seq<Value>) {
    forall k | 0 <= k < |vs| :: ValueFits(f, vs[k])
  }

  /** The entries of a packed array, one after the other. */
  function EncodePacked(f: Field, vs: seq<Value>): Option<seq<byte>>
    requires WellFormedField(f) && AllFit(f, vs) && f.Packable()
  {
    if vs == [] then Some([]) else Cat(EncodeScalar(f, vs[0]), EncodePacked(f, vs[1..]))
  }

  /** The entries of an array that cannot be packed, each under its own tag. */
  function EncodeEach(f: Field, vs: seq<Value>): Option<seq<byte>>
    requires WellFormedField(f) && AllFit(f, vs)
    decreases f, 2, |vs|
  {
    if vs == [] then Some([]) else Cat(EncodeTagged(f, vs[0]), EncodeEach(f, vs[1..]))
  }

  function EncodeArray(f: Field, count: nat, items: seq<Value>): Option<seq<byte>>
    requires WellFormedField(f) && AllFit(f, items) && |items| == f.arraySize
    decreases f, 3
  {
    if count == 0 then Some([])
    else if count > f.arraySize then None
    else if f.Packable() then
      match EncodePacked(f, items[..count])
      case Some(bs) => Some(EncodeTag(WT_STRING, f.tag) + Delimited(bs))
      case None => None
    else EncodeEach(f, items[..count])
  }

  function EncodeSlot(f: Field, slot: Slot): Option<seq<byte>>
    requires WellFormedField(f) && SlotFits(f, slot)
    decreases f, 4
  {
    match f.htype
    case REQUIRED => EncodeTagged(f, slot.v)
    case OPTIONAL =>
      var has := if f.HasFlag() then slot.has else !ValueIsDefault(f, slot.v);
      if has then EncodeTagged(f, slot.v) else Some([])
    case REPEATED => EncodeArray(f, slot.count, slot.items)
  }

  /** The fields from index `i` on, in table order. */
  function EncodeFrom(fields: seq<Field>, slots: seq<Slot>, i: nat): Option<seq<byte>>
    requires WellFormed(fields) && MsgFits(fields, slots) && i <= |fields|
    decreases fields, 5, |fields| - i
  {
    if i == |fields| then Some([])
    else Cat(EncodeSlot(fields[i], slots[i]), EncodeFrom(fields, slots, i + 1))
  }

  function EncodeMsg(fields: seq<Field>, slots: seq<Slot>): Option<seq<byte>>
    requires WellFormed(fields) && MsgFits(fields, slots)
    decreases fields, 6
  {
    EncodeFrom(fields, slots, 0)
  }

  // ---------------------------------------------------------------------------
  // Exactly which structs can be encoded
  // ---------------------------------------------------------------------------

  /** Counts and sizes stay within their buffers, in everything that is written. */
  ghost predicate InBounds(f: Field, v: Value)
    requires WellFormedField(f) && ValueFits(f, v)
    decreases f, 0
  {
    match v
    case Num(_) => true
    case Blob(size, data) => size <= |data|
    case Text(_) => true
    case Msg(slots) => assert WellFormed(f.sub) && MsgFits(f.sub, slots);
                       forall i | 0 <= i < |f.sub| :: SlotInBounds(f.sub[i], slots[i])
  }

  ghost predicate SlotInBounds(f: Field, slot: Slot)
    requires WellFormedField(f) && SlotFits(f, slot)
    decreases f, 1
  {
    match slot
    case One(v) => (f.Implicit() && ValueIsDefault(f, v)) || InBounds(f, v)
    case Flagged(has, v) => has ==> InBounds(f, v)
    case Many(count, items) => count <= |items| && forall k | 0 <= k < count :: InBounds(f, items[k])
  }

  ghost predicate MsgInBounds(fields: seq<Field>, slots: seq<Slot>)
    requires WellFormed(fields) && MsgFits(fields, slots)
  {
    forall i | 0 <= i < |fields| :: SlotInBounds(fields[i], slots[i])
  }

  lemma {:induction false} PackedEncodable(f: Field, vs: seq<Value>)
    requires WellFormedField(f) && AllFit(f, vs) && f.Packable()
    ensures EncodePacked(f, vs).Some?
    decreases |vs|
  {
    if vs != [] { PackedEncodable(f, vs[1..]); }
  }

  lemma {:induction false} ValueEncodable(f: Field, v: Value)
    requires WellFormedField(f) && ValueFits(f, v)
    ensures EncodeValue(f, v).Some? <==> InBounds(f, v)
    decreases f, 0
  {
    if f.ltype.SUBMESSAGE? {
      MsgEncodable(f.sub, v.slots);
    }
  }

  lemma {:induction false} EachEncodable(f: Field, vs: seq<Value>)
    requires WellFormedField(f) && AllFit(f, vs)
    ensures EncodeEach(f, vs).Some? <==> forall k | 0 <= k < |vs| :: InBounds(f, vs[k])
    decreases f, 1, |vs|
  {
    if vs != [] {
      ValueEncodable(f, vs[0]);
      EachEncodable(f, vs[1..]);
      assert forall k | 0 < k < |vs| :: vs[k] == vs[1..][k - 1];
      assert forall k | 0 <= k < |vs[1..]| :: vs[1..][k] == vs[k + 1];
    }
  }

  lemma {:induction false} SlotEncodable(f: Field, slot: Slot)
    requires WellFormedField(f) && SlotFits(f, slot)
    ensures EncodeSlot(f, slot).Some? <==> SlotInBounds(f, slot)
    decreases f, 2
  {
    if slot.Many? {
      if 0 < slot.count <= f.arraySize {
        var vs := slot.items[..slot.count];
        if f.Packable() {
          PackedEncodable(f, vs);
          assert forall k | 0 <= k < slot.count :: InBounds(f, slot.items[k]);
        } else {
          EachEncodable(f, vs);
          assert forall k | 0 <= k < slot.count :: vs[k] == slot.items[k];
        }
      }
    } else {
      ValueEncodable(f, slot.v);
    }
  }

  lemma {:induction false} FromEncodable(fields: seq<Field>, slots: seq<Slot>, i: nat)
    requires WellFormed(fields) && MsgFits(fields, slots) && i <= |fields|
    ensures EncodeFrom(fields, slots, i).Some? <==> forall k | i <= k < |fields| :: SlotInBounds(fields[k], slots[k])
    decreases fields, 3, |fields| - i
  {
    if i < |fields| {
      SlotEncodable(fields[i], slots[i]);
      FromEncodable(fields, slots, i + 1);
    }
  }

  /** pb_encode meets a value error exactly when a written count or size leaves its buffer. */
  lemma {:induction false} MsgEncodable(fields: seq<Field>, slots: seq<Slot>)
    requires WellFormed(fields) && MsgFits(fields, slots)
    ensures EncodeMsg(fields, slots).Some? <==> MsgInBounds(fields, slots)
    decreases fields, 4
  {
    FromEncodable(fields, slots, 0);
  }
}
