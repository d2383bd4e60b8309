/**
  What the struct holds when pb_decode ends, whether it succeeds or fails.

  A failed decode leaves behind everything that was decoded before, and whatever the failing
  field had already written: a has_ flag, a count, a truncated integer, a bytes size, a NUL,
  the members of a submessage up to its own failure.
 */
module Aftermath {
  import opened Wire
  import opened Schema
  import opened Encoding
  import opened Decoding
  import opened Concatenation

  // ---------------------------------------------------------------------------
  // What each function leaves in its destination
  // ---------------------------------------------------------------------------

  /** The cast to the member's size comes before the test that it lost nothing. */
  function IntegerLeft(f: Field, prev: Value, s: seq<byte>): (v: Value)
    requires WellFormedField(f) && ValueFits(f, prev) && (f.ltype.VARINT? || f.ltype.UVARINT? || f.ltype.SVARINT?)
    ensures ValueFits(f, v)
  {
    match DecodeVarint(s)
    case Failed(_) => prev
    case Got(u, _) =>
      if f.ltype.UVARINT? then Num(u % (2 * HalfRange(f.dataSize)))
      else if f.ltype.SVARINT? then Num(ToSigned(UnZigZag(u), HalfRange(f.dataSize)))
      else Num(ToSigned(VarintAsSigned(f.dataSize, u), HalfRange(f.dataSize)))
  }

  /** The size of a bytes member, and the NUL of a string, are written even if the payload is missing. */
  function BufferLeft(f: Field, prev: Value, s: seq<byte>): (v: Value)
    requires WellFormedField(f) && ValueFits(f, prev) && (f.ltype.BYTES? || f.ltype.STRING?)
    ensures ValueFits(f, v)
  {
    match DecodeVarint32(s)
    case Failed(_) => prev
    case Got(size, rest) =>
      if f.ltype.BYTES? then
        if size + BYTES_HEADER > f.dataSize then prev
        else if |rest| < size then Blob(size, prev.data)
        else Blob(size, rest[..size] + prev.data[size..])
      else
        if size + 1 > f.dataSize then prev
        else if |rest| < size then Text(prev.buf[size := 0])
        else Text(rest[..size] + [0] + prev.buf[size + 1..])
  }

  function ScalarLeft(f: Field, prev: Value, s: seq<byte>): (v: Value)
    requires WellFormedField(f) && ValueFits(f, prev) && !f.ltype.SUBMESSAGE?
    ensures ValueFits(f, v)
  {
    match f.ltype
    case FIXED32 => if |s| < 4 then prev else FixedBound(s[..4]); Exp256Values(); Num(FromLittleEndian(s[..4]))
    case FIXED64 => if |s| < 8 then prev else FixedBound(s[..8]); Exp256Values(); Num(FromLittleEndian(s[..8]))
    case BYTES => BufferLeft(f, prev, s)
    case STRING => BufferLeft(f, prev, s)
    case VARINT => IntegerLeft(f, prev, s)
    case UVARINT => IntegerLeft(f, prev, s)
    case SVARINT => IntegerLeft(f, prev, s)
  }

  /** A packed array does not count the entry that fails, but that entry may have been written. */
  function PackedLeft(f: Field, items: seq<Value>, count: nat, s: seq<byte>): (r: Slot)
    requires WellFormedField(f) && f.Packable() && f.htype.REPEATED?
    requires |items| == f.arraySize && AllFit(f, items)
    ensures SlotFits(f, r)
    decreases |s|
  {
    if s == [] || count >= f.arraySize then Many(count, items)
    else
      var left := items[count := ScalarLeft(f, items[count], s)];
      match DecodeScalar(f, items[count], s)
      case Err => Many(count, left)
      case Ok(_, rest) => PackedLeft(f, left, count + 1, rest)
  }

  function ValueLeft(f: Field, prev: Value, s: seq<byte>): (v: Value)
    requires WellFormedField(f) && ValueFits(f, prev)
    ensures ValueFits(f, v)
    decreases |s|, 0
  {
    if f.ltype.SUBMESSAGE? then
      SubstreamProgress(s);
      match Substream(s)
      case Err => prev
      case Ok(inner, _) => Msg(MessageLeft(f.sub, SubmessageBase(f, prev), inner))
    else ScalarLeft(f, prev, s)
  }

  /** A has_ flag is set, and an array entry is counted, before the entry is decoded. */
  function SlotLeft(f: Field, slot: Slot, wireType: nat, s: seq<byte>): (r: Slot)
    requires WellFormedField(f) && SlotFits(f, slot)
    ensures SlotFits(f, r)
    decreases |s|, 1
  {
    match f.htype
    case REQUIRED => One(ValueLeft(f, slot.v, s))
    case OPTIONAL => if f.HasFlag() then Flagged(true, ValueLeft(f, slot.v, s)) else One(ValueLeft(f, slot.v, s))
    case REPEATED =>
      if wireType == WT_STRING && f.Packable() then
        SubstreamProgress(s);
        match Substream(s)
        case Err => slot
        case Ok(inner, _) => PackedLeft(f, slot.items, slot.count, inner)
      else if slot.count >= f.arraySize then slot
      else Many(slot.count + 1, slot.items[slot.count := ValueLeft(f, slot.items[slot.count], s)])
  }

  /** The struct when the field loop ends, on whatever path: also the struct pb_decode_noinit leaves. */
  function MessageLeft(fields: seq<Field>, slots: seq<Slot>, s: seq<byte>): (r: seq<Slot>)
    requires WellFormed(fields) && MsgFits(fields, slots)
    ensures MsgFits(fields, r)
    decreases |s|, 2
  {
    if s == [] then slots
    else
      TagProgress(s);
      match DecodeTag(s)
      case Stop(_) => slots
      case CutOff => slots
      case Bad => slots
      case Tag(tag, wireType, rest) =>
        var i := Find(fields, tag);
        if fields == [] && tag == 0 then slots
        else if i == |fields| then
          SkipProgress(wireType, rest);
          match SkipField(wireType, rest)
          case Err => slots
          case Ok(_, rest') => MessageLeft(fields, slots, rest')
        else
          var left := slots[i := SlotLeft(fields[i], slots[i], wireType, rest)];
          match DecodeSlot(fields[i], slots[i], wireType, rest)
          case Err => left
          case Ok(_, rest') => MessageLeft(fields, left, rest')
  }

  /** pb_decode */
  function DecodeLeft(fields: seq<Field>, slots: seq<Slot>, s: seq<byte>): (r: seq<Slot>)
    requires WellFormed(fields) && MsgFits(fields, slots)
    ensures MsgFits(fields, r)
  {
    MessageLeft(fields, Defaults(fields, slots), s)
  }

  /** pb_decode_delimited: without a substream not even the defaults are set. */
  function DelimitedLeft(fields: seq<Field>, slots: seq<Slot>, s: seq<byte>): (r: seq<Slot>)
    requires WellFormed(fields) && MsgFits(fields, slots)
    ensures MsgFits(fields, r)
  {
    match Substream(s)
    case Err => slots
    case Ok(inner, _) => DecodeLeft(fields, slots, inner)
  }

  // ---------------------------------------------------------------------------
  // On success it is the decoded struct
  // ---------------------------------------------------------------------------

  lemma ScalarAgrees(f: Field, prev: Value, s: seq<byte>)
    requires WellFormedField(f) && ValueFits(f, prev) && !f.ltype.SUBMESSAGE? && DecodeScalar(f, prev, s).Ok?
    ensures ScalarLeft(f, prev, s) == DecodeScalar(f, prev, s).value
  {
    hide ReadGroups, FromLittleEndian;
  }

  lemma {:induction false} PackedAgrees(f: Field, items: seq<Value>, count: nat, s: seq<byte>)
    requires WellFormedField(f) && f.Packable() && f.htype.REPEATED?
    requires |items| == f.arraySize && AllFit(f, items) && DecodePacked(f, items, count, s).Ok?
    ensures PackedLeft(f, items, count, s) == DecodePacked(f, items, count, s).value
    decreases |s|
  {
    hide DecodeScalar, ScalarLeft;
    if s != [] {
      ScalarAgrees(f, items[count], s);
      var r := DecodeScalar(f, items[count], s);
      PackedAgrees(f, items[count := r.value], count + 1, r.rest);
    }
  }

  lemma {:induction false} ValueAgrees(f: Field, prev: Value, s: seq<byte>)
    requires WellFormedField(f) && ValueFits(f, prev) && DecodeValue(f, prev, s).Ok?
    ensures ValueLeft(f, prev, s) == DecodeValue(f, prev, s).value
    decreases |s|, 0
  {
    hide DecodeScalar, ScalarLeft, Substream;
    if f.ltype.SUBMESSAGE? {
      SubstreamProgress(s);
      MessageAgrees(f.sub, SubmessageBase(f, prev), Substream(s).value);
    } else {
      ScalarAgrees(f, prev, s);
    }
  }

  lemma {:induction false} SlotAgrees(f: Field, slot: Slot, wireType: nat, s: seq<byte>)
    requires WellFormedField(f) && SlotFits(f, slot) && DecodeSlot(f, slot, wireType, s).Ok?
    ensures SlotLeft(f, slot, wireType, s) == DecodeSlot(f, slot, wireType, s).value
    decreases |s|, 1
  {
    hide DecodeValue, ValueLeft, DecodePacked, PackedLeft, Substream;
    if f.htype.REPEATED? {
      if wireType == WT_STRING && f.Packable() {
        PackedAgrees(f, slot.items, slot.count, Substream(s).value);
      } else {
        ValueAgrees(f, slot.items[slot.count], s);
      }
    } else {
      ValueAgrees(f, slot.v, s);
    }
  }

  lemma {:induction false} LoopAgrees(fields: seq<Field>, slots: seq<Slot>, seen: set<nat>, s: seq<byte>)
    requires WellFormed(fields) && MsgFits(fields, slots) && DecodeLoop(fields, slots, seen, s).Done?
    ensures MessageLeft(fields, slots, s) == DecodeLoop(fields, slots, seen, s).slots
    decreases |s|, 2
  {
    hide DecodeSlot, SlotLeft, SkipField;
    if s != [] && DecodeTag(s).Tag? {
      TagProgress(s);
      var t := DecodeTag(s);
      var i := Find(fields, t.tag);
      if i == |fields| {
        SkipProgress(t.wireType, t.rest);
        LoopAgrees(fields, slots, seen, SkipField(t.wireType, t.rest).rest);
      } else {
        SlotAgrees(fields[i], slots[i], t.wireType, t.rest);
        var r := DecodeSlot(fields[i], slots[i], t.wireType, t.rest);
        LoopAgrees(fields, slots[i := r.value], seen + Seen(fields[i], i), r.rest);
      }
    }
  }

  /** When a message decodes, what is left is exactly the decoded struct. */
  lemma {:induction false} MessageAgrees(fields: seq<Field>, slots: seq<Slot>, s: seq<byte>)
    requires WellFormed(fields) && MsgFits(fields, slots) && DecodeMessage(fields, slots, s).Ok?
    ensures MessageLeft(fields, slots, s) == DecodeMessage(fields, slots, s).value
    decreases |s|, 3
  {
    LoopAgrees(fields, slots, {}, s);
  }

  // ---------------------------------------------------------------------------
  // Failures keep what came before
  // ---------------------------------------------------------------------------

  /** After bytes that decode, whatever follows works on their struct, also when it fails. */
  lemma {:induction false} LeftIsAction(fields: seq<Field>, d: seq<Slot>, seen: set<nat>, a: seq<byte>, b: seq<byte>)
    requires WellFormed(fields) && MsgFits(fields, d) && Clean(DecodeLoop(fields, d, seen, a))
    ensures MessageLeft(fields, d, a + b) == MessageLeft(fields, DecodeLoop(fields, d, seen, a).slots, b)
    decreases |a|
  {
    hide DecodeSlot, SlotLeft, SkipField;
    if a == [] {
      assert a + b == b;
    } else {
      TagProgress(a);
      TagProgress(a + b);
      TagLocal(a, b);
      var t := DecodeTag(a);
      var i := Find(fields, t.tag);
      if i == |fields| {
        SkipProgress(t.wireType, t.rest);
        SkipProgress(t.wireType, t.rest + b);
        SkipLocal(t.wireType, t.rest, b);
        LeftIsAction(fields, d, seen, SkipField(t.wireType, t.rest).rest, b);
      } else {
        SlotLocal(fields[i], d[i], t.wireType, t.rest, b);
        SlotAgrees(fields[i], d[i], t.wireType, t.rest + b);
        var slot := DecodeSlot(fields[i], d[i], t.wireType, t.rest);
        LeftIsAction(fields, d[i := slot.value], seen + Seen(fields[i], i), slot.rest, b);
      }
    }
  }
}
