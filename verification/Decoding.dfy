/**
  What pb_decode does to a struct, as a function of the bytes left in the stream.

  The recursion follows the code: the field loop, one field, one entry, and the field loop
  again on the limited substream of a submessage. The number of bytes left decreases all
  the way round, so decoding ends on every byte string.
 */
module Decoding {
  import opened Wire
  import opened Schema
  import Encoding

  datatype Dec<+T> = Ok(value: T, rest: seq<byte>) | Err

  // ---------------------------------------------------------------------------
  // Tags, skipping and substreams
  // ---------------------------------------------------------------------------

  /** Stop is the zero tag; CutOff is a tag that fails with nothing left. Both end the message. */
  datatype TagRead = Tag(tag: nat, wireType: nat, rest: seq<byte>) | Stop(rest: seq<byte>) | CutOff | Bad

  function DecodeTag(s: seq<byte>): TagRead {
    match DecodeVarint32(s)
    case Failed(rest) => if rest == [] then CutOff else Bad
    case Got(t, rest) => if t == 0 then Stop(rest) else Tag(t / 8, t % 8, rest)
  }

  function Take(s: seq<byte>, n: nat): Dec<seq<byte>> {
    if |s| < n then Err else Ok(s[..n], s[n..])
  }

  function SkipVarint(s: seq<byte>): Dec<()> {
    if s == [] then Err else if s[0] < 0x80 then Ok((), s[1..]) else SkipVarint(s[1..])
  }

  /** pb_make_string_substream: a length, then that many bytes set apart. */
  function Substream(s: seq<byte>): Dec<seq<byte>> {
    match DecodeVarint32(s)
    case Failed(_) => Err
    case Got(size, rest) => Take(rest, size)
  }

  function Drop<T>(r: Dec<T>): Dec<()> {
    match r
    case Ok(_, rest) => Ok((), rest)
    case Err => Err
  }

  function SkipField(wireType: nat, s: seq<byte>): Dec<()> {
    if wireType == Encoding.WT_VARINT then SkipVarint(s)
    else if wireType == Encoding.WT_64BIT then Drop(Take(s, 8))
    else if wireType == Encoding.WT_STRING then Drop(Substream(s))
    else if wireType == Encoding.WT_32BIT then Drop(Take(s, 4))
    else Err
  }

  lemma TagProgress(s: seq<byte>)
    ensures DecodeTag(s).Tag? ==> |DecodeTag(s).rest| < |s|
    ensures DecodeTag(s).Stop? ==> |DecodeTag(s).rest| < |s|
  {
    GroupsProgress(s, MAX_VARINT32);
  }

  lemma SubstreamProgress(s: seq<byte>)
    ensures Substream(s).Ok? ==> |Substream(s).value| + |Substream(s).rest| < |s|
  {
    GroupsProgress(s, MAX_VARINT32);
  }

  lemma SkipProgress(wireType: nat, s: seq<byte>)
    ensures SkipField(wireType, s).Ok? ==> |SkipField(wireType, s).rest| < |s|
  {
    if wireType == Encoding.WT_VARINT { SkipVarintProgress(s); } else { SubstreamProgress(s); }
  }

  lemma {:induction false} SkipVarintProgress(s: seq<byte>)
    ensures SkipVarint(s).Ok? ==> |SkipVarint(s).rest| < |s|
    decreases |s|
  {
    if s != [] && s[0] >= 0x80 { SkipVarintProgress(s[1..]); }
  }

  // ---------------------------------------------------------------------------
  // One entry
  // ---------------------------------------------------------------------------

  /** An integer stored into a signed member; a value the member cannot hold is an error. */
  function StoreSigned(size: nat, n: int, rest: seq<byte>): Dec<Value>
    requires IntegerSize(size)
  {
    if ToSigned(n, HalfRange(size)) == n then Ok(Num(n), rest) else Err
  }

  function StoreUnsigned(size: nat, n: nat, rest: seq<byte>): Dec<Value>
    requires IntegerSize(size)
  {
    if n % (2 * HalfRange(size)) == n then Ok(Num(n), rest) else Err
  }

  /** Members of up to 32 bits take the low 32 bits of the varint; only int64 takes all 64. */
  function VarintAsSigned(size: nat, u: nat): int {
    if size == 8 then ToInt64(u) else ToInt32(u)
  }

  function DecodeBytes(f: Field, prev: Value, s: seq<byte>): Dec<Value>
    requires ValueFits(f, prev) && f.ltype.BYTES?
  {
    match DecodeVarint32(s)
    case Failed(_) => Err
    case Got(size, rest) =>
      if size + BYTES_HEADER > f.dataSize then Err
      else
        match Take(rest, size)
        case Ok(payload, rest') => Ok(Blob(size, payload + prev.data[size..]), rest')
        case Err => Err
  }

  function DecodeString(f: Field, prev: Value, s: seq<byte>): Dec<Value>
    requires ValueFits(f, prev) && f.ltype.STRING?
  {
    match DecodeVarint32(s)
    case Failed(_) => Err
    case Got(size, rest) =>
      if size + 1 > f.dataSize then Err
      else
        match Take(rest, size)
        case Ok(payload, rest') => Ok(Text(payload + [0] + prev.buf[size + 1..]), rest')
        case Err => Err
  }

  function DecodeScalar(f: Field, prev: Value, s: seq<byte>): (r: Dec<Value>)
    requires WellFormedField(f) && ValueFits(f, prev) && !f.ltype.SUBMESSAGE?
    ensures r.Ok? ==> ValueFits(f, r.value) && |r.rest| < |s|
  {
    GroupsProgress(s, MAX_VARINT32);
    GroupsProgress(s, MAX_VARINT64);
    match f.ltype
    case VARINT => (
      match DecodeVarint(s)
      case Failed(_) => Err
      case Got(u, rest) => StoreSigned(f.dataSize, VarintAsSigned(f.dataSize, u), rest))
    case UVARINT => (
      match DecodeVarint(s)
      case Failed(_) => Err
      case Got(u, rest) => StoreUnsigned(f.dataSize, u, rest))
    case SVARINT => (
      match DecodeVarint(s)
      case Failed(_) => Err
      case Got(u, rest) => StoreSigned(f.dataSize, UnZigZag(u), rest))
    case FIXED32 =>
      if |s| < 4 then Err else FixedBound(s[..4]); Exp256Values(); Ok(Num(FromLittleEndian(s[..4])), s[4..])
    case FIXED64 =>
      if |s| < 8 then Err else FixedBound(s[..8]); Exp256Values(); Ok(Num(FromLittleEndian(s[..8])), s[8..])
    case BYTES => DecodeBytes(f, prev, s)
    case STRING => DecodeString(f, prev, s)
  }

  /** Entries of a packed array, until its substream is empty or the array is full. */
  function DecodePacked(f: Field, items: seq<Value>, count: nat, s: seq<byte>): (r: Dec<Slot>)
    requires WellFormedField(f) && f.Packable() && f.htype.REPEATED?
    requires |items| == f.arraySize && Encoding.AllFit(f, items)
    ensures r.Ok? ==> SlotFits(f, r.value)
    decreases |s|
  {
    if s == [] then Ok(Many(count, items), [])
    else if count >= f.arraySize then Err
    else
      match DecodeScalar(f, items[count], s)
      case Err => Err
      case Ok(v, rest) => DecodePacked(f, items[count := v], count + 1, rest)
  }

  // ---------------------------------------------------------------------------
  // Entries, fields and messages
  // ---------------------------------------------------------------------------

  /** An array entry that is a submessage starts from defaults; any other is merged into. */
  function SubmessageBase(f: Field, prev: Value): (slots: seq<Slot>)
    requires f.ltype.SUBMESSAGE? && ValueFits(f, prev)
    ensures MsgFits(f.sub, slots)
  {
    if f.htype.REPEATED? then Defaults(f.sub, prev.slots) else prev.slots
  }

  function DecodeValue(f: Field, prev: Value, s: seq<byte>): (r: Dec<Value>)
    requires WellFormedField(f) && ValueFits(f, prev)
    ensures r.Ok? ==> ValueFits(f, r.value) && |r.rest| < |s|
    decreases |s|, 0
  {
    if f.ltype.SUBMESSAGE? then
      SubstreamProgress(s);
      match Substream(s)
      case Err => Err
      case Ok(inner, rest) =>
        match DecodeMessage(f.sub, SubmessageBase(f, prev), inner)
        case Err => Err
        case Ok(slots, _) => Ok(Msg(slots), rest)
    else DecodeScalar(f, prev, s)
  }

  /** decode_static_field. Only an array looks at the wire type. */
  function DecodeSlot(f: Field, slot: Slot, wireType: nat, s: seq<byte>): (r: Dec<Slot>)
    requires WellFormedField(f) && SlotFits(f, slot)
    ensures r.Ok? ==> SlotFits(f, r.value) && |r.rest| < |s|
    decreases |s|, 1
  {
    match f.htype
    case REQUIRED => (
      match DecodeValue(f, slot.v, s)
      case Err => Err
      case Ok(v, rest) => Ok(One(v), rest))
    case OPTIONAL => (
      match DecodeValue(f, slot.v, s)
      case Err => Err
      case Ok(v, rest) => Ok(if f.HasFlag() then Flagged(true, v) else One(v), rest))
    case REPEATED =>
      if wireType == Encoding.WT_STRING && f.Packable() then
        SubstreamProgress(s);
        match Substream(s)
        case Err => Err
        case Ok(inner, rest) =>
          match DecodePacked(f, slot.items, slot.count, inner)
          case Err => Err
          case Ok(slot', _) => Ok(slot', rest)
      else if slot.count >= f.arraySize then Err
      else
        match DecodeValue(f, slot.items[slot.count], s)
        case Err => Err
        case Ok(v, rest) => Ok(Many(slot.count + 1, slot.items[slot.count := v]), rest)
  }

  /** Where the field loop ends: `early` when a stop tag or a cut-off tag ended it. */
  datatype Loop = Done(slots: seq<Slot>, seen: set<nat>, rest: seq<byte>, early: bool) | Fail

  function Seen(f: Field, i: nat): set<nat> {
    if f.htype.REQUIRED? then {i} else {}
  }

  /**
    The field loop of pb_decode_noinit; `seen` are the required fields met so far. On the
    table of an empty message the iterator rests on the terminator, whose tag is 0, so a
    field numbered 0 is "found" there and fails; everywhere else it is unknown.
   */
  function DecodeLoop(fields: seq<Field>, slots: seq<Slot>, seen: set<nat>, s: seq<byte>): (r: Loop)
    requires WellFormed(fields) && MsgFits(fields, slots)
    ensures r.Done? ==> MsgFits(fields, r.slots)
    decreases |s|, 2
  {
    if s == [] then Done(slots, seen, [], false)
    else
      TagProgress(s);
      match DecodeTag(s)
      case Stop(rest) => Done(slots, seen, rest, true)
      case CutOff => Done(slots, seen, [], true)
      case Bad => Fail
      case Tag(tag, wireType, rest) =>
        var i := Find(fields, tag);
        if fields == [] && tag == 0 then Fail
        else if i == |fields| then
          SkipProgress(wireType, rest);
          match SkipField(wireType, rest)
          case Err => Fail
          case Ok(_, rest') => DecodeLoop(fields, slots, seen, rest')
        else
          match DecodeSlot(fields[i], slots[i], wireType, rest)
          case Err => Fail
          case Ok(slot, rest') => DecodeLoop(fields, slots[i := slot], seen + Seen(fields[i], i), rest')
  }

  predicate AllRequired(fields: seq<Field>, seen: set<nat>) {
    forall i | 0 <= i < |fields| && fields[i].htype.REQUIRED? :: i in seen
  }

  /** pb_decode_noinit: the loop, and then every required field must have been met. */
  function DecodeMessage(fields: seq<Field>, slots: seq<Slot>, s: seq<byte>): (r: Dec<seq<Slot>>)
    requires WellFormed(fields) && MsgFits(fields, slots)
    ensures r.Ok? ==> MsgFits(fields, r.value)
    decreases |s|, 3
  {
    match DecodeLoop(fields, slots, {}, s)
    case Fail => Err
    case Done(slots', seen, rest, _) => if AllRequired(fields, seen) then Ok(slots', rest) else Err
  }

  /** pb_decode */
  function Decode(fields: seq<Field>, slots: seq<Slot>, s: seq<byte>): (r: Dec<seq<Slot>>)
    requires WellFormed(fields) && MsgFits(fields, slots)
    ensures r.Ok? ==> MsgFits(fields, r.value)
  {
    DecodeMessage(fields, Defaults(fields, slots), s)
  }

  /** pb_decode_delimited */
  function DecodeDelimited(fields: seq<Field>, slots: seq<Slot>, s: seq<byte>): Dec<seq<Slot>>
    requires WellFormed(fields) && MsgFits(fields, slots)
  {
    match Substream(s)
    case Err => Err
    case Ok(inner, rest) =>
      match Decode(fields, slots, inner)
      case Err => Err
      case Ok(slots', _) => Ok(slots', rest)
  }
}
