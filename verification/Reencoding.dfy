/**
  What can come out of the decoder, for arbitrary bytes: counts within their arrays, sizes
  within their buffers, strings with their NUL. So whatever was decoded can be encoded, and
  decoded again.
 */
module Reencoding {
  import opened Wire
  import opened Schema
  import opened Encoding
  import opened Decoding
  import opened RoundTrip

  // ---------------------------------------------------------------------------
  // Sound structs
  // ---------------------------------------------------------------------------

  /** In bounds and terminated throughout; only array entries past the count may hold anything. */
  ghost predicate Sound(f: Field, v: Value)
    requires WellFormedField(f) && ValueFits(f, v)
    decreases f, 0
  {
    match v
    case Num(_) => true
    case Blob(size, data) => size <= |data|
    case Text(buf) => 0 in buf
    case Msg(slots) =>
      assert WellFormed(f.sub) && MsgFits(f.sub, slots);
      forall i | 0 <= i < |f.sub| :: SoundSlot(f.sub[i], slots[i])
  }

  ghost predicate SoundSlot(f: Field, slot: Slot)
    requires WellFormedField(f) && SlotFits(f, slot)
    decreases f, 1
  {
    match slot
    case One(v) => Sound(f, v)
    case Flagged(_, v) => Sound(f, v)
    case Many(count, items) => count <= |items| && forall k | 0 <= k < count :: Sound(f, items[k])
  }

  ghost predicate SoundMsg(fields: seq<Field>, slots: seq<Slot>)
    requires WellFormed(fields) && MsgFits(fields, slots)
  {
    forall i | 0 <= i < |fields| :: SoundSlot(fields[i], slots[i])
  }

  lemma {:induction false} ClearedIsSound(f: Field, v: Value)
    requires WellFormedField(f) && ValueFits(f, v) && ClearedValue(f, v)
    ensures Sound(f, v)
    decreases f
  {
    if v.Msg? {
      forall i | 0 <= i < |f.sub| ensures SoundSlot(f.sub[i], v.slots[i]) {
        assert ClearedSlot(f.sub[i], v.slots[i]) && SlotFits(f.sub[i], v.slots[i]);
        if !v.slots[i].Many? { ClearedIsSound(f.sub[i], v.slots[i].v); }
      }
    }
  }

  lemma DefaultsAreSound(fields: seq<Field>, slots: seq<Slot>)
    requires WellFormed(fields) && MsgFits(fields, slots)
    ensures SoundMsg(fields, Defaults(fields, slots))
  {
    hide Defaults, ClearedValue, Sound;
    var z := Defaults(fields, slots);
    DefaultsAreCleared(fields, slots);
    forall i | 0 <= i < |fields| ensures SoundSlot(fields[i], z[i]) {
      assert ClearedSlot(fields[i], z[i]) && SlotFits(fields[i], z[i]);
      if !z[i].Many? { ClearedIsSound(fields[i], z[i].v); }
    }
  }

  lemma {:induction false} SoundInBounds(f: Field, v: Value)
    requires WellFormedField(f) && ValueFits(f, v) && Sound(f, v)
    ensures InBounds(f, v) && TerminatedValue(f, v)
    decreases f, 0
  {
    if v.Msg? {
      forall i | 0 <= i < |f.sub| ensures SlotInBounds(f.sub[i], v.slots[i]) && TerminatedSlot(f.sub[i], v.slots[i]) {
        assert SoundSlot(f.sub[i], v.slots[i]) && SlotFits(f.sub[i], v.slots[i]);
        SoundSlotInBounds(f.sub[i], v.slots[i]);
      }
    }
  }

  lemma {:induction false} SoundSlotInBounds(f: Field, slot: Slot)
    requires WellFormedField(f) && SlotFits(f, slot) && SoundSlot(f, slot)
    ensures SlotInBounds(f, slot) && TerminatedSlot(f, slot)
    decreases f, 1
  {
    hide Sound, InBounds, TerminatedValue;
    match slot
    case One(v) => SoundInBounds(f, v);
    case Flagged(_, v) => SoundInBounds(f, v);
    case Many(count, items) =>
      forall k | 0 <= k < count ensures InBounds(f, items[k]) && TerminatedValue(f, items[k]) {
        SoundInBounds(f, items[k]);
      }
  }

  // ---------------------------------------------------------------------------
  // Decoding keeps structs sound
  // ---------------------------------------------------------------------------

  lemma ScalarSound(f: Field, prev: Value, s: seq<byte>)
    requires WellFormedField(f) && ValueFits(f, prev) && !f.ltype.SUBMESSAGE?
    ensures DecodeScalar(f, prev, s).Ok? ==> Sound(f, DecodeScalar(f, prev, s).value)
  {
    hide ReadGroups;
    if f.ltype.STRING? && DecodeScalar(f, prev, s).Ok? {
      var size := DecodeVarint32(s).value;
      assert DecodeScalar(f, prev, s).value.buf[size] == 0;
    }
  }

  lemma {:induction false} PackedSound(f: Field, items: seq<Value>, count: nat, s: seq<byte>)
    requires WellFormedField(f) && f.Packable() && f.htype.REPEATED?
    requires |items| == f.arraySize && AllFit(f, items) && SoundSlot(f, Many(count, items))
    ensures DecodePacked(f, items, count, s).Ok? ==> SoundSlot(f, DecodePacked(f, items, count, s).value)
    decreases |s|
  {
    hide DecodeScalar;
    if s != [] && count < f.arraySize {
      ScalarSound(f, items[count], s);
      var r := DecodeScalar(f, items[count], s);
      if r.Ok? { PackedSound(f, items[count := r.value], count + 1, r.rest); }
    }
  }

  lemma {:induction false} ValueSound(f: Field, prev: Value, s: seq<byte>)
    requires WellFormedField(f) && ValueFits(f, prev) && (f.htype.REPEATED? || Sound(f, prev))
    ensures DecodeValue(f, prev, s).Ok? ==> Sound(f, DecodeValue(f, prev, s).value)
    decreases |s|, 0
  {
    if f.ltype.SUBMESSAGE? {
      SubstreamProgress(s);
      if Substream(s).Ok? {
        if f.htype.REPEATED? { DefaultsAreSound(f.sub, prev.slots); }
        MessageSound(f.sub, SubmessageBase(f, prev), Substream(s).value);
      }
    } else {
      ScalarSound(f, prev, s);
    }
  }

  lemma {:induction false} SlotSound(f: Field, slot: Slot, wireType: nat, s: seq<byte>)
    requires WellFormedField(f) && SlotFits(f, slot) && SoundSlot(f, slot)
    ensures DecodeSlot(f, slot, wireType, s).Ok? ==> SoundSlot(f, DecodeSlot(f, slot, wireType, s).value)
    decreases |s|, 1
  {
    hide DecodeValue, DecodePacked, Sound, Substream;
    if f.htype.REPEATED? {
      if wireType == WT_STRING && f.Packable() {
        SubstreamProgress(s);
        if Substream(s).Ok? { PackedSound(f, slot.items, slot.count, Substream(s).value); }
      } else if slot.count < f.arraySize {
        ValueSound(f, slot.items[slot.count], s);
      }
    } else {
      ValueSound(f, slot.v, s);
    }
  }

  lemma {:induction false} LoopSound(fields: seq<Field>, slots: seq<Slot>, seen: set<nat>, s: seq<byte>)
    requires WellFormed(fields) && MsgFits(fields, slots) && SoundMsg(fields, slots)
    ensures var r := DecodeLoop(fields, slots, seen, s); r.Done? ==> SoundMsg(fields, r.slots)
    decreases |s|, 2
  {
    hide DecodeSlot, SkipField, SoundSlot;
    if s != [] && DecodeTag(s).Tag? {
      TagProgress(s);
      var t := DecodeTag(s);
      var i := Find(fields, t.tag);
      if i == |fields| {
        SkipProgress(t.wireType, t.rest);
        if SkipField(t.wireType, t.rest).Ok? { LoopSound(fields, slots, seen, SkipField(t.wireType, t.rest).rest); }
      } else {
        SlotSound(fields[i], slots[i], t.wireType, t.rest);
        var r := DecodeSlot(fields[i], slots[i], t.wireType, t.rest);
        if r.Ok? { LoopSound(fields, slots[i := r.value], seen + Seen(fields[i], i), r.rest); }
      }
    }
  }

  lemma {:induction false} MessageSound(fields: seq<Field>, slots: seq<Slot>, s: seq<byte>)
    requires WellFormed(fields) && MsgFits(fields, slots) && SoundMsg(fields, slots)
    ensures DecodeMessage(fields, slots, s).Ok? ==> SoundMsg(fields, DecodeMessage(fields, slots, s).value)
    decreases |s|, 3
  {
    hide DecodeLoop;
    LoopSound(fields, slots, {}, s);
  }

  // ---------------------------------------------------------------------------
  // The results
  // ---------------------------------------------------------------------------

  /** Whatever bytes pb_decode accepts, into whatever memory: the struct is in bounds and terminated. */
  lemma DecodedIsSound(fields: seq<Field>, dest: seq<Slot>, s: seq<byte>)
    requires WellFormed(fields) && MsgFits(fields, dest) && Decode(fields, dest, s).Ok?
    ensures var m := Decode(fields, dest, s).value;
            MsgInBounds(fields, m) && Terminated(fields, m) && EncodeMsg(fields, m).Some?
  {
    hide DecodeMessage, Defaults, Sound, SoundSlot, InBounds, SlotInBounds, TerminatedSlot;
    DefaultsAreSound(fields, dest);
    MessageSound(fields, Defaults(fields, dest), s);
    var m := Decode(fields, dest, s).value;
    forall i | 0 <= i < |fields| ensures SlotInBounds(fields[i], m[i]) && TerminatedSlot(fields[i], m[i]) {
      assert SoundSlot(fields[i], m[i]) && SlotFits(fields[i], m[i]);
      SoundSlotInBounds(fields[i], m[i]);
    }
    MsgEncodable(fields, m);
  }

  /** So it can be sent on: the re-encoded struct decodes, and is the same again exactly when it is lossless. */
  lemma DecodedCanBeForwarded(fields: seq<Field>, dest: seq<Slot>, s: seq<byte>, dest': seq<Slot>)
    requires WellFormed(fields) && MsgFits(fields, dest) && MsgFits(fields, dest') && Decode(fields, dest, s).Ok?
    requires var e := EncodeMsg(fields, Decode(fields, dest, s).value); e.Some? ==> |e.value| < TWO32
    ensures var m := Decode(fields, dest, s).value;
            && EncodeMsg(fields, m).Some?
            && var r := Decode(fields, dest', EncodeMsg(fields, m).value);
               r.Ok? && r.rest == [] && (SameMsg(fields, r.value, m) <==> Lossless(fields, m))
  {
    hide Decode, EncodeMsg, SameMsg, Lossless, Terminated, MsgInBounds;
    DecodedIsSound(fields, dest, s);
    RoundTripExact(fields, Decode(fields, dest, s).value, dest');
  }
}
