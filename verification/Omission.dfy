/**
  Which fields the encoder leaves out, and what pb_message_set_to_defaults makes of a struct,
  member by member and without the functions that the encoder and the decoder use for it.
 */
module Omission {
  import opened Wire
  import opened Schema
  import opened Encoding

  /** The entry that stands for a member when its submessage is asked for content: of an array, entry 0. */
  function Entry(slot: Slot): Value
    requires slot.Many? ==> slot.items != []
  {
    if slot.Many? then slot.items[0] else slot.v
  }

  /** The same member as a singular field of its own. */
  function AsSingular(f: Field): Field {
    f.(htype := OPTIONAL, sizeOffset := 0)
  }

  lemma AsSingularFits(f: Field, slot: Slot)
    requires WellFormedField(f) && SlotFits(f, slot)
    ensures slot.Many? ==> slot.items != []
    ensures WellFormedField(AsSingular(f)) && SlotFits(AsSingular(f), One(Entry(slot)))
    ensures ValueFits(f, Entry(slot)) && ValueIsDefault(AsSingular(f), Entry(slot)) == ValueIsDefault(f, Entry(slot))
  {
    assert ValueFits(AsSingular(f), Entry(slot)) == ValueFits(f, Entry(slot));
  }

  lemma TaggedNotEmpty(f: Field, v: Value)
    requires WellFormedField(f) && ValueFits(f, v)
    ensures EncodeTagged(f, v) != Some([])
  {
    hide EncodeValue;
    assert |EncodeVarint(8 * f.tag + WireType(f.ltype))| >= 1;
  }

  /**
    A singular field is left out exactly when its number is zero, its bytes are none or its
    string begins with a NUL.
   */
  lemma ScalarOmittedExactly(f: Field, v: Value)
    requires WellFormedField(f) && ValueFits(f, v) && f.htype.OPTIONAL? && f.sizeOffset == 0 && !f.ltype.SUBMESSAGE?
    ensures EncodeSlot(f, One(v)) == Some([])
            <==> match v
                 case Num(n) => n == 0
                 case Blob(size, _) => size == 0
                 case Text(buf) => buf[0] == 0
                 case Msg(_) => false
  {
    hide EncodeTagged;
    TaggedNotEmpty(f, v);
  }

  /** The encoder would leave this member out if it were a singular field. */
  ghost predicate OmittedAlone(f: Field, slot: Slot)
    requires WellFormedField(f) && SlotFits(f, slot)
  {
    AsSingularFits(f, slot);
    EncodeSlot(AsSingular(f), One(Entry(slot))) == Some([])
  }

  /**
    ... and a submessage exactly when each of its members would be, as a singular field: flags
    and counts are not looked at, and of an array only entry 0 is.
   */
  lemma SubmessageOmittedExactly(f: Field, slots: seq<Slot>)
    requires WellFormedField(f) && f.htype.OPTIONAL? && f.sizeOffset == 0 && f.ltype.SUBMESSAGE?
    requires ValueFits(f, Msg(slots))
    ensures |slots| == |f.sub|
    ensures forall i | 0 <= i < |f.sub| :: WellFormedField(f.sub[i]) && SlotFits(f.sub[i], slots[i])
    ensures EncodeSlot(f, One(Msg(slots))) == Some([])
            <==> forall i | 0 <= i < |f.sub| :: OmittedAlone(f.sub[i], slots[i])
  {
    hide EncodeTagged, OmittedAlone;
    TaggedNotEmpty(f, Msg(slots));
    forall i | 0 <= i < |f.sub|
      ensures WellFormedField(f.sub[i]) && SlotFits(f.sub[i], slots[i])
      ensures SlotIsDefault(f.sub[i], slots[i]) <==> OmittedAlone(f.sub[i], slots[i])
    {
      assert WellFormed(f.sub) && MsgFits(f.sub, slots);
      MemberOmitted(f.sub[i], slots[i]);
    }
  }

  lemma MemberOmitted(f: Field, slot: Slot)
    requires WellFormedField(f) && SlotFits(f, slot)
    ensures SlotIsDefault(f, slot) <==> OmittedAlone(f, slot)
  {
    hide EncodeTagged, ValueIsDefault;
    AsSingularFits(f, slot);
    TaggedNotEmpty(AsSingular(f), Entry(slot));
  }

  /** A required field is never left out, a flagged one exactly without its flag, an array exactly when it is empty. */
  lemma OthersOmittedExactly(f: Field, slot: Slot)
    requires WellFormedField(f) && SlotFits(f, slot) && (f.htype.OPTIONAL? ==> f.sizeOffset != 0)
    ensures EncodeSlot(f, slot) == Some([])
            <==> match slot
                 case One(_) => false
                 case Flagged(has, _) => !has
                 case Many(count, _) => count == 0
  {
    hide EncodeTagged, EncodePacked;
    if slot.Many? {
      if 0 < slot.count <= f.arraySize {
        assert |EncodeVarint(8 * f.tag + WT_STRING)| >= 1;
        EachNotEmpty(f, slot.items[..slot.count]);
      }
    } else {
      TaggedNotEmpty(f, slot.v);
    }
  }

  lemma EachNotEmpty(f: Field, vs: seq<Value>)
    requires WellFormedField(f) && AllFit(f, vs) && vs != []
    ensures EncodeEach(f, vs) != Some([])
  {
    hide EncodeTagged;
    TaggedNotEmpty(f, vs[0]);
  }

  // ---------------------------------------------------------------------------
  // Defaults
  // ---------------------------------------------------------------------------

  predicate AllZero(bs: seq<byte>) {
    forall k | 0 <= k < |bs| :: bs[k] == 0
  }

  /** Clearing a member switches its flag off or sets its count to 0; the entries of an array stay. */
  lemma MemberCleared(f: Field, slot: Slot)
    requires SlotFits(f, slot)
    ensures match slot
            case One(v) => DefaultSlot(f, slot) == One(ZeroValue(f, v))
            case Flagged(_, v) => DefaultSlot(f, slot) == Flagged(false, ZeroValue(f, v))
            case Many(_, items) => DefaultSlot(f, slot) == Many(0, items)
  {
  }

  /** Its data become zero: numbers, every byte of a buffer, and a submessage member by member. */
  lemma DataCleared(f: Field, v: Value)
    requires ValueFits(f, v)
    ensures var z := ZeroValue(f, v);
            match v
            case Num(_) => z == Num(0)
            case Blob(_, data) => z.Blob? && z.size == 0 && |z.data| == |data| && AllZero(z.data)
            case Text(buf) => z.Text? && |z.buf| == |buf| && AllZero(z.buf)
            case Msg(slots) => z.Msg? && |z.slots| == |slots| == |f.sub|
    ensures v.Msg? ==> forall i | 0 <= i < |f.sub| ::
              SlotFits(f.sub[i], v.slots[i]) && ZeroValue(f, v).slots[i] == DefaultSlot(f.sub[i], v.slots[i])
  {
  }

  /**
    Cleared members are not written, except that the stale first entry of an array inside a
    singular submessage still makes the encoder write that submessage.
   */
  lemma ClearedOmittedExactly(f: Field, slot: Slot)
    requires WellFormedField(f) && SlotFits(f, slot) && !f.htype.REQUIRED?
    ensures EncodeSlot(f, DefaultSlot(f, slot)) == Some([]) <==> f.Implicit() ==> !StaleEntry(f, slot.v)
  {
    hide EncodeTagged;
    if f.Implicit() {
      ZeroIsDefaultExactly(f, slot.v);
      TaggedNotEmpty(f, ZeroValue(f, slot.v));
    }
  }

  /** Entry 0 of some array in this value, which clearing leaves alone, is not zero. */
  ghost predicate StaleEntry(f: Field, v: Value)
    requires WellFormedField(f) && ValueFits(f, v)
    decreases f, 0
  {
    match v
    case Num(_) => false
    case Blob(_, _) => false
    case Text(_) => false
    case Msg(slots) =>
      assert WellFormed(f.sub) && MsgFits(f.sub, slots);
      exists i :: 0 <= i < |f.sub| && StaleMember(f.sub[i], slots[i])
  }

  ghost predicate StaleMember(f: Field, slot: Slot)
    requires WellFormedField(f) && SlotFits(f, slot)
    decreases f, 1
  {
    match slot
    case One(v) => StaleEntry(f, v)
    case Flagged(_, v) => StaleEntry(f, v)
    case Many(_, items) => !ValueIsDefault(f, items[0])
  }

  lemma {:induction false} ZeroIsDefaultExactly(f: Field, v: Value)
    requires WellFormedField(f) && ValueFits(f, v)
    ensures ValueIsDefault(f, ZeroValue(f, v)) <==> !StaleEntry(f, v)
    decreases f
  {
    match v
    case Num(_) =>
    case Blob(_, _) =>
    case Text(buf) =>
    case Msg(slots) =>
      var z := ZeroValue(f, v).slots;
      forall i | 0 <= i < |f.sub|
        ensures WellFormedField(f.sub[i]) && SlotFits(f.sub[i], slots[i]) && SlotFits(f.sub[i], z[i])
        ensures SlotIsDefault(f.sub[i], z[i]) <==> !StaleMember(f.sub[i], slots[i])
      {
        var g, slot := f.sub[i], slots[i];
        assert WellFormed(f.sub) && MsgFits(f.sub, slots);
        assert SlotFits(g, slot);
        assert z == Defaults(f.sub, slots) && z[i] == DefaultSlot(g, slot);
        if !slot.Many? { ZeroIsDefaultExactly(g, slot.v); }
      }
  }
}
