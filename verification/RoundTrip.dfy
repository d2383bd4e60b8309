/**
  pb_encode followed by pb_decode, for every struct of every well-formed table.

  The bytes always decode unless a string that was sent lacks its NUL. What comes back is
  the struct that went in exactly when no skipped singular submessage hides anything:
  the proto3 default test ignores counts and has_ flags, so a submessage can be dropped
  that still holds array entries or set flags.
 */
module RoundTrip {
  import opened Wire
  import opened Schema
  import opened Encoding
  import opened Decoding
  import opened Merging

  // ---------------------------------------------------------------------------
  // The conditions, read off the struct alone
  // ---------------------------------------------------------------------------

  /** No array entry is live and no has_ flag is set anywhere inside. */
  ghost predicate NothingSet(f: Field, v: Value)
    requires WellFormedField(f) && ValueFits(f, v)
    decreases f, 0
  {
    v.Msg? ==>
      assert WellFormed(f.sub) && MsgFits(f.sub, v.slots);
      forall i | 0 <= i < |f.sub| :: SlotNothingSet(f.sub[i], v.slots[i])
  }

  ghost predicate SlotNothingSet(f: Field, slot: Slot)
    requires WellFormedField(f) && SlotFits(f, slot)
    decreases f, 1
  {
    match slot
    case One(v) => NothingSet(f, v)
    case Flagged(has, _) => !has
    case Many(count, _) => count == 0
  }

  /** Every singular submessage that the encoder skips has nothing set. */
  ghost predicate LosslessValue(f: Field, v: Value)
    requires WellFormedField(f) && ValueFits(f, v)
    decreases f, 0
  {
    v.Msg? ==>
      assert WellFormed(f.sub) && MsgFits(f.sub, v.slots);
      forall i | 0 <= i < |f.sub| :: LosslessSlot(f.sub[i], v.slots[i])
  }

  ghost predicate LosslessSlot(f: Field, slot: Slot)
    requires WellFormedField(f) && SlotFits(f, slot)
    decreases f, 1
  {
    match slot
    case One(v) => if f.Implicit() && ValueIsDefault(f, v) then NothingSet(f, v) else LosslessValue(f, v)
    case Flagged(has, v) => has ==> LosslessValue(f, v)
    case Many(count, items) => forall k | 0 <= k < count && k < |items| :: LosslessValue(f, items[k])
  }

  ghost predicate Lossless(fields: seq<Field>, m: seq<Slot>)
    requires WellFormed(fields) && MsgFits(fields, m)
  {
    forall i | 0 <= i < |fields| :: LosslessSlot(fields[i], m[i])
  }

  /** Every string that the encoder sends has its NUL inside its buffer. */
  ghost predicate TerminatedValue(f: Field, v: Value)
    requires WellFormedField(f) && ValueFits(f, v)
    decreases f, 0
  {
    match v
    case Num(_) => true
    case Blob(_, _) => true
    case Text(buf) => 0 in buf
    case Msg(slots) =>
      assert WellFormed(f.sub) && MsgFits(f.sub, slots);
      forall i | 0 <= i < |f.sub| :: TerminatedSlot(f.sub[i], slots[i])
  }

  ghost predicate TerminatedSlot(f: Field, slot: Slot)
    requires WellFormedField(f) && SlotFits(f, slot)
    decreases f, 1
  {
    match slot
    case One(v) => (f.Implicit() && ValueIsDefault(f, v)) || TerminatedValue(f, v)
    case Flagged(has, v) => has ==> TerminatedValue(f, v)
    case Many(count, items) => forall k | 0 <= k < count && k < |items| :: TerminatedValue(f, items[k])
  }

  ghost predicate Terminated(fields: seq<Field>, m: seq<Slot>)
    requires WellFormed(fields) && MsgFits(fields, m)
  {
    forall i | 0 <= i < |fields| :: TerminatedSlot(fields[i], m[i])
  }

  // ---------------------------------------------------------------------------
  // A struct just set to its defaults
  // ---------------------------------------------------------------------------

  ghost predicate ClearedValue(f: Field, v: Value)
    requires WellFormedField(f) && ValueFits(f, v)
    decreases f, 0
  {
    match v
    case Num(n) => n == 0
    case Blob(size, _) => size == 0
    case Text(buf) => buf[0] == 0
    case Msg(slots) =>
      assert WellFormed(f.sub) && MsgFits(f.sub, slots);
      forall i | 0 <= i < |f.sub| :: ClearedSlot(f.sub[i], slots[i])
  }

  ghost predicate ClearedSlot(f: Field, slot: Slot)
    requires WellFormedField(f) && SlotFits(f, slot)
    decreases f, 1
  {
    match slot
    case One(v) => ClearedValue(f, v)
    case Flagged(has, v) => !has && ClearedValue(f, v)
    case Many(count, _) => count == 0
  }

  ghost predicate Cleared(fields: seq<Field>, slots: seq<Slot>)
    requires WellFormed(fields) && MsgFits(fields, slots)
  {
    forall i | 0 <= i < |fields| :: ClearedSlot(fields[i], slots[i])
  }

  lemma {:induction false} ZeroIsCleared(f: Field, v: Value)
    requires WellFormedField(f) && ValueFits(f, v)
    ensures ClearedValue(f, ZeroValue(f, v))
    decreases f, 0
  {
    if v.Msg? { DefaultsAreCleared(f.sub, v.slots); }
  }

  lemma {:induction false} DefaultsAreCleared(fields: seq<Field>, slots: seq<Slot>)
    requires WellFormed(fields) && MsgFits(fields, slots)
    ensures Cleared(fields, Defaults(fields, slots))
    decreases fields, 1
  {
    forall i | 0 <= i < |fields| ensures ClearedSlot(fields[i], Defaults(fields, slots)[i]) {
      if !slots[i].Many? { ZeroIsCleared(fields[i], slots[i].v); }
    }
  }

  // ---------------------------------------------------------------------------
  // Merging into a cleared struct
  // ---------------------------------------------------------------------------

  lemma {:induction false} CStringOfTerminated(s: seq<byte>, t: seq<byte>)
    requires 0 !in s
    ensures CString(s + [0] + t) == s
    decreases |s|
  {
    if s == [] {
      assert (s + [0] + t)[0] == 0;
    } else {
      assert (s + [0] + t)[1..] == s[1..] + [0] + t;
      CStringOfTerminated(s[1..], t);
    }
  }

  /** A skipped value comes back as the cleared one: the same exactly when it had nothing set. */
  lemma {:induction false} SkippedSame(f: Field, d: Value, v: Value)
    requires WellFormedField(f) && ValueFits(f, d) && ValueFits(f, v)
    requires ClearedValue(f, d) && ValueIsDefault(f, v)
    ensures SameValue(f, d, v) <==> NothingSet(f, v)
    decreases f
  {
    if v.Msg? {
      forall i | 0 <= i < |f.sub|
        ensures SameSlot(f.sub[i], d.slots[i], v.slots[i]) <==> SlotNothingSet(f.sub[i], v.slots[i])
      {
        assert SlotFits(f.sub[i], d.slots[i]) && SlotFits(f.sub[i], v.slots[i]);
        assert ClearedSlot(f.sub[i], d.slots[i]) && SlotIsDefault(f.sub[i], v.slots[i]);
        if v.slots[i].One? { SkippedSame(f.sub[i], d.slots[i].v, v.slots[i].v); }
      }
    }
  }

  /** A fresh base: what the decoder starts a sent submessage from when the struct was cleared. */
  ghost predicate FreshBase(f: Field, d: Value)
    requires WellFormedField(f) && ValueFits(f, d)
  {
    f.ltype.SUBMESSAGE? ==> WellFormed(f.sub) && Cleared(f.sub, SubmessageBase(f, d))
  }

  lemma {:induction false} MergedSame(f: Field, d: Value, v: Value)
    requires WellFormedField(f) && ValueFits(f, d) && ValueFits(f, v)
    requires FreshBase(f, d) && InBounds(f, v) && TerminatedValue(f, v)
    ensures SameValue(f, MergeValue(f, d, v), v) <==> LosslessValue(f, v)
    decreases f, 0
  {
    match v
    case Num(_) =>
    case Blob(size, data) =>
      assert MergeValue(f, d, v).data[..size] == data[..size];
    case Text(buf) =>
      var s := CString(buf);
      CStringOfTerminated(s, d.buf[|s| + 1..]);
    case Msg(slots) =>
      var base := SubmessageBase(f, d);
      forall i | 0 <= i < |f.sub|
        ensures SameSlot(f.sub[i], MergeMsg(f.sub, base, slots)[i], slots[i]) <==> LosslessSlot(f.sub[i], slots[i])
      {
        MergedSlotSame(f.sub[i], base[i], slots[i]);
      }
  }

  lemma EntryBaseFresh(f: Field, d: Value)
    requires WellFormedField(f) && ValueFits(f, d) && (f.htype.REPEATED? || ClearedValue(f, d))
    ensures FreshBase(f, d)
  {
    if f.ltype.SUBMESSAGE? && f.htype.REPEATED? { DefaultsAreCleared(f.sub, d.slots); }
  }

  lemma {:induction false} MergedSlotSame(f: Field, d: Slot, m: Slot)
    requires WellFormedField(f) && SlotFits(f, d) && SlotFits(f, m)
    requires ClearedSlot(f, d) && SlotInBounds(f, m) && TerminatedSlot(f, m)
    ensures SameSlot(f, MergeSlot(f, d, m), m) <==> LosslessSlot(f, m)
    decreases f, 1
  {
    hide ClearedValue, InBounds, TerminatedValue, NothingSet, LosslessValue, ValueIsDefault, MergeValue, SameValue;
    match m
    case One(v) =>
      EntryBaseFresh(f, d.v);
      if f.Implicit() && ValueIsDefault(f, v) { SkippedSame(f, d.v, v); } else { MergedSame(f, d.v, v); }
    case Flagged(has, v) =>
      EntryBaseFresh(f, d.v);
      if has { MergedSame(f, d.v, v); }
    case Many(count, items) =>
      var merged := Append(f, d.items, 0, items[..count]).items;
      forall k | 0 <= k < count
        ensures SameValue(f, merged[k], items[k]) <==> LosslessValue(f, items[k])
      {
        EntryBaseFresh(f, d.items[k]);
        assert merged[k] == MergeValue(f, d.items[0 + k], items[..count][k]);
        MergedSame(f, d.items[k], items[k]);
      }
  }

  lemma {:induction false} FreshAccepts(f: Field, d: Value, v: Value)
    requires WellFormedField(f) && ValueFits(f, d) && ValueFits(f, v)
    requires FreshBase(f, d) && InBounds(f, v)
    ensures AcceptsValue(f, d, v) <==> TerminatedValue(f, v)
    decreases f, 0
  {
    if v.Msg? {
      var base := SubmessageBase(f, d);
      forall i | 0 <= i < |f.sub|
        ensures AcceptsSlot(f.sub[i], base[i], v.slots[i]) <==> TerminatedSlot(f.sub[i], v.slots[i])
      {
        FreshAcceptsSlot(f.sub[i], base[i], v.slots[i]);
      }
    }
  }

  lemma {:induction false} FreshAcceptsSlot(f: Field, d: Slot, m: Slot)
    requires WellFormedField(f) && SlotFits(f, d) && SlotFits(f, m)
    requires ClearedSlot(f, d) && SlotInBounds(f, m)
    ensures AcceptsSlot(f, d, m) <==> TerminatedSlot(f, m)
    decreases f, 1
  {
    match m
    case One(v) =>
      EntryBaseFresh(f, d.v);
      if !(f.Implicit() && ValueIsDefault(f, v)) { FreshAccepts(f, d.v, v); }
    case Flagged(has, v) =>
      EntryBaseFresh(f, d.v);
      if has { FreshAccepts(f, d.v, v); }
    case Many(count, items) =>
      forall k | 0 <= k < count
        ensures AcceptsValue(f, d.items[0 + k], items[..count][k]) <==> TerminatedValue(f, items[k])
      {
        EntryBaseFresh(f, d.items[k]);
        FreshAccepts(f, d.items[k], items[k]);
      }
  }

  // ---------------------------------------------------------------------------
  // The round trip
  // ---------------------------------------------------------------------------

  /**
    Whatever the destination held before: the bytes of `m` decode exactly when every sent
    string is terminated, all bytes are consumed, and the decoded struct is `m` again exactly
    when `m` is lossless.
   */
  lemma RoundTripExact(fields: seq<Field>, m: seq<Slot>, dest: seq<Slot>)
    requires WellFormed(fields) && MsgFits(fields, m) && MsgFits(fields, dest)
    requires EncodeMsg(fields, m).Some? && |EncodeMsg(fields, m).value| < TWO32
    ensures var r := Decode(fields, dest, EncodeMsg(fields, m).value);
            && (r.Ok? <==> Terminated(fields, m))
            && (r.Ok? ==> r.rest == [] && (SameMsg(fields, r.value, m) <==> Lossless(fields, m)))
  {
    var d := Defaults(fields, dest);
    DefaultsAreCleared(fields, dest);
    MsgEncodable(fields, m);
    MessageExact(fields, d, m);
    forall i | 0 <= i < |fields| ensures AcceptsSlot(fields[i], d[i], m[i]) <==> TerminatedSlot(fields[i], m[i]) {
      FreshAcceptsSlot(fields[i], d[i], m[i]);
    }
    if Terminated(fields, m) {
      forall i | 0 <= i < |fields|
        ensures SameSlot(fields[i], MergeMsg(fields, d, m)[i], m[i]) <==> LosslessSlot(fields[i], m[i])
      {
        MergedSlotSame(fields[i], d[i], m[i]);
      }
    }
  }

  /** The delimited forms: the same, and what follows the message stays in the stream. */
  lemma DelimitedRoundTrip(fields: seq<Field>, m: seq<Slot>, dest: seq<Slot>, rest: seq<byte>)
    requires WellFormed(fields) && MsgFits(fields, m) && MsgFits(fields, dest)
    requires EncodeMsg(fields, m).Some? && |EncodeMsg(fields, m).value| < TWO32
    ensures var r := DecodeDelimited(fields, dest, Delimited(EncodeMsg(fields, m).value) + rest);
            && (r.Ok? <==> Terminated(fields, m))
            && (r.Ok? ==> MsgFits(fields, r.value) && r.rest == rest
                          && (SameMsg(fields, r.value, m) <==> Lossless(fields, m)))
  {
    RoundTripExact(fields, m, dest);
    SubstreamRoundTrip(EncodeMsg(fields, m).value, rest);
  }

  // ---------------------------------------------------------------------------
  // Tables on which nothing can be lost
  // ---------------------------------------------------------------------------

  /** No array and no has_ flag in this table or in the tables of its plain submessages. */
  ghost predicate NothingToHide(fields: seq<Field>)
    decreases fields
  {
    forall i | 0 <= i < |fields| ::
      !fields[i].htype.REPEATED? && !fields[i].HasFlag()
      && (fields[i].ltype.SUBMESSAGE? ==> NothingToHide(fields[i].sub))
  }

  /** Every type used as a singular submessage has nothing to hide. */
  ghost predicate SafeTable(fields: seq<Field>)
    decreases fields
  {
    forall i | 0 <= i < |fields| && fields[i].ltype.SUBMESSAGE? ::
      SafeTable(fields[i].sub) && (fields[i].Implicit() ==> NothingToHide(fields[i].sub))
  }

  lemma {:induction false} NothingToHideIsUnset(f: Field, v: Value)
    requires WellFormedField(f) && ValueFits(f, v) && (f.ltype.SUBMESSAGE? ==> NothingToHide(f.sub))
    ensures NothingSet(f, v)
    decreases f
  {
    if v.Msg? {
      forall i | 0 <= i < |f.sub| ensures SlotNothingSet(f.sub[i], v.slots[i]) {
        assert SlotFits(f.sub[i], v.slots[i]) && WellFormedField(f.sub[i]);
        NothingToHideIsUnset(f.sub[i], v.slots[i].v);
      }
    }
  }

  lemma {:induction false} SafeValueLossless(f: Field, v: Value)
    requires WellFormedField(f) && ValueFits(f, v) && (f.ltype.SUBMESSAGE? ==> SafeTable(f.sub))
    ensures LosslessValue(f, v)
    decreases f, 0
  {
    if v.Msg? { SafeTableLossless(f.sub, v.slots); }
  }

  /** On a safe table every struct is lossless, whatever it holds. */
  lemma {:induction false} SafeTableLossless(fields: seq<Field>, m: seq<Slot>)
    requires WellFormed(fields) && MsgFits(fields, m) && SafeTable(fields)
    ensures Lossless(fields, m)
    decreases fields, 1
  {
    forall i | 0 <= i < |fields| ensures LosslessSlot(fields[i], m[i]) {
      var f := fields[i];
      match m[i]
      case One(v) =>
        if f.Implicit() && ValueIsDefault(f, v) { NothingToHideIsUnset(f, v); } else { SafeValueLossless(f, v); }
      case Flagged(_, v) => SafeValueLossless(f, v);
      case Many(count, items) =>
        forall k | 0 <= k < count && k < |items| ensures LosslessValue(f, items[k]) {
          SafeValueLossless(f, items[k]);
        }
    }
  }

  /** On safe tables with terminated strings, decoding returns the struct that was encoded. */
  lemma RoundTripSafe(fields: seq<Field>, m: seq<Slot>, dest: seq<Slot>)
    requires WellFormed(fields) && SafeTable(fields) && MsgFits(fields, m) && MsgFits(fields, dest)
    requires MsgInBounds(fields, m) && Terminated(fields, m)
    requires EncodeMsg(fields, m).Some? ==> |EncodeMsg(fields, m).value| < TWO32
    ensures EncodeMsg(fields, m).Some?
    ensures var r := Decode(fields, dest, EncodeMsg(fields, m).value);
            r.Ok? && r.rest == [] && SameMsg(fields, r.value, m)
  {
    MsgEncodable(fields, m);
    SafeTableLossless(fields, m);
    RoundTripExact(fields, m, dest);
  }

  // ---------------------------------------------------------------------------
  // Two messages in a row
  // ---------------------------------------------------------------------------

  /** "Last One Wins": decoding two encodings in a row is the merge of the second into the first. */
  lemma LastOneWins(fields: seq<Field>, d: seq<Slot>, a: seq<Slot>, b: seq<Slot>)
    requires WellFormed(fields) && MsgFits(fields, d) && MsgFits(fields, a) && MsgFits(fields, b)
    requires EncodeMsg(fields, a).Some? && EncodeMsg(fields, b).Some?
    requires |EncodeMsg(fields, a).value| < TWO32 && |EncodeMsg(fields, b).value| < TWO32
    ensures DecodeMessage(fields, d, EncodeMsg(fields, a).value + EncodeMsg(fields, b).value)
            == if AcceptsFrom(fields, d, a, 0) && AcceptsFrom(fields, MergeMsg(fields, d, a), b, 0)
               then Ok(MergeMsg(fields, MergeMsg(fields, d, a), b), []) else Err
  {
    var eb := EncodeMsg(fields, b).value;
    FromExact(fields, d, a, {}, 0, eb);
    if AcceptsFrom(fields, d, a, 0) {
      FromExact(fields, MergeMsg(fields, d, a), b, {} + RequiredFrom(fields, 0), 0, []);
      assert eb + [] == eb;
      assert forall i | 0 <= i < |fields| && fields[i].htype.REQUIRED? :: i in RequiredFrom(fields, 0);
    }
  }

  // ---------------------------------------------------------------------------
  // The loss is real
  // ---------------------------------------------------------------------------

  /** A singular submessage whose type is one array of four int32. */
  function HidingTable(): seq<Field> {
    [Field(1, OPTIONAL, SUBMESSAGE, 0, 0, 20, 0,
           [Field(1, REPEATED, VARINT, 4, -4, 4, 4, [])])]
  }

  /** One live entry, equal to 0. */
  function HidingStruct(): seq<Slot> {
    [One(Msg([Many(1, [Num(0), Num(0), Num(0), Num(0)])]))]
  }

  /** The encoder writes nothing for it and the decoder returns an empty array. */
  lemma {:induction false} LossWitness(dest: seq<Slot>)
    requires MsgFits(HidingTable(), dest)
    ensures WellFormed(HidingTable()) && MsgFits(HidingTable(), HidingStruct())
    ensures EncodeMsg(HidingTable(), HidingStruct()) == Some([])
    ensures var r := Decode(HidingTable(), dest, []);
            r.Ok? && !SameMsg(HidingTable(), r.value, HidingStruct())
  {
    var table, m := HidingTable(), HidingStruct();
    var f := table[0];
    assert WellFormedField(f.sub[0]);
    assert WellFormed(f.sub);
    assert WellFormedField(f);
    assert SlotFits(f.sub[0], m[0].v.slots[0]);
    assert ValueIsDefault(f.sub[0], Num(0));
    assert SlotIsDefault(f.sub[0], m[0].v.slots[0]);
    assert ValueIsDefault(f, m[0].v);
    assert EncodeFrom(table, m, 1) == Some([]);
    assert !SlotNothingSet(f.sub[0], m[0].v.slots[0]);
    assert !LosslessSlot(f, m[0]);
    RoundTripExact(table, m, dest);
    assert TerminatedSlot(f, m[0]);
  }
}
