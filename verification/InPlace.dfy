/**
  Submessages as the format promises them: occurrences of a singular submessage field add up
  to one, as if their payloads had been concatenated, and every entry of an array is new.

  The laws speak of the struct that is there, not of the struct the decoder starts from.
 */
module InPlace {
  import opened Wire
  import opened Schema
  import opened Encoding
  import opened Decoding
  import opened Merging
  import opened Concatenation
  import opened Aftermath

  ghost predicate NothingRequired(fields: seq<Field>) {
    forall i | 0 <= i < |fields| :: !fields[i].htype.REQUIRED?
  }

  /** A singular submessage field and the struct that is its member; the last line is implied. */
  ghost predicate SingularSubmessage(f: Field, slot: Slot) {
    && WellFormedField(f) && SlotFits(f, slot) && f.ltype.SUBMESSAGE? && !f.htype.REPEATED?
    && !slot.Many? && slot.v.Msg? && MsgFits(f.sub, slot.v.slots) && WellFormed(f.sub)
  }

  lemma SingularSubmessageAlways(f: Field, slot: Slot)
    requires WellFormedField(f) && SlotFits(f, slot) && f.ltype.SUBMESSAGE? && !f.htype.REPEATED?
    ensures SingularSubmessage(f, slot)
  {
    assert ValueFits(f, slot.v);
  }

  function Inner(slot: Slot): seq<Slot>
    requires !slot.Many? && slot.v.Msg?
  {
    slot.v.slots
  }

  /** The member with other contents, present if it has a flag. */
  function WithInner(slot: Slot, slots: seq<Slot>): Slot
    requires !slot.Many?
  {
    if slot.Flagged? then Flagged(true, Msg(slots)) else One(Msg(slots))
  }

  /** One occurrence is the field loop of the submessage on the struct that is there, also in what it leaves. */
  lemma OccurrenceExactly(f: Field, slot: Slot, wireType: nat, p: seq<byte>, rest: seq<byte>)
    requires SingularSubmessage(f, slot) && |p| < TWO32
    ensures DecodeSlot(f, slot, wireType, Delimited(p) + rest)
            == match DecodeLoop(f.sub, Inner(slot), {}, p)
               case Fail => Err
               case Done(slots, seen, _, _) =>
                 if AllRequired(f.sub, seen) then Ok(WithInner(slot, slots), rest) else Err
    ensures SlotLeft(f, slot, wireType, Delimited(p) + rest) == WithInner(slot, MessageLeft(f.sub, Inner(slot), p))
  {
    hide DecodeLoop, MessageLeft, Delimited, Substream;
    SubstreamRoundTrip(p, rest);
    assert DecodeMessage(f.sub, Inner(slot), p)
           == match DecodeLoop(f.sub, Inner(slot), {}, p)
              case Fail => Err
              case Done(slots, seen, r, _) => if AllRequired(f.sub, seen) then Ok(slots, r) else Err;
  }

  /** An empty occurrence changes nothing but the flag. */
  lemma EmptyOccurrence(f: Field, slot: Slot, wireType: nat, rest: seq<byte>)
    requires SingularSubmessage(f, slot)
    ensures DecodeSlot(f, slot, wireType, [0] + rest)
            == if NothingRequired(f.sub) then Ok(WithInner(slot, Inner(slot)), rest) else Err
  {
    assert Delimited([]) == [0];
    hide Delimited;
    OccurrenceExactly(f, slot, wireType, [], rest);
    assert AllRequired(f.sub, {}) <==> NothingRequired(f.sub);
  }

  lemma EmptyMessage(fields: seq<Field>, d: seq<Slot>)
    requires WellFormed(fields) && MsgFits(fields, d) && NothingRequired(fields)
    ensures DecodeMessage(fields, d, []) == Ok(d, [])
  {
    assert AllRequired(fields, {});
  }

  /** An empty occurrence in an array is a new entry with everything cleared, whatever was left there. */
  lemma EmptyEntry(f: Field, slot: Slot, wireType: nat, rest: seq<byte>)
    requires WellFormedField(f) && SlotFits(f, slot) && f.ltype.SUBMESSAGE? && f.htype.REPEATED?
    requires slot.count < f.arraySize && NothingRequired(f.sub)
    ensures ValueFits(f, slot.items[slot.count])
    ensures DecodeSlot(f, slot, wireType, [0] + rest)
            == Ok(Many(slot.count + 1, slot.items[slot.count := ZeroValue(f, slot.items[slot.count])]), rest)
  {
    EmptyValue(f, slot.items[slot.count], rest);
    hide DecodeValue, ZeroValue, WellFormedField, NothingRequired, ValueFits;
  }

  lemma EmptyValue(f: Field, v: Value, rest: seq<byte>)
    requires WellFormedField(f) && ValueFits(f, v) && f.ltype.SUBMESSAGE? && f.htype.REPEATED? && NothingRequired(f.sub)
    ensures DecodeValue(f, v, [0] + rest) == Ok(ZeroValue(f, v), rest)
  {
    assert Delimited([]) == [0];
    assert v.Msg? && WellFormed(f.sub) && MsgFits(f.sub, v.slots);
    hide Delimited, Substream, DecodeMessage, DecodeLoop, Defaults, NothingRequired, WellFormed, MsgFits;
    SubstreamRoundTrip([], rest);
    EmptyMessage(f.sub, Defaults(f.sub, v.slots));
  }

  /** Two occurrences with payloads `a` and `b` are one with `a + b`, also in what a failure in `b` leaves. */
  lemma TwoOccurrences(f: Field, slot: Slot, wireType: nat, a: seq<byte>, b: seq<byte>, rest: seq<byte>)
    requires SingularSubmessage(f, slot) && NothingRequired(f.sub) && |a + b| < TWO32
    requires Clean(DecodeLoop(f.sub, Inner(slot), {}, a))
    ensures var first := DecodeSlot(f, slot, wireType, Delimited(a) + (Delimited(b) + rest));
            && first.Ok? && first.rest == Delimited(b) + rest && SingularSubmessage(f, first.value)
            && DecodeSlot(f, first.value, wireType, first.rest)
               == DecodeSlot(f, slot, wireType, Delimited(a + b) + rest)
            && SlotLeft(f, first.value, wireType, first.rest)
               == SlotLeft(f, slot, wireType, Delimited(a + b) + rest)
  {
    hide DecodeLoop, MessageLeft, Delimited, DecodeSlot, SlotLeft;
    var d := Inner(slot);
    OccurrenceExactly(f, slot, wireType, a, Delimited(b) + rest);
    NothingSeen(f.sub, d, a);
    var slot' := WithInner(slot, DecodeLoop(f.sub, d, {}, a).slots);
    OccurrenceExactly(f, slot', wireType, b, rest);
    OccurrenceExactly(f, slot, wireType, a + b, rest);
    ConcatIsAction(f.sub, d, {}, a, b);
    LeftIsAction(f.sub, d, {}, a, b);
  }

  lemma {:induction false} NothingSeen(fields: seq<Field>, d: seq<Slot>, s: seq<byte>)
    requires WellFormed(fields) && MsgFits(fields, d) && NothingRequired(fields)
    ensures DecodeLoop(fields, d, {}, s).Done? ==> DecodeLoop(fields, d, {}, s).seen == {}
    ensures AllRequired(fields, {})
    decreases |s|
  {
    hide DecodeSlot, SkipField, DecodeTag;
    if s != [] && DecodeTag(s).Tag? {
      TagProgress(s);
      var t := DecodeTag(s);
      var i := Find(fields, t.tag);
      if i == |fields| {
        SkipProgress(t.wireType, t.rest);
        var r := SkipField(t.wireType, t.rest);
        if r.Ok? { NothingSeen(fields, d, r.rest); }
      } else {
        var r := DecodeSlot(fields[i], d[i], t.wireType, t.rest);
        assert {} + Seen(fields[i], i) == {};
        if r.Ok? { NothingSeen(fields, d[i := r.value], r.rest); }
      }
    }
  }

  /** The same inside a message: in the bytes of any message two occurrences may be joined into one. */
  lemma OccurrencesJoin(
    fields: seq<Field>, d: seq<Slot>, seen: set<nat>, i: nat, a: seq<byte>, b: seq<byte>, rest: seq<byte>)
    requires WellFormed(fields) && MsgFits(fields, d) && i < |fields| && SingularSubmessage(fields[i], d[i])
    requires NothingRequired(fields[i].sub) && |a + b| < TWO32
    requires Clean(DecodeLoop(fields[i].sub, Inner(d[i]), {}, a))
    ensures var tag := EncodeTag(WT_STRING, fields[i].tag);
            && DecodeLoop(fields, d, seen, tag + (Delimited(a) + (tag + (Delimited(b) + rest))))
               == DecodeLoop(fields, d, seen, tag + (Delimited(a + b) + rest))
  {
    var f := fields[i];
    hide DecodeLoop, DecodeSlot, Delimited, EncodeTag;
    var tag := EncodeTag(WT_STRING, f.tag);
    TwoOccurrences(f, d[i], WT_STRING, a, b, rest);
    SlotThen(f, d[i], a, Delimited(b) + rest, tag + (Delimited(b) + rest));
    KnownTurn(fields, d, seen, i, WT_STRING, Delimited(a) + (tag + (Delimited(b) + rest)));
    KnownTurn(fields, d, seen, i, WT_STRING, Delimited(a + b) + rest);
    var slot' := DecodeSlot(f, d[i], WT_STRING, Delimited(a) + (Delimited(b) + rest)).value;
    var next := d[i := slot'];
    KnownTurn(fields, next, seen + Seen(f, i), i, WT_STRING, Delimited(b) + rest);
    assert seen + Seen(f, i) + Seen(f, i) == seen + Seen(f, i);
    var r := DecodeSlot(f, d[i], WT_STRING, Delimited(a + b) + rest);
    if r.Ok? { assert next[i := r.value] == d[i := r.value]; }
  }

  /** What a first occurrence does not depend on: the bytes behind it. */
  lemma SlotThen(f: Field, slot: Slot, p: seq<byte>, s: seq<byte>, t: seq<byte>)
    requires SingularSubmessage(f, slot) && |p| < TWO32 && DecodeSlot(f, slot, WT_STRING, Delimited(p) + s).Ok?
    ensures DecodeSlot(f, slot, WT_STRING, Delimited(p) + t)
            == Ok(DecodeSlot(f, slot, WT_STRING, Delimited(p) + s).value, t)
  {
    hide DecodeLoop, Delimited, DecodeSlot;
    OccurrenceExactly(f, slot, WT_STRING, p, s);
    OccurrenceExactly(f, slot, WT_STRING, p, t);
  }
}
