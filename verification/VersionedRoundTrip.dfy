/**
  What a reader with its own version of the table holds after pb_decode: exactly the
  writer's values in the shared members, at every depth, and cleared members elsewhere.
 */
module VersionedRoundTrip {
  import opened Wire
  import opened Schema
  import opened Encoding
  import opened Decoding
  import opened Merging
  import opened RoundTrip
  import opened Evolution

  // ---------------------------------------------------------------------------
  // The same as far as both know
  // ---------------------------------------------------------------------------

  /** The same live contents in members that may differ in size. */
  predicate SameScalar(a: Value, b: Value) {
    match b
    case Num(n) => a == b
    case Blob(size, data) =>
      a.Blob? && a.size == size && (size <= |data| && size <= |a.data| ==> a.data[..size] == data[..size])
    case Text(buf) => a.Text? && CString(a.buf) == CString(buf)
    case Msg(_) => false
  }

  /** Shared members agree, and members only the reader has are cleared. */
  ghost predicate SharedSame(f: Field, g: Field, a: Value, b: Value)
    requires ValueVersions(f, g, a, b)
    decreases f, 0
  {
    if f.ltype.SUBMESSAGE? then SharedSameMsg(f.sub, g.sub, a.slots, b.slots) else SameScalar(a, b)
  }

  /**
    What was sent has arrived, with its has_ flag if the reader keeps one. What was not sent
    reads as absent: flag clear, and in a member without a flag the value, or zero for an
    unset flag of the writer's.
   */
  ghost predicate SharedSameSlot(f: Field, g: Field, a: Slot, b: Slot)
    requires SlotVersions(f, g, a, b)
    decreases f, 1
  {
    if a.Many? then
      a.count == b.count
      && forall k | 0 <= k < a.count && k < |a.items| && k < |b.items| :: SharedSame(f, g, a.items[k], b.items[k])
    else
      && (a.Flagged? ==> a.has == Sends(g, b))
      && (if Sends(g, b) || b.One? then SharedSame(f, g, a.v, b.v) else a.One? ==> ClearedValue(f, a.v))
  }

  ghost predicate SharedSameMsg(reader: seq<Field>, writer: seq<Field>, a: seq<Slot>, b: seq<Slot>)
    requires Versions(reader, writer, a, b)
    decreases reader, 3
  {
    forall i | 0 <= i < |reader| :: SharedSameAt(reader, writer, a, b, i)
  }

  ghost predicate SharedSameAt(reader: seq<Field>, writer: seq<Field>, a: seq<Slot>, b: seq<Slot>, i: nat)
    requires Versions(reader, writer, a, b) && i < |reader|
    decreases reader, 2
  {
    var k := Partner(reader, writer, i);
    assert WellFormedField(reader[i]) && SlotFits(reader[i], a[i]);
    if k == |writer| then ClearedSlot(reader[i], a[i])
    else (PartnerFits(reader, writer, a, b, i); SharedSameSlot(reader[i], writer[k], a[i], b[k]))
  }

  // ---------------------------------------------------------------------------
  // The conditions, read off the writer's struct and the two tables
  // ---------------------------------------------------------------------------

  /** The writer's value and a reader's field for it. */
  ghost predicate Sent(f: Field, g: Field, v: Value) {
    WellFormedField(f) && WellFormedField(g) && CompatibleField(f, g) && ValueFits(g, v)
  }

  ghost predicate SentSlot(f: Field, g: Field, slot: Slot) {
    WellFormedField(f) && WellFormedField(g) && CompatibleField(f, g) && SlotFits(g, slot)
  }

  ghost predicate SentMsg(reader: seq<Field>, writer: seq<Field>, m: seq<Slot>) {
    WellFormed(reader) && WellFormed(writer) && Compatible(reader, writer) && MsgFits(writer, m)
  }

  lemma PartnerSent(reader: seq<Field>, writer: seq<Field>, m: seq<Slot>, i: nat)
    requires SentMsg(reader, writer, m) && i < |reader| && Partner(reader, writer, i) < |writer|
    ensures var k := Partner(reader, writer, i); SentSlot(reader[i], writer[k], m[k])
  {
    FindUnique(reader, i);
  }

  /** No live entry in a shared member, and no flag set that the reader keeps or that stands for more than zeros. */
  ghost predicate SharedNothingSet(f: Field, g: Field, v: Value)
    requires Sent(f, g, v)
    decreases f, 0
  {
    f.ltype.SUBMESSAGE? ==> forall i | 0 <= i < |f.sub| :: SharedNothingSetAt(f.sub, g.sub, v.slots, i)
  }

  ghost predicate SharedNothingSetAt(reader: seq<Field>, writer: seq<Field>, m: seq<Slot>, i: nat)
    requires SentMsg(reader, writer, m) && i < |reader|
    decreases reader, 1
  {
    var k := Partner(reader, writer, i);
    k < |writer| ==>
      (PartnerSent(reader, writer, m, i);
       match m[k]
       case One(v) => (reader[i].HasFlag() ==> !Sends(writer[k], m[k])) && SharedNothingSet(reader[i], writer[k], v)
       case Flagged(has, v) => has ==> !reader[i].HasFlag() && SharedNothingSet(reader[i], writer[k], v)
       case Many(count, _) => count == 0)
  }

  /**
    Every singular submessage that the writer skips has nothing set in its shared members, and
    no integer is cut to the reader's 32 bits.
   */
  ghost predicate SharedLossless(f: Field, g: Field, v: Value)
    requires Sent(f, g, v)
    decreases f, 0
  {
    if f.ltype.SUBMESSAGE? then SharedLosslessMsg(f.sub, g.sub, v.slots)
    else v.Num? ==> SharedInteger(f, v.n) == v.n
  }

  ghost predicate SharedLosslessSlot(f: Field, g: Field, slot: Slot)
    requires SentSlot(f, g, slot)
    decreases f, 1
  {
    if slot.Many? then forall k | 0 <= k < slot.count && k < |slot.items| :: SharedLossless(f, g, slot.items[k])
    else if Sends(g, slot) then SharedLossless(f, g, slot.v)
    else slot.One? ==> SharedNothingSet(f, g, slot.v)
  }

  ghost predicate SharedLosslessMsg(reader: seq<Field>, writer: seq<Field>, m: seq<Slot>)
    requires SentMsg(reader, writer, m)
    decreases reader, 2
  {
    forall i | 0 <= i < |reader| :: SharedLosslessAt(reader, writer, m, i)
  }

  ghost predicate SharedLosslessAt(reader: seq<Field>, writer: seq<Field>, m: seq<Slot>, i: nat)
    requires SentMsg(reader, writer, m) && i < |reader|
    decreases reader, 1
  {
    var k := Partner(reader, writer, i);
    k < |writer| ==> (PartnerSent(reader, writer, m, i); SharedLosslessSlot(reader[i], writer[k], m[k]))
  }

  /** What is sent of the shared members fits the reader's, and in submessages includes its required fields. */
  ghost predicate Deliverable(f: Field, g: Field, v: Value)
    requires Sent(f, g, v)
    decreases f, 0
  {
    if f.ltype.SUBMESSAGE? then DeliverableMsg(f.sub, g.sub, v.slots) else AcceptsScalar(f, v)
  }

  ghost predicate DeliverableSlot(f: Field, g: Field, slot: Slot)
    requires SentSlot(f, g, slot)
    decreases f, 1
  {
    if slot.Many? then
      slot.count == 0
      || (slot.count <= f.arraySize
          && forall k | 0 <= k < slot.count && k < |slot.items| :: Deliverable(f, g, slot.items[k]))
    else Sends(g, slot) ==> Deliverable(f, g, slot.v)
  }

  ghost predicate DeliverableMsg(reader: seq<Field>, writer: seq<Field>, m: seq<Slot>)
    requires SentMsg(reader, writer, m)
    decreases reader, 2
  {
    SendsRequired(reader, writer, m) && forall i | 0 <= i < |reader| :: DeliverableAt(reader, writer, m, i)
  }

  ghost predicate DeliverableAt(reader: seq<Field>, writer: seq<Field>, m: seq<Slot>, i: nat)
    requires SentMsg(reader, writer, m) && i < |reader|
    decreases reader, 1
  {
    var k := Partner(reader, writer, i);
    k < |writer| ==> (PartnerSent(reader, writer, m, i); DeliverableSlot(reader[i], writer[k], m[k]))
  }

  // ---------------------------------------------------------------------------
  // Sharing into a cleared struct
  // ---------------------------------------------------------------------------

  lemma SkippedScalar(f: Field, g: Field, d: Value, v: Value)
    requires ValueVersions(f, g, d, v) && !f.ltype.SUBMESSAGE? && ClearedValue(f, d) && ValueIsDefault(g, v)
    ensures SameScalar(d, v)
  {
  }

  lemma MergedScalar(f: Field, g: Field, d: Value, v: Value)
    requires ValueVersions(f, g, d, v) && !f.ltype.SUBMESSAGE? && InBounds(g, v) && AcceptsScalar(f, v)
    ensures SameScalar(SharedScalar(f, g, d, v), v) <==> (v.Num? ==> SharedInteger(f, v.n) == v.n)
  {
    match v
    case Num(_) =>
    case Blob(size, data) => assert (data[..size] + d.data[size..])[..size] == data[..size];
    case Text(buf) => CStringOfTerminated(CString(buf), d.buf[|CString(buf)| + 1..]);
  }

  /** A skipped value comes back as the cleared one: the same exactly when nothing shared was set in it. */
  lemma {:induction false} SkippedShared(f: Field, g: Field, d: Value, v: Value)
    requires ValueVersions(f, g, d, v) && ClearedValue(f, d) && ValueIsDefault(g, v)
    ensures SharedSame(f, g, d, v) <==> SharedNothingSet(f, g, v)
    decreases f, 0
  {
    if f.ltype.SUBMESSAGE? {
      hide ClearedSlot, SlotIsDefault, SharedSameAt, SharedNothingSetAt;
      forall i | 0 <= i < |f.sub|
        ensures SharedSameAt(f.sub, g.sub, d.slots, v.slots, i) <==> SharedNothingSetAt(f.sub, g.sub, v.slots, i)
      {
        SkippedSharedAt(f.sub, g.sub, d.slots, v.slots, i);
      }
      assert SharedSame(f, g, d, v) == SharedSameMsg(f.sub, g.sub, d.slots, v.slots);
    } else {
      SkippedScalar(f, g, d, v);
    }
  }

  lemma {:induction false} SkippedSharedAt(reader: seq<Field>, writer: seq<Field>, d: seq<Slot>, m: seq<Slot>, i: nat)
    requires Versions(reader, writer, d, m) && i < |reader|
    requires WellFormedField(reader[i]) && SlotFits(reader[i], d[i]) && ClearedSlot(reader[i], d[i])
    requires forall k | 0 <= k < |writer| ::
               WellFormedField(writer[k]) && SlotFits(writer[k], m[k]) && SlotIsDefault(writer[k], m[k])
    ensures SharedSameAt(reader, writer, d, m, i) <==> SharedNothingSetAt(reader, writer, m, i)
    decreases reader, 1
  {
    hide ClearedValue, ValueIsDefault, SharedSame, SharedNothingSet;
    var k := Partner(reader, writer, i);
    if k < |writer| {
      PartnerFits(reader, writer, d, m, i);
      PartnerSent(reader, writer, m, i);
      if !m[k].Many? { SkippedShared(reader[i], writer[k], d[i].v, m[k].v); }
    }
  }

  lemma {:induction false} SharedIsSame(f: Field, g: Field, d: Value, v: Value)
    requires ValueVersions(f, g, d, v) && FreshBase(f, d) && InBounds(g, v) && Deliverable(f, g, v)
    ensures SharedSame(f, g, SharedValue(f, g, d, v), v) <==> SharedLossless(f, g, v)
    decreases f, 0
  {
    if f.ltype.SUBMESSAGE? {
      hide ClearedSlot, SlotInBounds, SharedSameAt, SharedLosslessAt, DeliverableAt, SharedSlot;
      var base := SubmessageBase(f, d);
      var r := SharedMerge(f.sub, g.sub, base, v.slots, 0);
      assert Versions(f.sub, g.sub, base, v.slots);
      forall i | 0 <= i < |f.sub|
        ensures SharedSameAt(f.sub, g.sub, r, v.slots, i) <==> SharedLosslessAt(f.sub, g.sub, v.slots, i)
      {
        assert r[i] == SharedSlot(f.sub, g.sub, base, v.slots, 0, i);
        assert WellFormedField(f.sub[i]) && SlotFits(f.sub[i], base[i]) && ClearedSlot(f.sub[i], base[i]);
        MemberIsSame(f.sub, g.sub, base, v.slots, r, i);
      }
      assert SharedSame(f, g, Msg(r), v) == SharedSameMsg(f.sub, g.sub, r, v.slots);
      assert SharedLossless(f, g, v) == SharedLosslessMsg(f.sub, g.sub, v.slots);
    } else {
      MergedScalar(f, g, d, v);
    }
  }

  /** One member of the reader that was cleared before. */
  lemma {:induction false} MemberIsSame(
    reader: seq<Field>, writer: seq<Field>, d: seq<Slot>, m: seq<Slot>, r: seq<Slot>, i: nat)
    requires Versions(reader, writer, d, m) && Versions(reader, writer, r, m) && i < |reader|
    requires WellFormedField(reader[i]) && SlotFits(reader[i], d[i]) && ClearedSlot(reader[i], d[i])
    requires r[i] == SharedSlot(reader, writer, d, m, 0, i)
    requires forall k | 0 <= k < |writer| ::
               WellFormedField(writer[k]) && SlotFits(writer[k], m[k]) && SlotInBounds(writer[k], m[k])
    requires DeliverableAt(reader, writer, m, i)
    ensures SharedSameAt(reader, writer, r, m, i) <==> SharedLosslessAt(reader, writer, m, i)
    decreases reader, 2
  {
    hide SharedMember, SharedSameSlot, SharedLosslessSlot, DeliverableSlot, SlotInBounds, ClearedSlot, SlotFits;
    var k := Partner(reader, writer, i);
    if k < |writer| {
      PartnerFits(reader, writer, d, m, i);
      PartnerFits(reader, writer, r, m, i);
      PartnerSent(reader, writer, m, i);
      SharedMemberIsSame(reader[i], writer[k], d[i], m[k]);
    }
  }

  lemma {:induction false} SharedMemberIsSame(f: Field, g: Field, d: Slot, m: Slot)
    requires SlotVersions(f, g, d, m) && ClearedSlot(f, d) && SlotInBounds(g, m) && DeliverableSlot(f, g, m)
    ensures SharedSameSlot(f, g, SharedMember(f, g, d, m), m) <==> SharedLosslessSlot(f, g, m)
    decreases f, 1
  {
    hide ClearedValue, InBounds, SharedSame, SharedLossless, SharedNothingSet, Deliverable, ValueIsDefault, SharedValue;
    if m.Many? {
      var count, items := m.count, m.items;
      if count > 0 {
        var merged := SharedAppend(f, g, d.items, 0, items[..count]).items;
        forall k | 0 <= k < count
          ensures SharedSame(f, g, merged[k], items[k]) <==> SharedLossless(f, g, items[k])
        {
          EntryBaseFresh(f, d.items[k]);
          assert merged[k] == SharedValue(f, g, d.items[0 + k], items[..count][k]);
          SharedIsSame(f, g, d.items[k], items[k]);
        }
      }
    } else if Sends(g, m) {
      EntryBaseFresh(f, d.v);
      SharedIsSame(f, g, d.v, m.v);
    } else if m.One? {
      SkippedShared(f, g, d.v, m.v);
    }
  }

  lemma {:induction false} SharedFreshAccepts(f: Field, g: Field, d: Value, v: Value)
    requires ValueVersions(f, g, d, v) && FreshBase(f, d) && InBounds(g, v)
    ensures AcceptsShared(f, g, d, v) <==> Deliverable(f, g, v)
    decreases f, 0
  {
    if f.ltype.SUBMESSAGE? {
      hide ClearedSlot, SlotInBounds, SharedAccepts, DeliverableAt;
      var base := SubmessageBase(f, d);
      assert Versions(f.sub, g.sub, base, v.slots);
      forall i | 0 <= i < |f.sub|
        ensures SharedAccepts(f.sub, g.sub, base, v.slots, 0, i) <==> DeliverableAt(f.sub, g.sub, v.slots, i)
      {
        assert WellFormedField(f.sub[i]) && SlotFits(f.sub[i], base[i]) && ClearedSlot(f.sub[i], base[i]);
        MemberAccepts(f.sub, g.sub, base, v.slots, i);
      }
      assert Deliverable(f, g, v) == DeliverableMsg(f.sub, g.sub, v.slots);
    }
  }

  lemma {:induction false} MemberAccepts(reader: seq<Field>, writer: seq<Field>, d: seq<Slot>, m: seq<Slot>, i: nat)
    requires Versions(reader, writer, d, m) && i < |reader|
    requires WellFormedField(reader[i]) && SlotFits(reader[i], d[i]) && ClearedSlot(reader[i], d[i])
    requires forall k | 0 <= k < |writer| ::
               WellFormedField(writer[k]) && SlotFits(writer[k], m[k]) && SlotInBounds(writer[k], m[k])
    ensures SharedAccepts(reader, writer, d, m, 0, i) <==> DeliverableAt(reader, writer, m, i)
    decreases reader, 2
  {
    hide AcceptsMember, DeliverableSlot, SlotInBounds, ClearedSlot, SlotFits;
    var k := Partner(reader, writer, i);
    if k < |writer| {
      PartnerFits(reader, writer, d, m, i);
      PartnerSent(reader, writer, m, i);
      SharedMemberAccepts(reader[i], writer[k], d[i], m[k]);
    }
  }

  lemma {:induction false} SharedMemberAccepts(f: Field, g: Field, d: Slot, m: Slot)
    requires SlotVersions(f, g, d, m) && ClearedSlot(f, d) && SlotInBounds(g, m)
    ensures AcceptsMember(f, g, d, m) <==> DeliverableSlot(f, g, m)
    decreases f, 1
  {
    hide ClearedValue, InBounds, AcceptsShared, Deliverable, ValueIsDefault;
    if m.Many? {
      var count, items := m.count, m.items;
      forall k | 0 <= k < count && k < |d.items|
        ensures AcceptsShared(f, g, d.items[0 + k], items[..count][k]) <==> Deliverable(f, g, items[k])
      {
        EntryBaseFresh(f, d.items[k]);
        SharedFreshAccepts(f, g, d.items[k], items[k]);
      }
    } else if Sends(g, m) {
      EntryBaseFresh(f, d.v);
      SharedFreshAccepts(f, g, d.v, m.v);
    }
  }

  // ---------------------------------------------------------------------------
  // The round trip between versions
  // ---------------------------------------------------------------------------

  /**
    pb_decode with the reader's table on a message of the writer's: it succeeds exactly when
    the writer sends what the reader requires, at every depth, and everything shared that is
    sent fits the reader's members. Then all bytes are consumed, and shared members are the
    writer's again, with all others cleared, exactly when no skipped submessage has anything
    set in a shared member and no integer was cut to 32 bits.
   */
  lemma SharedFieldsSurvive(reader: seq<Field>, writer: seq<Field>, m: seq<Slot>, dest: seq<Slot>)
    requires Versions(reader, writer, dest, m)
    requires EncodeMsg(writer, m).Some? && |EncodeMsg(writer, m).value| < TWO32
    ensures var r := Decode(reader, dest, EncodeMsg(writer, m).value);
            && (r.Ok? <==> DeliverableMsg(reader, writer, m))
            && (r.Ok? ==> r.rest == []
                          && (SharedSameMsg(reader, writer, r.value, m) <==> SharedLosslessMsg(reader, writer, m)))
  {
    hide DecodeMessage, EncodeMsg, Defaults, ClearedSlot, SlotInBounds, SharedAccepts, SharedSlot;
    hide DeliverableAt, SharedSameAt, SharedLosslessAt;
    var d := Defaults(reader, dest);
    DefaultsAreCleared(reader, dest);
    MsgEncodable(writer, m);
    VersionsExact(reader, writer, d, m);
    var merged := SharedMerge(reader, writer, d, m, 0);
    forall i | 0 <= i < |reader|
      ensures SharedAccepts(reader, writer, d, m, 0, i) <==> DeliverableAt(reader, writer, m, i)
    {
      assert WellFormedField(reader[i]) && SlotFits(reader[i], d[i]) && ClearedSlot(reader[i], d[i]);
      MemberAccepts(reader, writer, d, m, i);
    }
    if DeliverableMsg(reader, writer, m) {
      forall i | 0 <= i < |reader|
        ensures SharedSameAt(reader, writer, merged, m, i) <==> SharedLosslessAt(reader, writer, m, i)
      {
        assert merged[i] == SharedSlot(reader, writer, d, m, 0, i);
        assert WellFormedField(reader[i]) && SlotFits(reader[i], d[i]) && ClearedSlot(reader[i], d[i]);
        MemberIsSame(reader, writer, d, m, merged, i);
      }
    }
  }
}
