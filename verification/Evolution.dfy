/**
  Two programs with two versions of a message type: the writer's table and the reader's, at
  every depth.

  Fields the reader does not know are skipped, fields the writer does not know stay as they
  were, and the shared ones are merged; a shared submessage is treated in the same way with
  the two versions of its own table. A shared field may change its member size, its array
  size and the way its presence is kept.
 */
module Evolution {
  import opened Wire
  import opened Schema
  import opened Encoding
  import opened Decoding
  import opened Merging
  import opened Concatenation

  // ---------------------------------------------------------------------------
  // Versions of a table
  // ---------------------------------------------------------------------------

  /** The same wire format, and an array in both versions or in neither. */
  predicate SameField(f: Field, g: Field) {
    f.tag == g.tag && f.ltype == g.ltype && (f.htype.REPEATED? <==> g.htype.REPEATED?)
  }

  ghost predicate CompatibleField(f: Field, g: Field)
    decreases f, 0
  {
    SameField(f, g) && (f.ltype.SUBMESSAGE? ==> Compatible(f.sub, g.sub))
  }

  /** A tag that both tables have means the same field in both, up to versions of its own table. */
  ghost predicate Compatible(reader: seq<Field>, writer: seq<Field>)
    decreases reader, 1
  {
    forall j | 0 <= j < |writer| ::
      Find(reader, writer[j].tag) < |reader| ==> CompatibleField(reader[Find(reader, writer[j].tag)], writer[j])
  }

  ghost predicate ValueVersions(f: Field, g: Field, d: Value, m: Value) {
    WellFormedField(f) && WellFormedField(g) && CompatibleField(f, g) && ValueFits(f, d) && ValueFits(g, m)
  }

  ghost predicate ArrayVersions(f: Field, g: Field, items: seq<Value>, vs: seq<Value>) {
    WellFormedField(f) && WellFormedField(g) && CompatibleField(f, g) && AllFit(f, items) && AllFit(g, vs)
  }

  ghost predicate SlotVersions(f: Field, g: Field, d: Slot, m: Slot) {
    WellFormedField(f) && WellFormedField(g) && CompatibleField(f, g) && SlotFits(f, d) && SlotFits(g, m)
  }

  ghost predicate Versions(reader: seq<Field>, writer: seq<Field>, d: seq<Slot>, m: seq<Slot>) {
    && WellFormed(reader) && WellFormed(writer) && Compatible(reader, writer)
    && MsgFits(reader, d) && MsgFits(writer, m)
  }

  /** The writer's field with the tag of the reader's field `i`, or |writer|. */
  function Partner(reader: seq<Field>, writer: seq<Field>, i: nat): nat
    requires i < |reader|
  {
    Find(writer, reader[i].tag)
  }

  lemma PartnerFits(reader: seq<Field>, writer: seq<Field>, d: seq<Slot>, m: seq<Slot>, i: nat)
    requires Versions(reader, writer, d, m) && i < |reader| && Partner(reader, writer, i) < |writer|
    ensures var k := Partner(reader, writer, i); SlotVersions(reader[i], writer[k], d[i], m[k])
  {
    FindUnique(reader, i);
  }

  // ---------------------------------------------------------------------------
  // What the encoder writes can be skipped
  // ---------------------------------------------------------------------------

  /** A tag of the encoder's followed by a payload of its wire type, for a reader without the tag. */
  lemma WrittenIsUnknown(reader: seq<Field>, wireType: nat, tag: nat, p: seq<byte>)
    requires 0 < tag < 0x2000_0000 && wireType < 8 && Find(reader, tag) == |reader|
    requires SkipField(wireType, p) == Ok((), [])
    ensures UnknownField(reader, EncodeTag(wireType, tag) + p)
  {
    TagRoundTrip(wireType, tag, p);
  }

  lemma TaggedSkipped(reader: seq<Field>, d: seq<Slot>, seen: set<nat>, f: Field, v: Value, s: seq<byte>)
    requires WellFormed(reader) && MsgFits(reader, d) && Find(reader, f.tag) == |reader|
    requires WellFormedField(f) && ValueFits(f, v)
    requires EncodeTagged(f, v).Some? && |EncodeTagged(f, v).value| < TWO32
    ensures DecodeLoop(reader, d, seen, EncodeTagged(f, v).value + s) == DecodeLoop(reader, d, seen, s)
  {
    hide DecodeLoop, EncodeValue;
    EntrySkippable(f, v);
    WireTypeSmall(f.ltype);
    WrittenIsUnknown(reader, WireType(f.ltype), f.tag, EncodeValue(f, v).value);
    UnknownTurn(reader, d, seen, EncodeTagged(f, v).value, s);
  }

  lemma {:induction false} EachSkipped(
    reader: seq<Field>, d: seq<Slot>, seen: set<nat>, f: Field, vs: seq<Value>, s: seq<byte>)
    requires WellFormed(reader) && MsgFits(reader, d) && Find(reader, f.tag) == |reader|
    requires WellFormedField(f) && AllFit(f, vs)
    requires EncodeEach(f, vs).Some? && |EncodeEach(f, vs).value| < TWO32
    ensures DecodeLoop(reader, d, seen, EncodeEach(f, vs).value + s) == DecodeLoop(reader, d, seen, s)
    decreases |vs|
  {
    hide DecodeLoop, EncodeTagged;
    if vs == [] {
      assert EncodeEach(f, vs).value + s == s;
    } else {
      var e, more := EncodeTagged(f, vs[0]).value, EncodeEach(f, vs[1..]).value;
      assert EncodeEach(f, vs).value + s == e + (more + s);
      TaggedSkipped(reader, d, seen, f, vs[0], more + s);
      EachSkipped(reader, d, seen, f, vs[1..], s);
    }
  }

  /** Whatever the encoder writes for a field, a reader without that tag passes over it. */
  lemma SlotSkipped(reader: seq<Field>, d: seq<Slot>, seen: set<nat>, f: Field, slot: Slot, s: seq<byte>)
    requires WellFormed(reader) && MsgFits(reader, d) && Find(reader, f.tag) == |reader|
    requires WellFormedField(f) && SlotFits(f, slot)
    requires EncodeSlot(f, slot).Some? && |EncodeSlot(f, slot).value| < TWO32
    ensures DecodeLoop(reader, d, seen, EncodeSlot(f, slot).value + s) == DecodeLoop(reader, d, seen, s)
  {
    hide DecodeLoop, EncodeTagged, EncodePacked, EncodeEach;
    if EncodeSlot(f, slot).value == [] {
      assert [] + s == s;
    } else if slot.Many? {
      var vs := slot.items[..slot.count];
      if f.Packable() {
        var payload := EncodePacked(f, vs).value;
        SubstreamRoundTrip(payload, []);
        assert Delimited(payload) + [] == Delimited(payload);
        WrittenIsUnknown(reader, WT_STRING, f.tag, Delimited(payload));
        UnknownTurn(reader, d, seen, EncodeSlot(f, slot).value, s);
      } else {
        EachSkipped(reader, d, seen, f, vs, s);
      }
    } else {
      TaggedSkipped(reader, d, seen, f, slot.v, s);
    }
  }

  // ---------------------------------------------------------------------------
  // Entries without a submessage
  // ---------------------------------------------------------------------------

  /** Where the reader's member has another size: only a VARINT below 64 bits is cut, to its low 32 bits. */
  function SharedInteger(f: Field, n: int): int {
    if f.ltype.VARINT? && f.dataSize != 8 then ToInt32(n) else n
  }

  /** The reader's member can hold what it reads. */
  predicate AcceptsScalar(f: Field, m: Value)
    requires WellFormedField(f)
  {
    match m
    case Num(n) =>
      if f.ltype.UVARINT? then n < 2 * HalfRange(f.dataSize)
      else f.ltype.VARINT? || f.ltype.SVARINT? ==>
             -HalfRange(f.dataSize) <= SharedInteger(f, n) < HalfRange(f.dataSize)
    case Blob(size, _) => size + BYTES_HEADER <= f.dataSize
    case Text(buf) => |CString(buf)| + 1 <= f.dataSize
    case Msg(_) => true
  }

  function SharedScalar(f: Field, g: Field, d: Value, m: Value): (r: Value)
    requires ValueVersions(f, g, d, m) && !f.ltype.SUBMESSAGE?
    ensures ValueFits(f, r)
  {
    if !AcceptsScalar(f, m) then d
    else
      match m
      case Num(n) => Num(SharedInteger(f, n))
      case Blob(size, data) => if size <= |data| then Blob(size, data[..size] + d.data[size..]) else d
      case Text(buf) => Text(CString(buf) + [0] + d.buf[|CString(buf)| + 1..])
  }

  lemma LowWord(n: int)
    requires IsInt64(n)
    ensures ToInt32(ToUnsigned64(n)) == ToInt32(n) && ToInt64(ToUnsigned64(n)) == n
  {
    if n < 0 {
      assert ToUnsigned64(n) == n + TWO64;
      assert n + TWO64 + 0x8000_0000 == (n + 0x8000_0000) + TWO32 * TWO32;
    } else {
      assert ToUnsigned64(n) == n;
    }
  }

  /** A store keeps a signed number exactly when the member can hold it. */
  lemma StoresExactly(size: nat, n: int)
    requires IntegerSize(size)
    ensures ToSigned(n, HalfRange(size)) == n <==> -HalfRange(size) <= n < HalfRange(size)
  {
    var h := HalfRange(size);
    assert 0 <= (n + h) % (2 * h) < 2 * h;
    if -h <= n < h { SmallMod(n + h, 2 * h); }
  }

  lemma SharedIntegerExact(f: Field, g: Field, d: Value, m: Value, rest: seq<byte>)
    requires ValueVersions(f, g, d, m) && (f.ltype.VARINT? || f.ltype.UVARINT? || f.ltype.SVARINT?)
    ensures DecodeScalar(f, d, EncodeScalar(g, m).value + rest)
            == if AcceptsScalar(f, m) then Ok(SharedScalar(f, g, d, m), rest) else Err
  {
    hide ReadGroups, EncodeVarint, ToInt32, ToInt64, ToSigned, ZigZag, UnZigZag, HalfRange;
    match f.ltype
    case VARINT =>
      FitsInt64(g, m);
      LowWord(m.n);
      VarintRoundTrip(ToUnsigned64(m.n), rest);
      StoresExactly(f.dataSize, SharedInteger(f, m.n));
    case SVARINT =>
      FitsInt64(g, m);
      ZigZagRoundTrip(m.n);
      VarintRoundTrip(ZigZag(m.n), rest);
      StoresExactly(f.dataSize, m.n);
    case UVARINT =>
      VarintRoundTrip(m.n, rest);
      if m.n < 2 * HalfRange(f.dataSize) { SmallMod(m.n, 2 * HalfRange(f.dataSize)); }
  }

  lemma SharedScalarExact(f: Field, g: Field, d: Value, m: Value, rest: seq<byte>)
    requires ValueVersions(f, g, d, m) && !f.ltype.SUBMESSAGE?
    requires EncodeScalar(g, m).Some? && |EncodeScalar(g, m).value| < TWO32
    ensures DecodeScalar(f, d, EncodeScalar(g, m).value + rest)
            == if AcceptsScalar(f, m) then Ok(SharedScalar(f, g, d, m), rest) else Err
  {
    hide ReadGroups, FromLittleEndian, LittleEndian;
    var e := EncodeScalar(g, m).value;
    match f.ltype
    case VARINT => SharedIntegerExact(f, g, d, m, rest);
    case SVARINT => SharedIntegerExact(f, g, d, m, rest);
    case UVARINT => SharedIntegerExact(f, g, d, m, rest);
    case FIXED32 =>
      Exp256Values();
      FixedRoundTrip(m.n, 4);
      assert (e + rest)[..4] == e && (e + rest)[4..] == rest;
    case FIXED64 =>
      Exp256Values();
      FixedRoundTrip(m.n, 8);
      assert (e + rest)[..8] == e && (e + rest)[8..] == rest;
    case BYTES => DelimitedRead(m.data[..m.size], rest);
    case STRING => DelimitedRead(CString(m.buf), rest);
  }

  // ---------------------------------------------------------------------------
  // The reference result
  // ---------------------------------------------------------------------------

  function SharedValue(f: Field, g: Field, d: Value, m: Value): (r: Value)
    requires ValueVersions(f, g, d, m)
    ensures ValueFits(f, r)
    decreases f, 0
  {
    if f.ltype.SUBMESSAGE? then Msg(SharedMerge(f.sub, g.sub, SubmessageBase(f, d), m.slots, 0))
    else SharedScalar(f, g, d, m)
  }

  /** `vs` merged over the entries of `items` from `count` on. */
  function SharedAppend(f: Field, g: Field, items: seq<Value>, count: nat, vs: seq<Value>): (r: Slot)
    requires ArrayVersions(f, g, items, vs) && count + |vs| <= |items|
    ensures r.Many? && |r.items| == |items| && AllFit(f, r.items)
    ensures f.htype.REPEATED? && |items| == f.arraySize ==> SlotFits(f, r)
    decreases f, 1
  {
    var added := seq(|vs|, k requires 0 <= k < |vs| && count + k < |items|
                        && ValueVersions(f, g, items[count + k], vs[k]) =>
      SharedValue(f, g, items[count + k], vs[k]));
    Many(count + |vs|, items[..count] + added + items[count + |vs|..])
  }

  /** Whether the encoder writes this member at all. */
  predicate Sends(g: Field, m: Slot)
    requires WellFormedField(g) && SlotFits(g, m)
  {
    match m
    case One(v) => !(g.Implicit() && ValueIsDefault(g, v))
    case Flagged(has, _) => has
    case Many(count, _) => count > 0
  }

  /** An entry stored in a member that is not an array. */
  function Stored(f: Field, v: Value): (r: Slot)
    requires ValueFits(f, v)
    ensures !f.htype.REPEATED? ==> SlotFits(f, r)
  {
    if f.HasFlag() then Flagged(true, v) else One(v)
  }

  /** A shared member after the writer's bytes for it. */
  function SharedMember(f: Field, g: Field, d: Slot, m: Slot): (r: Slot)
    requires SlotVersions(f, g, d, m)
    ensures SlotFits(f, r)
    decreases f, 2
  {
    if m.Many? then
      if m.count <= |m.items| && d.count + m.count <= |d.items|
      then SharedAppend(f, g, d.items, d.count, m.items[..m.count]) else d
    else if Sends(g, m) then Stored(f, SharedValue(f, g, d.v, m.v)) else d
  }

  /** The reader's member `i` after the writer's fields from `j` on. */
  function SharedSlot(reader: seq<Field>, writer: seq<Field>, d: seq<Slot>, m: seq<Slot>, j: nat, i: nat): (r: Slot)
    requires Versions(reader, writer, d, m) && i < |reader|
    ensures SlotFits(reader[i], r)
    decreases reader, 3
  {
    var k := Partner(reader, writer, i);
    if j <= k < |writer| then
      PartnerFits(reader, writer, d, m, i);
      SharedMember(reader[i], writer[k], d[i], m[k])
    else d[i]
  }

  function SharedMerge(reader: seq<Field>, writer: seq<Field>, d: seq<Slot>, m: seq<Slot>, j: nat): (r: seq<Slot>)
    requires Versions(reader, writer, d, m)
    ensures MsgFits(reader, r)
    decreases reader, 4
  {
    seq(|reader|, i requires 0 <= i < |reader| && Versions(reader, writer, d, m) =>
      SharedSlot(reader, writer, d, m, j, i))
  }

  // ---------------------------------------------------------------------------
  // When the reader accepts
  // ---------------------------------------------------------------------------

  /** The writer's table has the tag of the reader's field `i`, and its struct sends it. */
  ghost predicate IsSent(reader: seq<Field>, writer: seq<Field>, m: seq<Slot>, j: nat, i: nat)
    requires WellFormed(writer) && MsgFits(writer, m) && i < |reader|
  {
    var k := Partner(reader, writer, i);
    j <= k < |writer| && WellFormedField(writer[k]) && SlotFits(writer[k], m[k]) && Sends(writer[k], m[k])
  }

  /** Every required field of the reader is sent. */
  ghost predicate SendsRequired(reader: seq<Field>, writer: seq<Field>, m: seq<Slot>)
    requires WellFormed(writer) && MsgFits(writer, m)
  {
    forall i | 0 <= i < |reader| && reader[i].htype.REQUIRED? :: IsSent(reader, writer, m, 0, i)
  }

  ghost predicate AcceptsShared(f: Field, g: Field, d: Value, m: Value)
    requires ValueVersions(f, g, d, m)
    decreases f, 0
  {
    if f.ltype.SUBMESSAGE? then
      var base := SubmessageBase(f, d);
      SendsRequired(f.sub, g.sub, m.slots)
      && forall i | 0 <= i < |f.sub| :: SharedAccepts(f.sub, g.sub, base, m.slots, 0, i)
    else AcceptsScalar(f, m)
  }

  ghost predicate AcceptsSharedAll(f: Field, g: Field, items: seq<Value>, count: nat, vs: seq<Value>)
    requires ArrayVersions(f, g, items, vs)
    decreases f, 1
  {
    count + |vs| <= |items| && forall k | 0 <= k < |vs| :: AcceptsShared(f, g, items[count + k], vs[k])
  }

  ghost predicate AcceptsMember(f: Field, g: Field, d: Slot, m: Slot)
    requires SlotVersions(f, g, d, m)
    decreases f, 2
  {
    if m.Many? then
      m.count == 0 || (m.count <= |m.items| && AcceptsSharedAll(f, g, d.items, d.count, m.items[..m.count]))
    else Sends(g, m) ==> AcceptsShared(f, g, d.v, m.v)
  }

  ghost predicate SharedAccepts(reader: seq<Field>, writer: seq<Field>, d: seq<Slot>, m: seq<Slot>, j: nat, i: nat)
    requires Versions(reader, writer, d, m) && i < |reader|
    decreases reader, 3
  {
    var k := Partner(reader, writer, i);
    j <= k < |writer| ==> (PartnerFits(reader, writer, d, m, i); AcceptsMember(reader[i], writer[k], d[i], m[k]))
  }

  ghost predicate AllSharedAccept(reader: seq<Field>, writer: seq<Field>, d: seq<Slot>, m: seq<Slot>, j: nat)
    requires Versions(reader, writer, d, m)
  {
    forall i | 0 <= i < |reader| :: SharedAccepts(reader, writer, d, m, j, i)
  }

  /** The reader's required fields that are met in the writer's fields from `j` on. */
  ghost function SharedRequired(reader: seq<Field>, writer: seq<Field>, m: seq<Slot>, j: nat): set<nat>
    requires WellFormed(writer) && MsgFits(writer, m)
  {
    set i | 0 <= i < |reader| && reader[i].htype.REQUIRED? && IsSent(reader, writer, m, j, i)
  }

  /** What one of the writer's fields adds to the required fields met. */
  function Met(f: Field, g: Field, m: Slot, i: nat): set<nat>
    requires WellFormedField(g) && SlotFits(g, m)
  {
    if Sends(g, m) then Seen(f, i) else {}
  }

  // ---------------------------------------------------------------------------
  // Entries and fields
  // ---------------------------------------------------------------------------

  lemma {:induction false} SharedValueExact(f: Field, g: Field, d: Value, m: Value, rest: seq<byte>)
    requires ValueVersions(f, g, d, m)
    requires EncodeValue(g, m).Some? && |EncodeValue(g, m).value| < TWO32
    ensures DecodeValue(f, d, EncodeValue(g, m).value + rest)
            == if AcceptsShared(f, g, d, m) then Ok(SharedValue(f, g, d, m), rest) else Err
    decreases f, 0
  {
    hide DecodeMessage, EncodeMsg, Substream, SharedMerge, DecodeScalar, EncodeScalar, SharedScalar, AcceptsScalar;
    if f.ltype.SUBMESSAGE? {
      var inner := EncodeMsg(g.sub, m.slots).value;
      SubstreamRoundTrip(inner, rest);
      assert Versions(f.sub, g.sub, SubmessageBase(f, d), m.slots);
      VersionsExact(f.sub, g.sub, SubmessageBase(f, d), m.slots);
    } else {
      SharedScalarExact(f, g, d, m, rest);
    }
  }

  lemma {:induction false} SharedSingle(
    reader: seq<Field>, d: seq<Slot>, seen: set<nat>, i: nat, g: Field, v: Value, rest: seq<byte>)
    requires WellFormed(reader) && MsgFits(reader, d) && i < |reader| && !reader[i].htype.REPEATED?
    requires SlotFits(reader[i], d[i]) && ValueVersions(reader[i], g, d[i].v, v)
    requires EncodeTagged(g, v).Some? && |EncodeTagged(g, v).value| < TWO32
    ensures var f := reader[i];
            DecodeLoop(reader, d, seen, EncodeTagged(g, v).value + rest)
            == if AcceptsShared(f, g, d[i].v, v)
               then DecodeLoop(reader, d[i := Stored(f, SharedValue(f, g, d[i].v, v))], seen + Seen(f, i), rest)
               else Fail
    decreases reader[i], 1
  {
    hide DecodeLoop, DecodeValue, SharedValue, AcceptsShared, EncodeValue;
    var f := reader[i];
    var e := EncodeValue(g, v).value;
    WireTypeSmall(f.ltype);
    KnownTurn(reader, d, seen, i, WireType(f.ltype), e + rest);
    assert EncodeTagged(g, v).value + rest == EncodeTag(WireType(f.ltype), f.tag) + (e + rest);
    SharedValueExact(f, g, d[i].v, v, rest);
  }

  lemma {:induction false} SharedAppendStep(f: Field, g: Field, items: seq<Value>, count: nat, vs: seq<Value>)
    requires ArrayVersions(f, g, items, vs) && vs != [] && count + |vs| <= |items|
    requires ValueVersions(f, g, items[count], vs[0])
    ensures var items' := items[count := SharedValue(f, g, items[count], vs[0])];
            ArrayVersions(f, g, items', vs[1..])
            && SharedAppend(f, g, items, count, vs) == SharedAppend(f, g, items', count + 1, vs[1..])
  {
    hide SharedValue, ValueFits, WellFormedField, CompatibleField;
    var items' := items[count := SharedValue(f, g, items[count], vs[0])];
    var ws := vs[1..];
    var a := SharedAppend(f, g, items, count, vs).items;
    var b := SharedAppend(f, g, items', count + 1, ws).items;
    forall k | 0 <= k < |items| ensures a[k] == b[k] {
      if count < k < count + |vs| {
        assert a[k] == SharedValue(f, g, items[count + (k - count)], vs[k - count]);
        assert b[k] == SharedValue(f, g, items'[count + 1 + (k - count - 1)], ws[k - count - 1]);
      } else if k == count {
        assert a[k] == SharedValue(f, g, items[count + 0], vs[0]);
      }
    }
    assert a == b;
  }

  lemma {:induction false} SharedAcceptsStep(f: Field, g: Field, items: seq<Value>, count: nat, vs: seq<Value>)
    requires ArrayVersions(f, g, items, vs) && vs != [] && count < |items| && ValueVersions(f, g, items[count], vs[0])
    ensures var items' := items[count := SharedValue(f, g, items[count], vs[0])];
            ArrayVersions(f, g, items', vs[1..])
            && (AcceptsSharedAll(f, g, items, count, vs) <==>
                  AcceptsShared(f, g, items[count], vs[0]) && AcceptsSharedAll(f, g, items', count + 1, vs[1..]))
  {
    hide SharedValue, WellFormedField, CompatibleField, ValueFits;
    var items' := items[count := SharedValue(f, g, items[count], vs[0])];
    var ws := vs[1..];
    forall k | 0 <= k < |ws| && count + 1 + k < |items|
      ensures AcceptsShared(f, g, items'[count + 1 + k], ws[k])
              <==> AcceptsShared(f, g, items[count + (k + 1)], vs[k + 1])
    {
    }
    hide AcceptsShared;
    if AcceptsShared(f, g, items[count], vs[0]) && AcceptsSharedAll(f, g, items', count + 1, ws) {
      forall k | 0 <= k < |vs| ensures AcceptsShared(f, g, items[count + k], vs[k]) {
        if k > 0 { assert AcceptsShared(f, g, items'[count + 1 + (k - 1)], ws[k - 1]); }
      }
    }
    if AcceptsSharedAll(f, g, items, count, vs) {
      assert AcceptsShared(f, g, items[count + 0], vs[0]);
      forall k | 0 <= k < |ws| ensures AcceptsShared(f, g, items'[count + 1 + k], ws[k]) {
        assert AcceptsShared(f, g, items[count + (k + 1)], vs[k + 1]);
      }
    }
  }

  lemma SharedAppendNone(f: Field, g: Field, items: seq<Value>, count: nat)
    requires ArrayVersions(f, g, items, []) && count <= |items|
    ensures SharedAppend(f, g, items, count, []) == Many(count, items)
  {
    assert SharedAppend(f, g, items, count, []).items == items;
  }

  /** A packed run of the writer's on a substream of its own. */
  lemma {:induction false} SharedPacked(f: Field, g: Field, items: seq<Value>, count: nat, vs: seq<Value>)
    requires ArrayVersions(f, g, items, vs) && f.Packable() && f.htype.REPEATED? && |items| == f.arraySize
    requires EncodePacked(g, vs).Some? && |EncodePacked(g, vs).value| < TWO32
    ensures DecodePacked(f, items, count, EncodePacked(g, vs).value)
            == if vs == [] then Ok(Many(count, items), [])
               else if AcceptsSharedAll(f, g, items, count, vs) then Ok(SharedAppend(f, g, items, count, vs), [])
               else Err
    decreases |vs|
  {
    hide EncodeScalar, DecodeScalar, SharedScalar, AcceptsScalar, SharedAppend;
    if vs != [] {
      var more := EncodePacked(g, vs[1..]).value;
      ScalarNonEmpty(g, vs[0]);
      if count < f.arraySize {
        assert ValueVersions(f, g, items[count], vs[0]);
        SharedScalarExact(f, g, items[count], vs[0], more);
        SharedAcceptsStep(f, g, items, count, vs);
        if count + |vs| <= |items| { SharedAppendStep(f, g, items, count, vs); }
        var items' := items[count := SharedValue(f, g, items[count], vs[0])];
        SharedPacked(f, g, items', count + 1, vs[1..]);
        if vs[1..] == [] { SharedAppendNone(f, g, items', count + 1); }
      }
    }
  }

  /** One array entry under its own tag, as a step of the field decoder. */
  lemma {:induction false} SharedEntry(f: Field, g: Field, slot: Slot, v: Value, rest: seq<byte>)
    requires SlotFits(f, slot) && f.htype.REPEATED? && !f.Packable() && slot.count < f.arraySize
    requires ValueVersions(f, g, slot.items[slot.count], v)
    requires EncodeValue(g, v).Some? && |EncodeValue(g, v).value| < TWO32
    ensures var r := DecodeSlot(f, slot, WireType(f.ltype), EncodeValue(g, v).value + rest);
            if AcceptsShared(f, g, slot.items[slot.count], v)
            then r == Ok(Many(slot.count + 1,
                              slot.items[slot.count := SharedValue(f, g, slot.items[slot.count], v)]), rest)
            else r == Err
    decreases f, 1
  {
    hide DecodeValue, SharedValue, AcceptsShared, EncodeValue;
    SharedValueExact(f, g, slot.items[slot.count], v, rest);
  }

  lemma {:induction false} SharedEach(
    reader: seq<Field>, d: seq<Slot>, seen: set<nat>, i: nat, g: Field, vs: seq<Value>, rest: seq<byte>)
    requires WellFormed(reader) && MsgFits(reader, d) && i < |reader| && SlotFits(reader[i], d[i]) && vs != []
    requires reader[i].htype.REPEATED? && !reader[i].Packable() && ArrayVersions(reader[i], g, d[i].items, vs)
    requires EncodeEach(g, vs).Some? && |EncodeEach(g, vs).value| < TWO32
    ensures var f := reader[i];
            DecodeLoop(reader, d, seen, EncodeEach(g, vs).value + rest)
            == if AcceptsSharedAll(f, g, d[i].items, d[i].count, vs)
               then DecodeLoop(reader, d[i := SharedAppend(f, g, d[i].items, d[i].count, vs)], seen, rest) else Fail
    decreases reader[i], 2, |vs|
  {
    hide DecodeLoop, DecodeValue, SharedValue, AcceptsShared, EncodeValue, SharedAppend;
    var f := reader[i];
    var items, count := d[i].items, d[i].count;
    var e, more := EncodeValue(g, vs[0]).value, EncodeEach(g, vs[1..]).value;
    WireTypeSmall(f.ltype);
    KnownTurn(reader, d, seen, i, WireType(f.ltype), e + (more + rest));
    assert EncodeEach(g, vs).value + rest == EncodeTag(WireType(f.ltype), f.tag) + (e + (more + rest));
    assert seen + Seen(f, i) == seen;
    if count < f.arraySize {
      assert ValueVersions(f, g, items[count], vs[0]);
      SharedEntry(f, g, d[i], vs[0], more + rest);
      SharedAcceptsStep(f, g, items, count, vs);
      if count + |vs| <= |items| { SharedAppendStep(f, g, items, count, vs); }
      if AcceptsShared(f, g, items[count], vs[0]) {
        var next := Many(count + 1, items[count := SharedValue(f, g, items[count], vs[0])]);
        var d' := d[i := next];
        if vs[1..] == [] {
          assert more + rest == rest;
          SharedAppendNone(f, g, next.items, next.count);
        } else {
          SharedEach(reader, d', seen, i, g, vs[1..], rest);
          if AcceptsSharedAll(f, g, items, count, vs) {
            assert d'[i := SharedAppend(f, g, items, count, vs)] == d[i := SharedAppend(f, g, items, count, vs)];
          }
        }
      }
    }
  }

  /** The reader on the writer's bytes of one shared array. */
  lemma {:induction false} SharedArray(
    reader: seq<Field>, d: seq<Slot>, seen: set<nat>, i: nat, g: Field, m: Slot, rest: seq<byte>)
    requires WellFormed(reader) && MsgFits(reader, d) && i < |reader| && SlotVersions(reader[i], g, d[i], m)
    requires m.Many? && m.count > 0 && EncodeSlot(g, m).Some? && |EncodeSlot(g, m).value| < TWO32
    ensures DecodeLoop(reader, d, seen, EncodeSlot(g, m).value + rest)
            == if AcceptsMember(reader[i], g, d[i], m)
               then DecodeLoop(reader, d[i := SharedMember(reader[i], g, d[i], m)], seen, rest) else Fail
    decreases reader[i], 3
  {
    hide DecodeLoop, EncodePacked, EncodeEach, DecodePacked, SharedAppend, AcceptsSharedAll;
    var f := reader[i];
    var vs := m.items[..m.count];
    assert ArrayVersions(f, g, d[i].items, vs);
    assert seen + Seen(f, i) == seen;
    if f.Packable() {
      var payload := EncodePacked(g, vs).value;
      KnownTurn(reader, d, seen, i, WT_STRING, Delimited(payload) + rest);
      assert EncodeSlot(g, m).value + rest == EncodeTag(WT_STRING, f.tag) + (Delimited(payload) + rest);
      SubstreamRoundTrip(payload, rest);
      SharedPacked(f, g, d[i].items, d[i].count, vs);
    } else {
      SharedEach(reader, d, seen, i, g, vs, rest);
    }
    AcceptedFits(f, g, d[i], vs);
  }

  lemma AcceptedFits(f: Field, g: Field, d: Slot, vs: seq<Value>)
    requires d.Many? && ArrayVersions(f, g, d.items, vs)
    ensures AcceptsSharedAll(f, g, d.items, d.count, vs) ==> d.count + |vs| <= |d.items|
  {
  }

  /** The reader on the writer's bytes of one shared field. */
  lemma {:induction false} SharedTurn(
    reader: seq<Field>, d: seq<Slot>, seen: set<nat>, i: nat, g: Field, m: Slot, rest: seq<byte>)
    requires WellFormed(reader) && MsgFits(reader, d) && i < |reader| && SlotVersions(reader[i], g, d[i], m)
    requires EncodeSlot(g, m).Some? && |EncodeSlot(g, m).value| < TWO32
    ensures var f := reader[i];
            DecodeLoop(reader, d, seen, EncodeSlot(g, m).value + rest)
            == if AcceptsMember(f, g, d[i], m)
               then DecodeLoop(reader, d[i := SharedMember(f, g, d[i], m)], seen + Met(f, g, m, i), rest) else Fail
    decreases reader[i], 4
  {
    hide DecodeLoop, EncodeTagged, EncodeEach, EncodePacked, SharedValue, AcceptsShared, ValueIsDefault;
    var f := reader[i];
    if m.Many? {
      assert seen + Met(f, g, m, i) == seen;
      if m.count == 0 {
        assert [] + rest == rest;
        if d[i].count <= |d[i].items| { SharedAppendNone(f, g, d[i].items, d[i].count); }
        assert m.items[..0] == [];
        assert d[i := d[i]] == d;
      } else {
        SharedArray(reader, d, seen, i, g, m, rest);
      }
    } else if Sends(g, m) {
      SharedSingle(reader, d, seen, i, g, m.v, rest);
    } else {
      assert [] + rest == rest;
      assert seen + {} == seen;
      assert d[i := d[i]] == d;
    }
  }

  // ---------------------------------------------------------------------------
  // All fields
  // ---------------------------------------------------------------------------

  lemma {:induction false} SharedStepAt(
    reader: seq<Field>, writer: seq<Field>, d: seq<Slot>, m: seq<Slot>, j: nat, i: nat, h: nat)
    requires Versions(reader, writer, d, m) && j < |writer| && Find(reader, writer[j].tag) == i < |reader|
    requires h < |reader|
    requires SlotVersions(reader[i], writer[j], d[i], m[j]) && Find(writer, writer[j].tag) == j
    ensures var d' := d[i := SharedMember(reader[i], writer[j], d[i], m[j])];
            && Versions(reader, writer, d', m)
            && SharedSlot(reader, writer, d', m, j + 1, h) == SharedSlot(reader, writer, d, m, j, h)
            && (h != i ==> SharedAccepts(reader, writer, d, m, j, h) == SharedAccepts(reader, writer, d', m, j + 1, h))
            && (h == i ==> SharedAccepts(reader, writer, d', m, j + 1, h))
            && (h == i ==> SharedAccepts(reader, writer, d, m, j, h) == AcceptsMember(reader[i], writer[j], d[i], m[j]))
  {
    hide SharedMember, AcceptsMember, SlotFits, ValueFits, WellFormedField, CompatibleField, Compatible;
    FindUnique(reader, h);
  }

  /** One field of the writer that the reader knows as its field `i`. */
  lemma {:induction false} SharedStep(
    reader: seq<Field>, writer: seq<Field>, d: seq<Slot>, m: seq<Slot>, j: nat, i: nat)
    requires Versions(reader, writer, d, m) && j < |writer| && Find(reader, writer[j].tag) == i < |reader|
    requires SlotVersions(reader[i], writer[j], d[i], m[j])
    ensures var d' := d[i := SharedMember(reader[i], writer[j], d[i], m[j])];
            && Versions(reader, writer, d', m)
            && SharedMerge(reader, writer, d', m, j + 1) == SharedMerge(reader, writer, d, m, j)
            && (AllSharedAccept(reader, writer, d, m, j) <==>
                  AcceptsMember(reader[i], writer[j], d[i], m[j]) && AllSharedAccept(reader, writer, d', m, j + 1))
  {
    hide SharedMember, AcceptsMember, SlotFits, ValueFits, WellFormedField, CompatibleField, Compatible;
    var d' := d[i := SharedMember(reader[i], writer[j], d[i], m[j])];
    FindUnique(writer, j);
    SharedStepAt(reader, writer, d, m, j, i, i);
    var a, b := SharedMerge(reader, writer, d', m, j + 1), SharedMerge(reader, writer, d, m, j);
    forall h | 0 <= h < |reader|
      ensures a[h] == b[h]
      ensures h != i ==> SharedAccepts(reader, writer, d, m, j, h) == SharedAccepts(reader, writer, d', m, j + 1, h)
      ensures h == i ==> SharedAccepts(reader, writer, d', m, j + 1, h)
      ensures h == i ==> SharedAccepts(reader, writer, d, m, j, h) == AcceptsMember(reader[i], writer[j], d[i], m[j])
    {
      SharedStepAt(reader, writer, d, m, j, i, h);
    }
    assert a == b;
    hide SharedAccepts;
    assert AllSharedAccept(reader, writer, d, m, j) ==> SharedAccepts(reader, writer, d, m, j, i);
  }

  lemma SharedRequiredStep(reader: seq<Field>, writer: seq<Field>, m: seq<Slot>, j: nat, i: nat)
    requires TagsDistinct(reader) && WellFormed(writer) && MsgFits(writer, m)
    requires j < |writer| && Find(reader, writer[j].tag) == i < |reader|
    requires WellFormedField(writer[j]) && SlotFits(writer[j], m[j])
    ensures SharedRequired(reader, writer, m, j)
            == SharedRequired(reader, writer, m, j + 1) + Met(reader[i], writer[j], m[j], i)
  {
    hide Sends, WellFormedField, SlotFits;
    FindUnique(writer, j);
    forall h | 0 <= h < |reader| ensures Partner(reader, writer, h) == j <==> h == i {
      FindUnique(reader, h);
    }
  }

  /** One field of the writer that the reader does not know. */
  lemma {:induction false} ForeignStep(reader: seq<Field>, writer: seq<Field>, d: seq<Slot>, m: seq<Slot>, j: nat)
    requires Versions(reader, writer, d, m) && j < |writer| && Find(reader, writer[j].tag) == |reader|
    ensures SharedMerge(reader, writer, d, m, j + 1) == SharedMerge(reader, writer, d, m, j)
    ensures AllSharedAccept(reader, writer, d, m, j) <==> AllSharedAccept(reader, writer, d, m, j + 1)
    ensures SharedRequired(reader, writer, m, j) == SharedRequired(reader, writer, m, j + 1)
  {
    hide SharedMember, AcceptsMember, SlotFits, Compatible;
    assert forall h | 0 <= h < |reader| :: Partner(reader, writer, h) != j;
    var a, b := SharedMerge(reader, writer, d, m, j + 1), SharedMerge(reader, writer, d, m, j);
    forall h | 0 <= h < |reader|
      ensures a[h] == b[h] && SharedAccepts(reader, writer, d, m, j, h) == SharedAccepts(reader, writer, d, m, j + 1, h)
    {
      assert a[h] == SharedSlot(reader, writer, d, m, j + 1, h);
      assert b[h] == SharedSlot(reader, writer, d, m, j, h);
    }
    assert a == b;
  }

  /** What the loop yields on the writer's fields from `j` on. */
  ghost function Outcome(
    reader: seq<Field>, writer: seq<Field>, d: seq<Slot>, m: seq<Slot>, seen: set<nat>, j: nat): Loop
    requires Versions(reader, writer, d, m)
  {
    if AllSharedAccept(reader, writer, d, m, j)
    then Done(SharedMerge(reader, writer, d, m, j), seen + SharedRequired(reader, writer, m, j), [], false)
    else Fail
  }

  lemma OutcomeAtEnd(reader: seq<Field>, writer: seq<Field>, d: seq<Slot>, m: seq<Slot>, seen: set<nat>)
    requires Versions(reader, writer, d, m)
    ensures Outcome(reader, writer, d, m, seen, |writer|) == Done(d, seen, [], false)
  {
    var r := SharedMerge(reader, writer, d, m, |writer|);
    assert forall h | 0 <= h < |reader| :: r[h] == SharedSlot(reader, writer, d, m, |writer|, h);
    assert r == d;
    assert seen + SharedRequired(reader, writer, m, |writer|) == seen;
  }

  lemma OutcomeStep(reader: seq<Field>, writer: seq<Field>, d: seq<Slot>, m: seq<Slot>, seen: set<nat>, j: nat, i: nat)
    requires Versions(reader, writer, d, m) && j < |writer| && Find(reader, writer[j].tag) == i < |reader|
    requires SlotVersions(reader[i], writer[j], d[i], m[j])
    ensures var d' := d[i := SharedMember(reader[i], writer[j], d[i], m[j])];
            Versions(reader, writer, d', m)
            && Outcome(reader, writer, d, m, seen, j)
               == if AcceptsMember(reader[i], writer[j], d[i], m[j])
                  then Outcome(reader, writer, d', m, seen + Met(reader[i], writer[j], m[j], i), j + 1) else Fail
  {
    hide SharedMember, AcceptsMember, SharedMerge, AllSharedAccept, SharedRequired, Met;
    SharedStep(reader, writer, d, m, j, i);
    SharedRequiredStep(reader, writer, m, j, i);
    var met := Met(reader[i], writer[j], m[j], i);
    assert seen + met + SharedRequired(reader, writer, m, j + 1) == seen + SharedRequired(reader, writer, m, j);
  }

  lemma {:induction false} VersionsExactFrom(
    reader: seq<Field>, writer: seq<Field>, d: seq<Slot>, m: seq<Slot>, seen: set<nat>, j: nat)
    requires Versions(reader, writer, d, m) && j <= |writer|
    requires EncodeFrom(writer, m, j).Some? && |EncodeFrom(writer, m, j).value| < TWO32
    ensures DecodeLoop(reader, d, seen, EncodeFrom(writer, m, j).value) == Outcome(reader, writer, d, m, seen, j)
    decreases reader, 5, |writer| - j
  {
    if j == |writer| {
      OutcomeAtEnd(reader, writer, d, m, seen);
    } else {
      assert SlotFits(writer[j], m[j]) && WellFormedField(writer[j]);
      hide DecodeLoop, EncodeSlot, SharedMember, AcceptsMember, Outcome, SlotFits, WellFormedField;
      hide CompatibleField, Met;
      var i := Find(reader, writer[j].tag);
      var more := EncodeFrom(writer, m, j + 1).value;
      if i == |reader| {
        SlotSkipped(reader, d, seen, writer[j], m[j], more);
        ForeignOutcome(reader, writer, d, m, seen, j);
        VersionsExactFrom(reader, writer, d, m, seen, j + 1);
      } else {
        FindUnique(writer, j);
        PartnerFits(reader, writer, d, m, i);
        SharedTurn(reader, d, seen, i, writer[j], m[j], more);
        OutcomeStep(reader, writer, d, m, seen, j, i);
        if AcceptsMember(reader[i], writer[j], d[i], m[j]) {
          var d' := d[i := SharedMember(reader[i], writer[j], d[i], m[j])];
          VersionsExactFrom(reader, writer, d', m, seen + Met(reader[i], writer[j], m[j], i), j + 1);
        }
      }
    }
  }

  lemma ForeignOutcome(reader: seq<Field>, writer: seq<Field>, d: seq<Slot>, m: seq<Slot>, seen: set<nat>, j: nat)
    requires Versions(reader, writer, d, m) && j < |writer| && Find(reader, writer[j].tag) == |reader|
    ensures Outcome(reader, writer, d, m, seen, j) == Outcome(reader, writer, d, m, seen, j + 1)
  {
    hide SharedMerge, AllSharedAccept, SharedRequired;
    ForeignStep(reader, writer, d, m, j);
  }

  /**
    A struct of the writer's table decoded with the reader's: the shared fields are merged
    at every depth, everything else of the reader's struct stays, and nothing else can happen.
   */
  lemma {:induction false} VersionsExact(reader: seq<Field>, writer: seq<Field>, d: seq<Slot>, m: seq<Slot>)
    requires Versions(reader, writer, d, m)
    requires EncodeMsg(writer, m).Some? && |EncodeMsg(writer, m).value| < TWO32
    ensures DecodeMessage(reader, d, EncodeMsg(writer, m).value)
            == if AllSharedAccept(reader, writer, d, m, 0) && SendsRequired(reader, writer, m)
               then Ok(SharedMerge(reader, writer, d, m, 0), []) else Err
    decreases reader, 6
  {
    hide DecodeLoop, AllSharedAccept, SharedMerge, IsSent;
    VersionsExactFrom(reader, writer, d, m, {}, 0);
    var required := {} + SharedRequired(reader, writer, m, 0);
    assert AllRequired(reader, required) <==> SendsRequired(reader, writer, m);
  }
}
