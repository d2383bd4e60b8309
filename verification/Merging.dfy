/**
  Decoding what was encoded, in full: what the bytes of a struct `m` do to an arbitrary
  struct `d`.

  MergeMsg is the reference: scalars take m's value, has_ flags are set, arrays are
  appended to, submessages are merged member by member and members that m omits keep d's
  value (the section "Last One Wins" of the Encoding document). The main lemma says that
  the decoder run on encoded bytes computes exactly this struct, and fails exactly when
  d has no room for what m carries.
 */
module Merging {
  import opened Wire
  import opened Schema
  import opened Encoding
  import opened Decoding

  // ---------------------------------------------------------------------------
  // The reference merge
  // ---------------------------------------------------------------------------

  function MergeValue(f: Field, d: Value, m: Value): (r: Value)
    requires WellFormedField(f) && ValueFits(f, d) && ValueFits(f, m)
    ensures ValueFits(f, r)
    decreases f, 0
  {
    match m
    case Num(n) => m
    case Blob(size, data) => if size <= |data| then Blob(size, data[..size] + d.data[size..]) else m
    case Text(buf) =>
      var s := CString(buf);
      if |s| < |buf| then Text(s + [0] + d.buf[|s| + 1..]) else m
    case Msg(slots) => Msg(MergeMsg(f.sub, SubmessageBase(f, d), slots))
  }

  /** `vs` written over the entries of `items` from `count` on. */
  function Append(f: Field, items: seq<Value>, count: nat, vs: seq<Value>): (r: Slot)
    requires WellFormedField(f) && AllFit(f, items) && AllFit(f, vs) && count + |vs| <= |items|
    ensures r.Many? && |r.items| == |items| && AllFit(f, r.items)
    ensures f.htype.REPEATED? && |items| == f.arraySize ==> SlotFits(f, r)
    decreases f, 1
  {
    var added := seq(|vs|, k requires 0 <= k < |vs| && count + k < |items| && ValueFits(f, items[count + k])
                             && ValueFits(f, vs[k]) => MergeValue(f, items[count + k], vs[k]));
    Many(count + |vs|, items[..count] + added + items[count + |vs|..])
  }

  function MergeSlot(f: Field, d: Slot, m: Slot): (r: Slot)
    requires WellFormedField(f) && SlotFits(f, d) && SlotFits(f, m)
    ensures SlotFits(f, r)
    decreases f, 2
  {
    match m
    case One(v) => if f.Implicit() && ValueIsDefault(f, v) then d else One(MergeValue(f, d.v, v))
    case Flagged(has, v) => if has then Flagged(true, MergeValue(f, d.v, v)) else d
    case Many(count, items) =>
      if count <= |items| && d.count + count <= |items| then Append(f, d.items, d.count, items[..count]) else d
  }

  /** The fields from `i` on merged, those before left alone. */
  function MergeFrom(fields: seq<Field>, d: seq<Slot>, m: seq<Slot>, i: nat): (r: seq<Slot>)
    requires WellFormed(fields) && MsgFits(fields, d) && MsgFits(fields, m)
    ensures MsgFits(fields, r)
    decreases fields, 3
  {
    seq(|fields|, j requires 0 <= j < |fields| && |d| == |m| == |fields|
                      && WellFormedField(fields[j]) && SlotFits(fields[j], d[j]) && SlotFits(fields[j], m[j]) =>
      if j < i then d[j] else MergeSlot(fields[j], d[j], m[j]))
  }

  function MergeMsg(fields: seq<Field>, d: seq<Slot>, m: seq<Slot>): (r: seq<Slot>)
    requires WellFormed(fields) && MsgFits(fields, d) && MsgFits(fields, m)
    ensures MsgFits(fields, r)
    decreases fields, 4
  {
    MergeFrom(fields, d, m, 0)
  }

  // ---------------------------------------------------------------------------
  // When there is room
  // ---------------------------------------------------------------------------

  /** Every string that is sent has its NUL, and every array has room for what is appended. */
  ghost predicate AcceptsValue(f: Field, d: Value, m: Value)
    requires WellFormedField(f) && ValueFits(f, d) && ValueFits(f, m)
    decreases f, 0
  {
    match m
    case Num(_) => true
    case Blob(_, _) => true
    case Text(buf) => 0 in buf
    case Msg(slots) =>
      var base := SubmessageBase(f, d);
      assert WellFormed(f.sub) && MsgFits(f.sub, slots);
      forall i | 0 <= i < |f.sub| :: AcceptsSlot(f.sub[i], base[i], slots[i])
  }

  ghost predicate AcceptsAll(f: Field, items: seq<Value>, count: nat, vs: seq<Value>)
    requires WellFormedField(f) && AllFit(f, items) && AllFit(f, vs)
    decreases f, 1
  {
    count + |vs| <= |items| && forall k | 0 <= k < |vs| :: AcceptsValue(f, items[count + k], vs[k])
  }

  ghost predicate AcceptsSlot(f: Field, d: Slot, m: Slot)
    requires WellFormedField(f) && SlotFits(f, d) && SlotFits(f, m)
    decreases f, 2
  {
    match m
    case One(v) => (f.Implicit() && ValueIsDefault(f, v)) || AcceptsValue(f, d.v, v)
    case Flagged(has, v) => has ==> AcceptsValue(f, d.v, v)
    case Many(count, items) => count == 0 || (count <= |items| && AcceptsAll(f, d.items, d.count, items[..count]))
  }

  ghost predicate AcceptsFrom(fields: seq<Field>, d: seq<Slot>, m: seq<Slot>, i: nat)
    requires WellFormed(fields) && MsgFits(fields, d) && MsgFits(fields, m)
  {
    forall j | i <= j < |fields| :: AcceptsSlot(fields[j], d[j], m[j])
  }

  // ---------------------------------------------------------------------------
  // One entry
  // ---------------------------------------------------------------------------

  lemma TagRoundTrip(wireType: nat, tag: nat, rest: seq<byte>)
    requires wireType < 8 && 0 < tag < 0x2000_0000
    ensures DecodeTag(EncodeTag(wireType, tag) + rest) == Tag(tag, wireType, rest)
  {
    hide DecodeVarint32, EncodeVarint;
    Varint32RoundTrip(8 * tag + wireType, rest);
    TagParts(wireType, tag);
  }

  lemma TagParts(wireType: nat, tag: nat)
    requires wireType < 8
    ensures (8 * tag + wireType) / 8 == tag && (8 * tag + wireType) % 8 == wireType
  {
  }

  lemma SubstreamRoundTrip(bs: seq<byte>, rest: seq<byte>)
    requires |bs| < TWO32
    ensures Substream(Delimited(bs) + rest) == Ok(bs, rest)
  {
    Varint32RoundTrip(|bs|, bs + rest);
    assert Delimited(bs) + rest == EncodeVarint(|bs|) + (bs + rest);
    assert (bs + rest)[..|bs|] == bs && (bs + rest)[|bs|..] == rest;
  }

  /** A value the member can hold survives the store and its overflow check. */
  lemma SignedStores(size: nat, n: int)
    requires IntegerSize(size) && -HalfRange(size) <= n < HalfRange(size)
    ensures ToSigned(n, HalfRange(size)) == n
    ensures VarintAsSigned(size, ToUnsigned64(n)) == n
  {
    if size == 1 { assert (n + 0x80) % 0x100 == n + 0x80; }
    else if size == 2 { assert (n + 0x8000) % 0x1_0000 == n + 0x8000; }
    else if size == 4 { assert (n + 0x8000_0000) % 0x1_0000_0000 == n + 0x8000_0000; }
    else { Within64(n); }
    if n < 0 {
      assert ToUnsigned64(n) == n + TWO64;
      if size == 8 { Low64(n); } else { Low32(n); }
    } else {
      assert ToUnsigned64(n) == n;
    }
  }

  lemma Within64(n: int)
    requires IsInt64(n)
    ensures ToInt64(n) == n
  {
  }

  lemma Low64(n: int)
    requires -0x8000_0000_0000_0000 <= n < 0
    ensures ToInt64(n + TWO64) == n
  {
  }

  /** The low 32 bits of a sign-extended negative number. */
  lemma Low32(n: int)
    requires -0x8000_0000 <= n < 0
    ensures ToInt32(n + TWO64) == n
  {
    assert n + TWO64 + 0x8000_0000 == (n + 0x8000_0000) + TWO32 * TWO32;
  }

  lemma {:induction false} IntegerExact(f: Field, m: Value, d: Value, rest: seq<byte>)
    requires WellFormedField(f) && ValueFits(f, d) && ValueFits(f, m)
    requires f.ltype.VARINT? || f.ltype.SVARINT? || f.ltype.UVARINT?
    ensures DecodeScalar(f, d, EncodeScalar(f, m).value + rest) == Ok(m, rest)
  {
    hide EncodeVarint, DecodeVarint, ToSigned, VarintAsSigned, ToUnsigned64, ZigZag, UnZigZag, HalfRange;
    match f.ltype
    case VARINT =>
      FitsInt64(f, m);
      VarintRoundTrip(ToUnsigned64(m.n), rest);
      SignedStores(f.dataSize, m.n);
    case SVARINT =>
      FitsInt64(f, m);
      ZigZagRoundTrip(m.n);
      VarintRoundTrip(ZigZag(m.n), rest);
      SignedStores(f.dataSize, m.n);
    case UVARINT =>
      VarintRoundTrip(m.n, rest);
      SmallMod(m.n, 2 * HalfRange(f.dataSize));
  }

  lemma SmallMod(a: int, b: int)
    requires 0 <= a < b
    ensures a % b == a
  {
  }

  /** Every signed member's values are 64-bit numbers. */
  lemma FitsInt64(f: Field, v: Value)
    requires ValueFits(f, v) && (f.ltype.VARINT? || f.ltype.SVARINT?)
    ensures IsInt64(v.n)
  {
  }

  lemma {:induction false} ScalarExact(f: Field, d: Value, m: Value, rest: seq<byte>)
    requires WellFormedField(f) && ValueFits(f, d) && ValueFits(f, m) && !f.ltype.SUBMESSAGE?
    requires EncodeScalar(f, m).Some? && |EncodeScalar(f, m).value| < TWO32
    ensures DecodeScalar(f, d, EncodeScalar(f, m).value + rest)
            == if AcceptsValue(f, d, m) then Ok(MergeValue(f, d, m), rest) else Err
  {
    var e := EncodeScalar(f, m).value;
    match f.ltype
    case VARINT => IntegerExact(f, m, d, rest);
    case SVARINT => IntegerExact(f, m, d, rest);
    case UVARINT => IntegerExact(f, m, d, rest);
    case FIXED32 =>
      Exp256Values();
      FixedRoundTrip(m.n, 4);
      assert (e + rest)[..4] == e && (e + rest)[4..] == rest;
    case FIXED64 =>
      Exp256Values();
      FixedRoundTrip(m.n, 8);
      assert (e + rest)[..8] == e && (e + rest)[8..] == rest;
    case BYTES => DelimitedRead(m.data[..m.size], rest);
    case STRING => DelimitedRead(CString(m.buf), rest);
  }

  /** The two steps of reading a length-prefixed run: the length, then that many bytes. */
  lemma DelimitedRead(bs: seq<byte>, rest: seq<byte>)
    requires |bs| < TWO32
    ensures DecodeVarint32(Delimited(bs) + rest) == Got(|bs|, bs + rest)
    ensures Take(bs + rest, |bs|) == Ok(bs, rest)
  {
    Varint32RoundTrip(|bs|, bs + rest);
    assert Delimited(bs) + rest == EncodeVarint(|bs|) + (bs + rest);
    assert (bs + rest)[..|bs|] == bs && (bs + rest)[|bs|..] == rest;
  }

  lemma {:induction false} ValueExact(f: Field, d: Value, m: Value, rest: seq<byte>)
    requires WellFormedField(f) && ValueFits(f, d) && ValueFits(f, m)
    requires EncodeValue(f, m).Some? && |EncodeValue(f, m).value| < TWO32
    ensures DecodeValue(f, d, EncodeValue(f, m).value + rest)
            == if AcceptsValue(f, d, m) then Ok(MergeValue(f, d, m), rest) else Err
    decreases f, 0
  {
    if f.ltype.SUBMESSAGE? {
      var inner := EncodeMsg(f.sub, m.slots).value;
      SubstreamRoundTrip(inner, rest);
      MessageExact(f.sub, SubmessageBase(f, d), m.slots);
    } else {
      ScalarExact(f, d, m, rest);
    }
  }

  // ---------------------------------------------------------------------------
  // One field
  // ---------------------------------------------------------------------------

  lemma FindUnique(fields: seq<Field>, i: nat)
    requires TagsDistinct(fields) && i < |fields|
    ensures Find(fields, fields[i].tag) == i
  {
  }

  /** One turn of the field loop on a known tag. */
  lemma {:induction false} KnownTurn(
    fields: seq<Field>, slots: seq<Slot>, seen: set<nat>, i: nat, wireType: nat, s: seq<byte>)
    requires WellFormed(fields) && MsgFits(fields, slots) && i < |fields| && wireType < 8
    ensures DecodeLoop(fields, slots, seen, EncodeTag(wireType, fields[i].tag) + s)
            == match DecodeSlot(fields[i], slots[i], wireType, s)
               case Err => Fail
               case Ok(slot, rest) => DecodeLoop(fields, slots[i := slot], seen + Seen(fields[i], i), rest)
  {
    var f := fields[i];
    assert WellFormedField(f);
    TagRoundTrip(wireType, f.tag, s);
    FindUnique(fields, i);
    GroupsProgress(EncodeTag(wireType, f.tag) + s, MAX_VARINT32);
    assert EncodeTag(wireType, f.tag) + s != [];
  }

  lemma WireTypeSmall(t: LType)
    ensures WireType(t) < 8
  {
  }

  /** One entry under its field's tag, for a field that is not an array. */
  lemma {:induction false} SingleExact(
    fields: seq<Field>, d: seq<Slot>, seen: set<nat>, i: nat, v: Value, rest: seq<byte>)
    requires WellFormed(fields) && MsgFits(fields, d) && i < |fields| && !fields[i].htype.REPEATED?
    requires SlotFits(fields[i], d[i]) && ValueFits(fields[i], v)
    requires EncodeTagged(fields[i], v).Some? && |EncodeTagged(fields[i], v).value| < TWO32
    ensures var f := fields[i];
            DecodeLoop(fields, d, seen, EncodeTagged(f, v).value + rest)
            == if AcceptsValue(f, d[i].v, v)
               then var merged := MergeValue(f, d[i].v, v);
                    DecodeLoop(fields, d[i := if f.HasFlag() then Flagged(true, merged) else One(merged)],
                               seen + Seen(f, i), rest)
               else Fail
    decreases fields[i], 1
  {
    hide DecodeLoop, DecodeValue, MergeValue, AcceptsValue;
    var f := fields[i];
    var e := EncodeValue(f, v).value;
    WireTypeSmall(f.ltype);
    KnownTurn(fields, d, seen, i, WireType(f.ltype), e + rest);
    assert EncodeTagged(f, v).value + rest == EncodeTag(WireType(f.ltype), f.tag) + (e + rest);
    ValueExact(f, d[i].v, v, rest);
  }

  /** Appending one entry and then the others is appending them all. */
  lemma AppendStep(f: Field, items: seq<Value>, count: nat, vs: seq<Value>)
    requires WellFormedField(f) && AllFit(f, items) && AllFit(f, vs) && vs != [] && count + |vs| <= |items|
    ensures var items' := items[count := MergeValue(f, items[count], vs[0])];
            && AllFit(f, items') && AllFit(f, vs[1..])
            && Append(f, items, count, vs) == Append(f, items', count + 1, vs[1..])
  {
    hide MergeValue, ValueFits;
    var items' := items[count := MergeValue(f, items[count], vs[0])];
    var ws := vs[1..];
    var a := Append(f, items, count, vs).items;
    var b := Append(f, items', count + 1, ws).items;
    forall k | 0 <= k < |items| ensures a[k] == b[k] {
      if count < k < count + |vs| {
        assert a[k] == MergeValue(f, items[count + (k - count)], vs[k - count]);
        assert b[k] == MergeValue(f, items'[count + 1 + (k - count - 1)], ws[k - count - 1]);
      } else if k == count {
        assert a[k] == MergeValue(f, items[count + 0], vs[0]);
      }
    }
    assert a == b;
  }

  lemma AcceptsStep(f: Field, items: seq<Value>, count: nat, vs: seq<Value>)
    requires WellFormedField(f) && AllFit(f, items) && AllFit(f, vs) && vs != [] && count < |items|
    ensures var items' := items[count := MergeValue(f, items[count], vs[0])];
            && AllFit(f, items') && AllFit(f, vs[1..])
            && (AcceptsAll(f, items, count, vs) <==>
                  AcceptsValue(f, items[count], vs[0]) && AcceptsAll(f, items', count + 1, vs[1..]))
  {
    var items' := items[count := MergeValue(f, items[count], vs[0])];
    var ws := vs[1..];
    if AcceptsValue(f, items[count], vs[0]) && AcceptsAll(f, items', count + 1, ws) {
      forall k | 0 <= k < |vs| ensures AcceptsValue(f, items[count + k], vs[k]) {
        if k > 0 { assert AcceptsValue(f, items'[count + 1 + (k - 1)], ws[k - 1]); }
      }
    }
    if AcceptsAll(f, items, count, vs) {
      assert AcceptsValue(f, items[count + 0], vs[0]);
      forall k | 0 <= k < |ws| ensures AcceptsValue(f, items'[count + 1 + k], ws[k]) {
        assert AcceptsValue(f, items[count + (k + 1)], vs[k + 1]);
      }
    }
  }

  /** The unpacked entries of an array, one tag each. */
  lemma {:induction false} EachExact(
    fields: seq<Field>, d: seq<Slot>, seen: set<nat>, i: nat, vs: seq<Value>, rest: seq<byte>)
    requires WellFormed(fields) && MsgFits(fields, d) && i < |fields|
    requires fields[i].htype.REPEATED? && !fields[i].Packable() && AllFit(fields[i], vs) && vs != []
    requires SlotFits(fields[i], d[i])
    requires EncodeEach(fields[i], vs).Some? && |EncodeEach(fields[i], vs).value| < TWO32
    ensures var f := fields[i];
            DecodeLoop(fields, d, seen, EncodeEach(f, vs).value + rest)
            == if AcceptsAll(f, d[i].items, d[i].count, vs)
               then DecodeLoop(fields, d[i := Append(f, d[i].items, d[i].count, vs)], seen, rest) else Fail
    decreases fields[i], 1, |vs|
  {
    hide DecodeLoop, DecodeValue, DecodeScalar, MergeValue, AcceptsValue;
    var f := fields[i];
    var e := EncodeValue(f, vs[0]).value;
    var more := EncodeEach(f, vs[1..]).value;
    var items, count := d[i].items, d[i].count;
    WireTypeSmall(f.ltype);
    KnownTurn(fields, d, seen, i, WireType(f.ltype), e + (more + rest));
    assert EncodeEach(f, vs).value + rest == EncodeTag(WireType(f.ltype), f.tag) + (e + (more + rest));
    if count < f.arraySize {
      ValueExact(f, items[count], vs[0], more + rest);
      AcceptsStep(f, items, count, vs);
      if count + |vs| <= |items| { AppendStep(f, items, count, vs); }
      if AcceptsValue(f, items[count], vs[0]) {
        var next := Many(count + 1, items[count := MergeValue(f, items[count], vs[0])]);
        var d' := d[i := next];
        assert seen + Seen(f, i) == seen;
        if vs[1..] == [] {
          assert more + rest == rest;
          assert Append(f, next.items, next.count, []).items == next.items;
        } else {
          EachExact(fields, d', seen, i, vs[1..], rest);
          if AcceptsAll(f, items, count, vs) {
            assert d'[i := Append(f, items, count, vs)] == d[i := Append(f, items, count, vs)];
          }
        }
      }
    }
  }

  lemma AppendNone(f: Field, items: seq<Value>, count: nat)
    requires WellFormedField(f) && AllFit(f, items) && count <= |items|
    ensures Append(f, items, count, []) == Many(count, items)
  {
    assert Append(f, items, count, []).items == items;
  }

  /** The outcome of a packed run, and how its first entry takes part in it. */
  function PackedOutcome(f: Field, items: seq<Value>, count: nat, vs: seq<Value>): Dec<Slot>
    requires WellFormedField(f) && AllFit(f, items) && AllFit(f, vs)
  {
    if vs == [] then Ok(Many(count, items), [])
    else if count + |vs| <= |items| then Ok(Append(f, items, count, vs), []) else Err
  }

  lemma PackedOutcomeStep(f: Field, items: seq<Value>, count: nat, vs: seq<Value>)
    requires WellFormedField(f) && AllFit(f, items) && AllFit(f, vs) && vs != [] && count < |items|
    ensures var items' := items[count := MergeValue(f, items[count], vs[0])];
            AllFit(f, items') && AllFit(f, vs[1..])
            && PackedOutcome(f, items, count, vs) == PackedOutcome(f, items', count + 1, vs[1..])
  {
    hide MergeValue, Append;
    var items' := items[count := MergeValue(f, items[count], vs[0])];
    if count + |vs| <= |items| {
      AppendStep(f, items, count, vs);
      if vs[1..] == [] { AppendNone(f, items', count + 1); }
    }
  }

  lemma {:induction false} PackedRun(f: Field, items: seq<Value>, count: nat, vs: seq<Value>)
    requires WellFormedField(f) && f.Packable() && f.htype.REPEATED?
    requires |items| == f.arraySize && AllFit(f, items) && AllFit(f, vs)
    requires EncodePacked(f, vs).Some? && |EncodePacked(f, vs).value| < TWO32
    ensures DecodePacked(f, items, count, EncodePacked(f, vs).value) == PackedOutcome(f, items, count, vs)
    decreases |vs|
  {
    hide EncodeScalar, DecodeScalar, MergeValue, PackedOutcome;
    if vs == [] {
      NoPackedRun(f, items, count);
    } else {
      ScalarNonEmpty(f, vs[0]);
      if count < f.arraySize {
        PlainNumber(f, items[count], vs[0]);
        ScalarExact(f, items[count], vs[0], EncodePacked(f, vs[1..]).value);
        PackedOutcomeStep(f, items, count, vs);
        PackedRun(f, items[count := MergeValue(f, items[count], vs[0])], count + 1, vs[1..]);
      } else {
        NoRoomForRun(f, items, count, vs);
      }
    }
  }

  lemma NoPackedRun(f: Field, items: seq<Value>, count: nat)
    requires WellFormedField(f) && AllFit(f, items)
    ensures PackedOutcome(f, items, count, []) == Ok(Many(count, items), [])
  {
  }

  lemma NoRoomForRun(f: Field, items: seq<Value>, count: nat, vs: seq<Value>)
    requires WellFormedField(f) && AllFit(f, items) && AllFit(f, vs) && vs != [] && count >= |items|
    ensures PackedOutcome(f, items, count, vs) == Err
  {
  }

  /** A number is always accepted and simply copied. */
  lemma PlainNumber(f: Field, d: Value, v: Value)
    requires WellFormedField(f) && f.Packable() && ValueFits(f, d) && ValueFits(f, v)
    ensures AcceptsValue(f, d, v) && MergeValue(f, d, v) == v
  {
  }

  /** A packed run on a substream of its own. */
  lemma PackedExact(f: Field, items: seq<Value>, count: nat, vs: seq<Value>)
    requires WellFormedField(f) && f.Packable() && f.htype.REPEATED?
    requires |items| == f.arraySize && AllFit(f, items) && AllFit(f, vs)
    requires EncodePacked(f, vs).Some? && |EncodePacked(f, vs).value| < TWO32
    ensures DecodePacked(f, items, count, EncodePacked(f, vs).value)
            == if vs == [] then Ok(Many(count, items), [])
               else if AcceptsAll(f, items, count, vs) then Ok(Append(f, items, count, vs), []) else Err
  {
    hide DecodePacked, EncodePacked, AcceptsValue, MergeValue, ValueFits, Append;
    PackedRun(f, items, count, vs);
    if count + |vs| <= |items| {
      forall k | 0 <= k < |vs| ensures AcceptsValue(f, items[count + k], vs[k]) {
        PlainNumber(f, items[count + k], vs[k]);
      }
    }
  }

  lemma ScalarNonEmpty(f: Field, v: Value)
    requires WellFormedField(f) && ValueFits(f, v) && !f.ltype.SUBMESSAGE? && EncodeScalar(f, v).Some?
    ensures EncodeScalar(f, v).value != []
  {
  }

  lemma {:induction false} SlotExact(fields: seq<Field>, d: seq<Slot>, seen: set<nat>, i: nat, m: Slot, rest: seq<byte>)
    requires WellFormed(fields) && MsgFits(fields, d) && i < |fields| && SlotFits(fields[i], m)
    requires EncodeSlot(fields[i], m).Some? && |EncodeSlot(fields[i], m).value| < TWO32
    ensures var f := fields[i];
            DecodeLoop(fields, d, seen, EncodeSlot(f, m).value + rest)
            == if AcceptsSlot(f, d[i], m)
               then DecodeLoop(fields, d[i := MergeSlot(f, d[i], m)], seen + Seen(f, i), rest) else Fail
    decreases fields[i], 2
  {
    hide DecodeLoop, DecodeValue, DecodePacked, MergeValue, AcceptsValue;
    var f := fields[i];
    var e := EncodeSlot(f, m).value;
    if e == [] { assert e + rest == rest; }
    if m.Many? {
      assert seen + Seen(f, i) == seen;
      if m.count == 0 {
        if d[i].count <= |d[i].items| {
          assert Append(f, d[i].items, d[i].count, m.items[..0]).items == d[i].items;
        }
        assert d[i := d[i]] == d;
      } else {
        var vs := m.items[..m.count];
        if f.Packable() {
          var payload := EncodePacked(f, vs).value;
          KnownTurn(fields, d, seen, i, WT_STRING, Delimited(payload) + rest);
          assert e + rest == EncodeTag(WT_STRING, f.tag) + (Delimited(payload) + rest);
          SubstreamRoundTrip(payload, rest);
          PackedExact(f, d[i].items, d[i].count, vs);
        } else {
          EachExact(fields, d, seen, i, vs, rest);
        }
      }
    } else if (m.Flagged? && !m.has) || (m.One? && f.Implicit() && ValueIsDefault(f, m.v)) {
      assert seen + Seen(f, i) == seen;
      assert d[i := d[i]] == d;
    } else {
      SingleExact(fields, d, seen, i, m.v, rest);
    }
  }

  // ---------------------------------------------------------------------------
  // All fields
  // ---------------------------------------------------------------------------

  function RequiredFrom(fields: seq<Field>, i: nat): set<nat> {
    set k | i <= k < |fields| && fields[k].htype.REQUIRED?
  }

  lemma MergeFromStep(fields: seq<Field>, d: seq<Slot>, m: seq<Slot>, i: nat)
    requires WellFormed(fields) && MsgFits(fields, d) && MsgFits(fields, m) && i < |fields|
    requires WellFormedField(fields[i]) && SlotFits(fields[i], d[i]) && SlotFits(fields[i], m[i])
    ensures var d' := d[i := MergeSlot(fields[i], d[i], m[i])];
            && MsgFits(fields, d')
            && MergeFrom(fields, d', m, i + 1) == MergeFrom(fields, d, m, i)
            && (AcceptsFrom(fields, d, m, i) <==>
                  AcceptsSlot(fields[i], d[i], m[i]) && AcceptsFrom(fields, d', m, i + 1))
  {
    var d' := d[i := MergeSlot(fields[i], d[i], m[i])];
    var a, b := MergeFrom(fields, d', m, i + 1), MergeFrom(fields, d, m, i);
    forall j | 0 <= j < |fields| ensures a[j] == b[j] {
    }
    assert a == b;
  }

  lemma MergeFromEnd(fields: seq<Field>, d: seq<Slot>, m: seq<Slot>)
    requires WellFormed(fields) && MsgFits(fields, d) && MsgFits(fields, m)
    ensures MergeFrom(fields, d, m, |fields|) == d
  {
  }

  lemma {:induction false} FromExact(
    fields: seq<Field>, d: seq<Slot>, m: seq<Slot>, seen: set<nat>, i: nat, rest: seq<byte>)
    requires WellFormed(fields) && MsgFits(fields, d) && MsgFits(fields, m) && i <= |fields|
    requires EncodeFrom(fields, m, i).Some? && |EncodeFrom(fields, m, i).value| < TWO32
    ensures DecodeLoop(fields, d, seen, EncodeFrom(fields, m, i).value + rest)
            == if AcceptsFrom(fields, d, m, i)
               then DecodeLoop(fields, MergeFrom(fields, d, m, i), seen + RequiredFrom(fields, i), rest) else Fail
    decreases fields, 3, |fields| - i
  {
    hide DecodeLoop, EncodeSlot, MergeSlot, AcceptsSlot, MergeFrom;
    if i == |fields| {
      assert EncodeFrom(fields, m, i).value + rest == rest;
      MergeFromEnd(fields, d, m);
      assert seen + RequiredFrom(fields, i) == seen;
    } else {
      var f := fields[i];
      var e := EncodeSlot(f, m[i]).value;
      var more := EncodeFrom(fields, m, i + 1).value;
      assert EncodeFrom(fields, m, i).value + rest == e + (more + rest);
      SlotExact(fields, d, seen, i, m[i], more + rest);
      MergeFromStep(fields, d, m, i);
      if AcceptsSlot(f, d[i], m[i]) {
        var d' := d[i := MergeSlot(f, d[i], m[i])];
        FromExact(fields, d', m, seen + Seen(f, i), i + 1, rest);
        assert seen + Seen(f, i) + RequiredFrom(fields, i + 1) == seen + RequiredFrom(fields, i);
      }
    }
  }

  /**
    pb_decode_noinit on exactly the bytes of `m` turns any struct `d` into the merge of the
    two, or fails because `d` has no room; no other outcome exists.
   */
  lemma {:induction false} MessageExact(fields: seq<Field>, d: seq<Slot>, m: seq<Slot>)
    requires WellFormed(fields) && MsgFits(fields, d) && MsgFits(fields, m)
    requires EncodeMsg(fields, m).Some? && |EncodeMsg(fields, m).value| < TWO32
    ensures DecodeMessage(fields, d, EncodeMsg(fields, m).value)
            == if AcceptsFrom(fields, d, m, 0) then Ok(MergeMsg(fields, d, m), []) else Err
    decreases fields, 4
  {
    var e := EncodeMsg(fields, m).value;
    FromExact(fields, d, m, {}, 0, []);
    assert e + [] == e;
    assert forall i | 0 <= i < |fields| && fields[i].htype.REQUIRED? :: i in RequiredFrom(fields, 0);
  }
}
