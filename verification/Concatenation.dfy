/**
  Decoding as an action of the byte string on the struct.

  For arbitrary bytes, not only encoder output: decoding `a + b` is decoding `a` and then
  `b` into the result, unless `a` ended the message early. From this follow the
  transparency of unknown fields and the freedom to cut a repeated scalar into packed and
  single pieces.
 */
module Concatenation {
  import opened Wire
  import opened Schema
  import opened Encoding
  import opened Decoding
  import opened Merging

  // ---------------------------------------------------------------------------
  // What a read does not need does not matter
  // ---------------------------------------------------------------------------

  lemma {:induction false} TagLocal(a: seq<byte>, b: seq<byte>)
    ensures match DecodeTag(a)
            case Tag(tag, wireType, rest) => DecodeTag(a + b) == Tag(tag, wireType, rest + b)
            case Stop(rest) => DecodeTag(a + b) == Stop(rest + b)
            case CutOff => true
            case Bad => DecodeTag(a + b) == Bad
  {
    GroupsLocal(a, MAX_VARINT32, b);
  }

  lemma TakeLocal(a: seq<byte>, n: nat, b: seq<byte>)
    requires Take(a, n).Ok?
    ensures Take(a + b, n) == Ok(Take(a, n).value, Take(a, n).rest + b)
  {
    assert (a + b)[..n] == a[..n] && (a + b)[n..] == a[n..] + b;
  }

  lemma SubstreamLocal(a: seq<byte>, b: seq<byte>)
    requires Substream(a).Ok?
    ensures Substream(a + b) == Ok(Substream(a).value, Substream(a).rest + b)
  {
    GroupsLocal(a, MAX_VARINT32, b);
    var size := DecodeVarint32(a).value;
    TakeLocal(DecodeVarint32(a).rest, size, b);
  }

  lemma {:induction false} SkipVarintLocal(a: seq<byte>, b: seq<byte>)
    requires SkipVarint(a).Ok?
    ensures SkipVarint(a + b) == Ok((), SkipVarint(a).rest + b)
    decreases |a|
  {
    assert (a + b)[1..] == a[1..] + b;
    if a[0] >= 0x80 { SkipVarintLocal(a[1..], b); }
  }

  lemma SkipLocal(wireType: nat, a: seq<byte>, b: seq<byte>)
    requires SkipField(wireType, a).Ok?
    ensures SkipField(wireType, a + b) == Ok((), SkipField(wireType, a).rest + b)
  {
    if wireType == WT_VARINT { SkipVarintLocal(a, b); }
    else if wireType == WT_64BIT { TakeLocal(a, 8, b); }
    else if wireType == WT_STRING { SubstreamLocal(a, b); }
    else { TakeLocal(a, 4, b); }
  }

  lemma ScalarLocal(f: Field, d: Value, a: seq<byte>, b: seq<byte>)
    requires WellFormedField(f) && ValueFits(f, d) && !f.ltype.SUBMESSAGE? && DecodeScalar(f, d, a).Ok?
    ensures DecodeScalar(f, d, a + b) == Ok(DecodeScalar(f, d, a).value, DecodeScalar(f, d, a).rest + b)
  {
    match f.ltype
    case VARINT => GroupsLocal(a, MAX_VARINT64, b);
    case UVARINT => GroupsLocal(a, MAX_VARINT64, b);
    case SVARINT => GroupsLocal(a, MAX_VARINT64, b);
    case FIXED32 => TakeLocal(a, 4, b);
    case FIXED64 => TakeLocal(a, 8, b);
    case BYTES =>
      GroupsLocal(a, MAX_VARINT32, b);
      TakeLocal(DecodeVarint32(a).rest, DecodeVarint32(a).value, b);
    case STRING =>
      GroupsLocal(a, MAX_VARINT32, b);
      TakeLocal(DecodeVarint32(a).rest, DecodeVarint32(a).value, b);
  }

  lemma ValueLocal(f: Field, d: Value, a: seq<byte>, b: seq<byte>)
    requires WellFormedField(f) && ValueFits(f, d) && DecodeValue(f, d, a).Ok?
    ensures DecodeValue(f, d, a + b) == Ok(DecodeValue(f, d, a).value, DecodeValue(f, d, a).rest + b)
  {
    if f.ltype.SUBMESSAGE? { SubstreamLocal(a, b); } else { ScalarLocal(f, d, a, b); }
  }

  lemma SlotLocal(f: Field, d: Slot, wireType: nat, a: seq<byte>, b: seq<byte>)
    requires WellFormedField(f) && SlotFits(f, d) && DecodeSlot(f, d, wireType, a).Ok?
    ensures DecodeSlot(f, d, wireType, a + b)
            == Ok(DecodeSlot(f, d, wireType, a).value, DecodeSlot(f, d, wireType, a).rest + b)
  {
    if f.htype.REPEATED? {
      if wireType == WT_STRING && f.Packable() { SubstreamLocal(a, b); }
      else { ValueLocal(f, d.items[d.count], a, b); }
    } else {
      ValueLocal(f, d.v, a, b);
    }
  }

  // ---------------------------------------------------------------------------
  // Concatenation
  // ---------------------------------------------------------------------------

  /** A run over all of `a` that no stop tag and no cut-off tag ended. */
  ghost predicate Clean(r: Loop) {
    r.Done? && !r.early
  }

  /** Decoding `a + b` is decoding `a` and then, into the result, `b`. */
  lemma {:induction false} ConcatIsAction(fields: seq<Field>, d: seq<Slot>, seen: set<nat>, a: seq<byte>, b: seq<byte>)
    requires WellFormed(fields) && MsgFits(fields, d)
    requires Clean(DecodeLoop(fields, d, seen, a))
    ensures var r := DecodeLoop(fields, d, seen, a);
            r.rest == [] && DecodeLoop(fields, d, seen, a + b) == DecodeLoop(fields, r.slots, r.seen, b)
    decreases |a|
  {
    if a == [] {
      assert a + b == b;
    } else {
      TagProgress(a);
      TagLocal(a, b);
      var t := DecodeTag(a);
      var i := Find(fields, t.tag);
      if i == |fields| {
        SkipProgress(t.wireType, t.rest);
        SkipLocal(t.wireType, t.rest, b);
        ConcatIsAction(fields, d, seen, SkipField(t.wireType, t.rest).rest, b);
      } else {
        SlotLocal(fields[i], d[i], t.wireType, t.rest, b);
        var slot := DecodeSlot(fields[i], d[i], t.wireType, t.rest);
        ConcatIsAction(fields, d[i := slot.value], seen + Seen(fields[i], i), slot.rest, b);
      }
    }
  }

  /** A zero tag after `a` ends the message there; whatever follows stays in the stream. */
  lemma StopHidesTheRest(fields: seq<Field>, d: seq<Slot>, seen: set<nat>, a: seq<byte>, b: seq<byte>)
    requires WellFormed(fields) && MsgFits(fields, d) && Clean(DecodeLoop(fields, d, seen, a))
    ensures var r := DecodeLoop(fields, d, seen, a);
            DecodeLoop(fields, d, seen, a + ([0] + b)) == Done(r.slots, r.seen, b, true)
  {
    ConcatIsAction(fields, d, seen, a, [0] + b);
    assert ([0] + b)[1..] == b;
    assert ReadGroups([0] + b, MAX_VARINT32) == Got(0, b);
  }

  /** On tables without required fields, stated for pb_decode_noinit itself. */
  lemma NoInitConcat(fields: seq<Field>, d: seq<Slot>, a: seq<byte>, b: seq<byte>)
    requires WellFormed(fields) && MsgFits(fields, d)
    requires forall i | 0 <= i < |fields| :: !fields[i].htype.REQUIRED?
    requires Clean(DecodeLoop(fields, d, {}, a))
    ensures DecodeMessage(fields, d, a).Ok?
    ensures DecodeMessage(fields, d, a + b) == DecodeMessage(fields, DecodeMessage(fields, d, a).value, b)
  {
    ConcatIsAction(fields, d, {}, a, b);
    NothingSeen(fields, d, {}, a);
  }

  lemma {:induction false} NothingSeen(fields: seq<Field>, d: seq<Slot>, seen: set<nat>, s: seq<byte>)
    requires WellFormed(fields) && MsgFits(fields, d)
    requires forall i | 0 <= i < |fields| :: !fields[i].htype.REQUIRED?
    ensures var r := DecodeLoop(fields, d, seen, s); r.Done? ==> r.seen == seen
    decreases |s|
  {
    if s != [] && DecodeTag(s).Tag? {
      TagProgress(s);
      var t := DecodeTag(s);
      var i := Find(fields, t.tag);
      if i == |fields| {
        SkipProgress(t.wireType, t.rest);
        if SkipField(t.wireType, t.rest).Ok? { NothingSeen(fields, d, seen, SkipField(t.wireType, t.rest).rest); }
      } else {
        var slot := DecodeSlot(fields[i], d[i], t.wireType, t.rest);
        assert seen + Seen(fields[i], i) == seen;
        if slot.Ok? { NothingSeen(fields, d[i := slot.value], seen, slot.rest); }
      }
    }
  }

  // ---------------------------------------------------------------------------
  // Unknown fields
  // ---------------------------------------------------------------------------

  /**
    One whole field the table does not have, in any form the reader takes: a tag of any
    length, 0 included, and exactly the payload that its wire type calls for. (On the table
    of an empty message tag 0 is the terminator's, so it is not unknown there.)
   */
  ghost predicate UnknownField(fields: seq<Field>, u: seq<byte>) {
    match DecodeTag(u)
    case Tag(tag, wireType, rest) =>
      Find(fields, tag) == |fields| && (fields == [] ==> tag != 0) && SkipField(wireType, rest) == Ok((), [])
    case _ => false
  }

  function Flatten(us: seq<seq<byte>>): seq<byte> {
    if us == [] then [] else us[0] + Flatten(us[1..])
  }

  lemma UnknownTurn(fields: seq<Field>, d: seq<Slot>, seen: set<nat>, u: seq<byte>, s: seq<byte>)
    requires WellFormed(fields) && MsgFits(fields, d) && UnknownField(fields, u)
    ensures DecodeLoop(fields, d, seen, u + s) == DecodeLoop(fields, d, seen, s)
  {
    var t := DecodeTag(u);
    TagProgress(u);
    TagProgress(u + s);
    TagLocal(u, s);
    SkipLocal(t.wireType, t.rest, s);
    SkipProgress(t.wireType, t.rest + s);
    assert [] + s == s;
  }

  lemma {:induction false} UnknownRun(
    fields: seq<Field>, d: seq<Slot>, seen: set<nat>, us: seq<seq<byte>>, s: seq<byte>)
    requires WellFormed(fields) && MsgFits(fields, d) && forall k | 0 <= k < |us| :: UnknownField(fields, us[k])
    ensures DecodeLoop(fields, d, seen, Flatten(us) + s) == DecodeLoop(fields, d, seen, s)
    decreases |us|
  {
    if us == [] {
      assert Flatten(us) + s == s;
    } else {
      assert Flatten(us) + s == us[0] + (Flatten(us[1..]) + s);
      UnknownTurn(fields, d, seen, us[0], Flatten(us[1..]) + s);
      UnknownRun(fields, d, seen, us[1..], s);
    }
  }

  /** Any number of unknown fields between two fields leaves the outcome as it was. */
  lemma UnknownFieldsTransparent(
    fields: seq<Field>, d: seq<Slot>, a: seq<byte>, us: seq<seq<byte>>, b: seq<byte>)
    requires WellFormed(fields) && MsgFits(fields, d) && forall k | 0 <= k < |us| :: UnknownField(fields, us[k])
    requires Clean(DecodeLoop(fields, d, {}, a))
    ensures DecodeMessage(fields, d, a + (Flatten(us) + b)) == DecodeMessage(fields, d, a + b)
  {
    var r := DecodeLoop(fields, d, {}, a);
    ConcatIsAction(fields, d, {}, a, Flatten(us) + b);
    ConcatIsAction(fields, d, {}, a, b);
    UnknownRun(fields, r.slots, r.seen, us, b);
  }

  lemma {:induction false} SkipVarintExact(v: nat, rest: seq<byte>)
    ensures SkipVarint(EncodeVarint(v) + rest) == Ok((), rest)
    decreases v
  {
    if v <= 0x7F {
      assert (EncodeVarint(v) + rest)[1..] == rest;
    } else {
      assert (EncodeVarint(v) + rest)[1..] == EncodeVarint(v / 0x80) + rest;
      SkipVarintExact(v / 0x80, rest);
    }
  }

  /** Every entry the encoder writes is exactly the payload its wire type calls for. */
  lemma EntrySkippable(f: Field, v: Value)
    requires WellFormedField(f) && ValueFits(f, v)
    requires EncodeValue(f, v).Some? && |EncodeValue(f, v).value| < TWO32
    ensures SkipField(WireType(f.ltype), EncodeValue(f, v).value) == Ok((), [])
  {
    var e := EncodeValue(f, v).value;
    assert e + [] == e;
    match f.ltype
    case VARINT => SkipVarintExact(ToUnsigned64(v.n), []);
    case UVARINT => SkipVarintExact(v.n, []);
    case SVARINT => SkipVarintExact(ZigZag(v.n), []);
    case FIXED32 => assert e[4..] == [];
    case FIXED64 => assert e[8..] == [];
    case BYTES => SubstreamRoundTrip(v.data[..v.size], []);
    case STRING => SubstreamRoundTrip(CString(v.buf), []);
    case SUBMESSAGE => SubstreamRoundTrip(EncodeMsg(f.sub, v.slots).value, []);
  }

  // ---------------------------------------------------------------------------
  // Repeated scalars in pieces
  // ---------------------------------------------------------------------------

  /** A piece of a repeated scalar: a packed chunk of any length or a single tagged entry. */
  datatype Piece = Chunk(vs: seq<Value>) | Single(v: Value)

  function PieceValues(p: Piece): seq<Value> {
    match p
    case Chunk(vs) => vs
    case Single(v) => [v]
  }

  ghost predicate PieceFits(f: Field, p: Piece) {
    AllFit(f, PieceValues(p))
  }

  function Values(f: Field, ps: seq<Piece>): (vs: seq<Value>)
    requires forall k | 0 <= k < |ps| :: PieceFits(f, ps[k])
    ensures AllFit(f, vs)
  {
    if ps == [] then [] else assert PieceFits(f, ps[0]); PieceValues(ps[0]) + Values(f, ps[1..])
  }

  /** An array with `vs` after its live entries. */
  function Extended(f: Field, slot: Slot, vs: seq<Value>): (r: Slot)
    requires SlotFits(f, slot) && f.htype.REPEATED? && AllFit(f, vs) && slot.count + |vs| <= f.arraySize
    ensures SlotFits(f, r) && r.count == slot.count + |vs|
  {
    Many(slot.count + |vs|, slot.items[..slot.count] + vs + slot.items[slot.count + |vs|..])
  }

  function PieceBytes(f: Field, p: Piece): (r: seq<byte>)
    requires WellFormedField(f) && f.Packable() && PieceFits(f, p)
  {
    match p
    case Chunk(vs) => PackedEncodable(f, vs); EncodeTag(WT_STRING, f.tag) + Delimited(EncodePacked(f, vs).value)
    case Single(v) =>
      assert ValueFits(f, PieceValues(p)[0]);
      EncodeTag(WireType(f.ltype), f.tag) + EncodeScalar(f, v).value
  }

  function PiecesBytes(f: Field, ps: seq<Piece>): seq<byte>
    requires WellFormedField(f) && f.Packable() && forall k | 0 <= k < |ps| :: PieceFits(f, ps[k])
  {
    if ps == [] then [] else PieceBytes(f, ps[0]) + PiecesBytes(f, ps[1..])
  }

  /** Plain numbers are accepted exactly when there is room for them ... */
  lemma NumbersAccepted(f: Field, slot: Slot, vs: seq<Value>)
    requires WellFormedField(f) && f.Packable() && f.htype.REPEATED? && SlotFits(f, slot) && AllFit(f, vs)
    ensures AcceptsAll(f, slot.items, slot.count, vs) <==> slot.count + |vs| <= f.arraySize
  {
    hide AcceptsValue, ValueFits;
    if slot.count + |vs| <= f.arraySize {
      forall k | 0 <= k < |vs| ensures AcceptsValue(f, slot.items[slot.count + k], vs[k]) {
        PlainNumber(f, slot.items[slot.count + k], vs[k]);
      }
    }
  }

  /** ... and are just copied. */
  lemma {:induction false} AppendNumbers(f: Field, slot: Slot, vs: seq<Value>)
    requires WellFormedField(f) && f.Packable() && f.htype.REPEATED? && SlotFits(f, slot) && AllFit(f, vs)
    requires slot.count + |vs| <= f.arraySize
    ensures Append(f, slot.items, slot.count, vs) == Extended(f, slot, vs)
  {
    hide MergeValue, ValueFits;
    var items, count := slot.items, slot.count;
    var a, b := Append(f, items, count, vs).items, Extended(f, slot, vs).items;
    forall k | 0 <= k < |items| ensures a[k] == b[k] {
      if count <= k < count + |vs| {
        assert a[k] == MergeValue(f, items[count + (k - count)], vs[k - count]);
        PlainNumber(f, items[k], vs[k - count]);
      }
    }
    assert a == b;
  }

  /** What a repeated scalar becomes when `vs` are appended: nothing to do, an array with room, or an error. */
  function AfterValues(fields: seq<Field>, d: seq<Slot>, seen: set<nat>, i: nat, vs: seq<Value>, s: seq<byte>): Loop
    requires WellFormed(fields) && MsgFits(fields, d) && i < |fields| && SlotFits(fields[i], d[i])
    requires fields[i].htype.REPEATED? && AllFit(fields[i], vs)
  {
    if vs == [] then DecodeLoop(fields, d, seen, s)
    else if d[i].count + |vs| <= fields[i].arraySize then
      DecodeLoop(fields, d[i := Extended(fields[i], d[i], vs)], seen, s)
    else Fail
  }

  lemma ChunkExact(fields: seq<Field>, d: seq<Slot>, seen: set<nat>, i: nat, vs: seq<Value>, s: seq<byte>)
    requires WellFormed(fields) && MsgFits(fields, d) && i < |fields| && SlotFits(fields[i], d[i])
    requires fields[i].htype.REPEATED? && fields[i].Packable() && AllFit(fields[i], vs)
    requires |PieceBytes(fields[i], Chunk(vs))| < TWO32
    ensures DecodeLoop(fields, d, seen, PieceBytes(fields[i], Chunk(vs)) + s) == AfterValues(fields, d, seen, i, vs, s)
  {
    var f := fields[i];
    assert WellFormedField(f) && |d| == |fields|;
    hide DecodeLoop, DecodeSlot, DecodePacked, EncodePacked, Append, AcceptsAll, Extended, Delimited, EncodeTag;
    hide PieceBytes, WellFormed, MsgFits, SlotFits, Find;
    ChunkBytes(f, vs, s);
    KnownTurn(fields, d, seen, i, WT_STRING, Delimited(EncodePacked(f, vs).value) + s);
    ChunkSlot(f, d[i], vs, s);
    assert seen + Seen(f, i) == seen;
    if vs == [] { assert d[i := d[i]] == d; }
  }

  lemma ChunkBytes(f: Field, vs: seq<Value>, s: seq<byte>)
    requires WellFormedField(f) && f.Packable() && PieceFits(f, Chunk(vs))
    ensures EncodePacked(f, vs).Some? && |EncodePacked(f, vs).value| <= |PieceBytes(f, Chunk(vs))|
    ensures PieceBytes(f, Chunk(vs)) + s
            == EncodeTag(WT_STRING, f.tag) + (Delimited(EncodePacked(f, vs).value) + s)
  {
    hide EncodePacked, EncodeTag;
    PackedEncodable(f, vs);
  }

  /** One packed chunk, as a step of the field decoder. */
  lemma ChunkSlot(f: Field, slot: Slot, vs: seq<Value>, s: seq<byte>)
    requires WellFormedField(f) && SlotFits(f, slot) && f.htype.REPEATED? && f.Packable() && AllFit(f, vs)
    requires EncodePacked(f, vs).Some? && |EncodePacked(f, vs).value| < TWO32
    ensures DecodeSlot(f, slot, WT_STRING, Delimited(EncodePacked(f, vs).value) + s)
            == if vs == [] then Ok(slot, s)
               else if slot.count + |vs| <= f.arraySize then Ok(Extended(f, slot, vs), s) else Err
  {
    hide DecodePacked, EncodePacked, Append, AcceptsAll, Substream, Extended;
    SubstreamRoundTrip(EncodePacked(f, vs).value, s);
    PackedExact(f, slot.items, slot.count, vs);
    NumbersAccepted(f, slot, vs);
    if slot.count + |vs| <= f.arraySize { AppendNumbers(f, slot, vs); }
  }

  /** One entry under the tag of its own wire type, as a step of the field decoder. */
  lemma SingleSlot(f: Field, slot: Slot, v: Value, s: seq<byte>)
    requires WellFormedField(f) && SlotFits(f, slot) && f.htype.REPEATED? && f.Packable()
    requires ValueFits(f, v) && AllFit(f, [v]) && EncodeScalar(f, v).Some? && |EncodeScalar(f, v).value| < TWO32
    ensures DecodeSlot(f, slot, WireType(f.ltype), EncodeScalar(f, v).value + s)
            == if slot.count < f.arraySize then Ok(Extended(f, slot, [v]), s) else Err
  {
    hide DecodeScalar, EncodeScalar, MergeValue, AcceptsValue, ValueFits;
    if slot.count < f.arraySize {
      ScalarExact(f, slot.items[slot.count], v, s);
      PlainNumber(f, slot.items[slot.count], v);
      assert Extended(f, slot, [v]).items == slot.items[slot.count := v];
    }
  }

  lemma SingleEntryExact(fields: seq<Field>, d: seq<Slot>, seen: set<nat>, i: nat, v: Value, s: seq<byte>)
    requires WellFormed(fields) && MsgFits(fields, d) && i < |fields| && SlotFits(fields[i], d[i])
    requires fields[i].htype.REPEATED? && fields[i].Packable() && PieceFits(fields[i], Single(v))
    requires AllFit(fields[i], [v])
    requires |PieceBytes(fields[i], Single(v))| < TWO32
    ensures DecodeLoop(fields, d, seen, PieceBytes(fields[i], Single(v)) + s) == AfterValues(fields, d, seen, i, [v], s)
  {
    hide DecodeLoop, DecodeSlot, Extended, EncodeScalar;
    var f := fields[i];
    assert v == [v][0];
    WireTypeSmall(f.ltype);
    SingleEncodable(f, v);
    var e := EncodeScalar(f, v).value;
    KnownTurn(fields, d, seen, i, WireType(f.ltype), e + s);
    assert PieceBytes(f, Single(v)) + s == EncodeTag(WireType(f.ltype), f.tag) + (e + s);
    SingleSlot(f, d[i], v, s);
    assert seen + Seen(f, i) == seen;
  }

  lemma SingleEncodable(f: Field, v: Value)
    requires WellFormedField(f) && f.Packable() && ValueFits(f, v)
    ensures EncodeScalar(f, v).Some?
  {
  }

  lemma {:induction false} ExtendedTwice(f: Field, slot: Slot, a: seq<Value>, b: seq<Value>)
    requires SlotFits(f, slot) && f.htype.REPEATED? && AllFit(f, a) && AllFit(f, b) && AllFit(f, a + b)
    requires slot.count + |a| + |b| <= f.arraySize
    ensures Extended(f, Extended(f, slot, a), b) == Extended(f, slot, a + b)
  {
    hide ValueFits;
    var once := Extended(f, slot, a).items;
    var twice, whole := Extended(f, Extended(f, slot, a), b).items, Extended(f, slot, a + b).items;
    var m, n := slot.count + |a|, slot.count + |a| + |b|;
    forall k | 0 <= k < |slot.items| ensures twice[k] == whole[k] {
      assert once[k] == if k < slot.count then slot.items[k] else if k < m then a[k - slot.count] else slot.items[k];
      assert twice[k] == if m <= k < n then b[k - m] else once[k];
    }
    assert twice == whole;
  }

  /** Appending in two goes is appending at once, room and error included. */
  lemma AfterBoth(
    fields: seq<Field>, d: seq<Slot>, seen: set<nat>, i: nat, a: seq<Value>, b: seq<Value>, s: seq<byte>)
    requires WellFormed(fields) && MsgFits(fields, d) && i < |fields| && SlotFits(fields[i], d[i])
    requires fields[i].htype.REPEATED? && AllFit(fields[i], a) && AllFit(fields[i], b) && AllFit(fields[i], a + b)
    ensures AfterValues(fields, d, seen, i, a + b, s)
            == if a == [] then AfterValues(fields, d, seen, i, b, s)
               else if d[i].count + |a| > fields[i].arraySize then Fail
               else AfterValues(fields, d[i := Extended(fields[i], d[i], a)], seen, i, b, s)
  {
    hide DecodeLoop, Extended;
    var f := fields[i];
    if a == [] {
      assert a + b == b;
    } else if b == [] {
      assert a + b == a;
    } else if d[i].count + |a| + |b| <= f.arraySize {
      ExtendedTwice(f, d[i], a, b);
      var d' := d[i := Extended(f, d[i], a)];
      assert d'[i := Extended(f, d'[i], b)] == d[i := Extended(f, d[i], a + b)];
    }
  }

  /**
    However a repeated scalar is cut into pieces, the outcome depends on the values alone:
    they are appended if they all fit, and it is an error if they do not.
   */
  lemma {:induction false} AnySplitSameArray(
    fields: seq<Field>, d: seq<Slot>, seen: set<nat>, i: nat, ps: seq<Piece>, s: seq<byte>)
    requires WellFormed(fields) && MsgFits(fields, d) && i < |fields| && SlotFits(fields[i], d[i])
    requires fields[i].htype.REPEATED? && fields[i].Packable()
    requires forall k | 0 <= k < |ps| :: PieceFits(fields[i], ps[k])
    requires |PiecesBytes(fields[i], ps)| < TWO32
    ensures DecodeLoop(fields, d, seen, PiecesBytes(fields[i], ps) + s)
            == AfterValues(fields, d, seen, i, Values(fields[i], ps), s)
    decreases |ps|
  {
    hide DecodeLoop, DecodeSlot, PieceBytes, Extended;
    var f := fields[i];
    if ps == [] {
      assert PiecesBytes(f, ps) + s == s;
    } else {
      assert PieceFits(f, ps[0]);
      var head, tail := PieceValues(ps[0]), Values(f, ps[1..]);
      var more := PiecesBytes(f, ps[1..]);
      assert PiecesBytes(f, ps) + s == PieceBytes(f, ps[0]) + (more + s);
      match ps[0] {
        case Chunk(vs) => ChunkExact(fields, d, seen, i, vs, more + s);
        case Single(v) => SingleEntryExact(fields, d, seen, i, v, more + s);
      }
      AfterBoth(fields, d, seen, i, head, tail, s);
      if head == [] {
        AnySplitSameArray(fields, d, seen, i, ps[1..], s);
      } else if d[i].count + |head| <= f.arraySize {
        AnySplitSameArray(fields, d[i := Extended(f, d[i], head)], seen, i, ps[1..], s);
      }
    }
  }
}
