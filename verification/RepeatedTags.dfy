/**
  The decoder on tables in which a tag may occur more than once.

  The iterator goes on searching from the field found last, so there the outcome depends on
  where it stands. The loop still ends on every byte string; with distinct tags, at every
  depth, it is the loop of Decoding from every position.
 */
module RepeatedTags {
  import opened Wire
  import opened Schema
  import opened Encoding
  import opened Decoding
  import opened Concatenation
  import opened FieldIteration

  /** Sizes and tags as in a well-formed table, but nothing is said about repetitions. */
  ghost predicate Storable(fields: seq<Field>)
    decreases fields, 2
  {
    forall i | 0 <= i < |fields| :: StorableField(fields[i])
  }

  ghost predicate StorableField(f: Field)
    decreases f, 1
  {
    WellFormedField(f.(sub := [])) && (f.ltype.SUBMESSAGE? ==> Storable(f.sub))
  }

  lemma {:induction false} WellFormedIsStorable(fields: seq<Field>)
    requires WellFormed(fields)
    ensures Storable(fields)
    decreases fields, 2
  {
    forall i | 0 <= i < |fields| ensures StorableField(fields[i]) {
      var f := fields[i];
      assert WellFormedField(f);
      if f.ltype.SUBMESSAGE? { WellFormedIsStorable(f.sub); }
    }
  }

  // ---------------------------------------------------------------------------
  // The decoder with the position of its iterator
  // ---------------------------------------------------------------------------

  /** Where the loop ends, and on which field the iterator then stands. */
  datatype Walk = Walked(slots: seq<Slot>, seen: set<nat>, rest: seq<byte>, early: bool, pos: nat) | Broken

  function WalkValue(f: Field, prev: Value, s: seq<byte>): (r: Dec<Value>)
    requires StorableField(f) && ValueFits(f, prev)
    ensures r.Ok? ==> ValueFits(f, r.value) && |r.rest| < |s|
    decreases |s|, 0
  {
    if f.ltype.SUBMESSAGE? then
      SubstreamProgress(s);
      match Substream(s)
      case Err => Err
      case Ok(inner, rest) =>
        match WalkMessage(f.sub, SubmessageBase(f, prev), inner)
        case Err => Err
        case Ok(slots, _) => Ok(Msg(slots), rest)
    else DecodeScalar(f, prev, s)
  }

  function WalkSlot(f: Field, slot: Slot, wireType: nat, s: seq<byte>): (r: Dec<Slot>)
    requires StorableField(f) && SlotFits(f, slot)
    ensures r.Ok? ==> SlotFits(f, r.value) && |r.rest| < |s|
    decreases |s|, 1
  {
    if f.htype.REPEATED? && wireType == WT_STRING && f.Packable() then
      DecodeSlot(f, slot, wireType, s)
    else if f.htype.REPEATED? then
      if slot.count >= f.arraySize then Err
      else
        match WalkValue(f, slot.items[slot.count], s)
        case Err => Err
        case Ok(v, rest) => Ok(Many(slot.count + 1, slot.items[slot.count := v]), rest)
    else
      match WalkValue(f, slot.v, s)
      case Err => Err
      case Ok(v, rest) => Ok(if f.HasFlag() then Flagged(true, v) else One(v), rest)
  }

  /** The field loop of pb_decode_noinit with the iterator at `pos`; an unknown tag leaves it there. */
  function WalkLoop(fields: seq<Field>, pos: nat, slots: seq<Slot>, seen: set<nat>, s: seq<byte>): (r: Walk)
    requires Storable(fields) && MsgFits(fields, slots) && pos <= |fields|
    ensures r.Walked? ==> MsgFits(fields, r.slots) && r.pos <= |fields| && |r.rest| <= |s|
    decreases |s|, 2
  {
    if s == [] then Walked(slots, seen, [], false, pos)
    else
      TagProgress(s);
      match DecodeTag(s)
      case Stop(rest) => Walked(slots, seen, rest, true, pos)
      case CutOff => Walked(slots, seen, [], true, pos)
      case Bad => Broken
      case Tag(tag, wireType, rest) =>
        var i := CircularFind(fields, pos, tag);
        if fields == [] && tag == 0 then Broken
        else if i == |fields| then
          SkipProgress(wireType, rest);
          match SkipField(wireType, rest)
          case Err => Broken
          case Ok(_, rest') => WalkLoop(fields, pos, slots, seen, rest')
        else
          match WalkSlot(fields[i], slots[i], wireType, rest)
          case Err => Broken
          case Ok(slot, rest') => WalkLoop(fields, i, slots[i := slot], seen + Seen(fields[i], i), rest')
  }

  function WalkMessage(fields: seq<Field>, slots: seq<Slot>, s: seq<byte>): (r: Dec<seq<Slot>>)
    requires Storable(fields) && MsgFits(fields, slots)
    ensures r.Ok? ==> MsgFits(fields, r.value)
    decreases |s|, 3
  {
    match WalkLoop(fields, 0, slots, {}, s)
    case Broken => Err
    case Walked(slots', seen, rest, _, _) => if AllRequired(fields, seen) then Ok(slots', rest) else Err
  }

  // ---------------------------------------------------------------------------
  // Without repetitions it is the decoder of Decoding
  // ---------------------------------------------------------------------------

  function Forget(r: Walk): Loop {
    match r
    case Walked(slots, seen, rest, early, _) => Done(slots, seen, rest, early)
    case Broken => Fail
  }

  lemma {:induction false} ValueWithoutRepeats(f: Field, prev: Value, s: seq<byte>)
    requires StorableField(f) && WellFormedField(f) && ValueFits(f, prev)
    ensures WalkValue(f, prev, s) == DecodeValue(f, prev, s)
    decreases |s|, 0
  {
    hide DecodeScalar, Substream;
    if f.ltype.SUBMESSAGE? && Substream(s).Ok? {
      SubstreamProgress(s);
      LoopWithoutRepeats(f.sub, 0, SubmessageBase(f, prev), {}, Substream(s).value);
    }
  }

  lemma {:induction false} SlotWithoutRepeats(f: Field, slot: Slot, wireType: nat, s: seq<byte>)
    requires StorableField(f) && WellFormedField(f) && SlotFits(f, slot)
    ensures WalkSlot(f, slot, wireType, s) == DecodeSlot(f, slot, wireType, s)
    decreases |s|, 1
  {
    hide DecodeValue, WalkValue, DecodePacked, Substream, StorableField;
    if f.htype.REPEATED? {
      if slot.count < f.arraySize { ValueWithoutRepeats(f, slot.items[slot.count], s); }
    } else {
      ValueWithoutRepeats(f, slot.v, s);
    }
  }

  /** On a well-formed table it does not matter where the iterator stands. */
  lemma {:induction false} LoopWithoutRepeats(
    fields: seq<Field>, pos: nat, slots: seq<Slot>, seen: set<nat>, s: seq<byte>)
    requires WellFormed(fields) && Storable(fields) && MsgFits(fields, slots) && pos <= |fields|
    ensures Forget(WalkLoop(fields, pos, slots, seen, s)) == DecodeLoop(fields, slots, seen, s)
    decreases |s|, 2
  {
    hide DecodeSlot, WalkSlot, SkipField, DecodeTag, CircularFind, WellFormedField, StorableField;
    if s != [] && DecodeTag(s).Tag? {
      TagProgress(s);
      var t := DecodeTag(s);
      CircleRefinesScan(fields, t.tag);
      var i := Find(fields, t.tag);
      assert CircularFind(fields, pos, t.tag) == i;
      if i == |fields| {
        SkipProgress(t.wireType, t.rest);
        if SkipField(t.wireType, t.rest).Ok? {
          LoopWithoutRepeats(fields, pos, slots, seen, SkipField(t.wireType, t.rest).rest);
        }
      } else {
        SlotWithoutRepeats(fields[i], slots[i], t.wireType, t.rest);
        var r := DecodeSlot(fields[i], slots[i], t.wireType, t.rest);
        if r.Ok? { LoopWithoutRepeats(fields, i, slots[i := r.value], seen + Seen(fields[i], i), r.rest); }
      }
    }
  }

  // ---------------------------------------------------------------------------
  // Concatenation, with and without the position
  // ---------------------------------------------------------------------------

  lemma WalkValueLocal(f: Field, d: Value, a: seq<byte>, b: seq<byte>)
    requires StorableField(f) && ValueFits(f, d) && WalkValue(f, d, a).Ok?
    ensures WalkValue(f, d, a + b) == Ok(WalkValue(f, d, a).value, WalkValue(f, d, a).rest + b)
  {
    hide DecodeScalar, Substream;
    if f.ltype.SUBMESSAGE? { SubstreamLocal(a, b); } else { ScalarLocal(f, d, a, b); }
  }

  lemma WalkSlotLocal(f: Field, d: Slot, wireType: nat, a: seq<byte>, b: seq<byte>)
    requires StorableField(f) && SlotFits(f, d) && WalkSlot(f, d, wireType, a).Ok?
    ensures WalkSlot(f, d, wireType, a + b)
            == Ok(WalkSlot(f, d, wireType, a).value, WalkSlot(f, d, wireType, a).rest + b)
  {
    hide WalkValue, DecodeSlot;
    if f.htype.REPEATED? && wireType == WT_STRING && f.Packable() { SlotLocal(f, d, wireType, a, b); }
    else if f.htype.REPEATED? { WalkValueLocal(f, d.items[d.count], a, b); }
    else { WalkValueLocal(f, d.v, a, b); }
  }

  /** On every table: decoding `a + b` is decoding `a` and then `b`, if the iterator is left where it was. */
  lemma {:induction false} WalkIsAction(
    fields: seq<Field>, pos: nat, d: seq<Slot>, seen: set<nat>, a: seq<byte>, b: seq<byte>)
    requires Storable(fields) && MsgFits(fields, d) && pos <= |fields|
    requires WalkLoop(fields, pos, d, seen, a).Walked? && !WalkLoop(fields, pos, d, seen, a).early
    ensures var r := WalkLoop(fields, pos, d, seen, a);
            WalkLoop(fields, pos, d, seen, a + b) == WalkLoop(fields, r.pos, r.slots, r.seen, b)
    decreases |a|
  {
    hide WalkSlot, SkipField, DecodeTag, CircularFind, StorableField;
    if a == [] {
      assert a + b == b;
    } else {
      TagProgress(a);
      TagProgress(a + b);
      TagLocal(a, b);
      var t := DecodeTag(a);
      var i := CircularFind(fields, pos, t.tag);
      if i == |fields| {
        SkipProgress(t.wireType, t.rest);
        SkipProgress(t.wireType, t.rest + b);
        SkipLocal(t.wireType, t.rest, b);
        WalkIsAction(fields, pos, d, seen, SkipField(t.wireType, t.rest).rest, b);
      } else {
        WalkSlotLocal(fields[i], d[i], t.wireType, t.rest, b);
        var slot := WalkSlot(fields[i], d[i], t.wireType, t.rest);
        WalkIsAction(fields, i, d[i := slot.value], seen + Seen(fields[i], i), slot.rest, b);
      }
    }
  }

  function Byte(tag: nat): Field { Field(tag, OPTIONAL, UVARINT, 0, 0, 1, 0, []) }

  function Twice(): seq<Field> { [Byte(1), Byte(2), Byte(1)] }

  lemma TwiceIsStorable()
    ensures Storable(Twice())
  {
    forall i | 0 <= i < 3 ensures StorableField(Twice()[i]) {
    }
  }

  /** Field 1 is found in front of field 2 at first, and behind it after that. */
  lemma Circles()
    ensures CircularFind(Twice(), 0, 1) == 0 && CircularFind(Twice(), 0, 2) == 1 && CircularFind(Twice(), 1, 1) == 2
  {
    assert Twice()[1..] == [Byte(2), Byte(1)] && [Byte(2), Byte(1)][1..] == [Byte(1)];
    assert Twice()[0..] == Twice();
  }

  lemma ByteSlot(tag: nat, slot: Slot, v: byte, rest: seq<byte>)
    requires StorableField(Byte(tag)) && SlotFits(Byte(tag), slot) && v < 0x80
    ensures WalkSlot(Byte(tag), slot, WT_VARINT, [v] + rest) == Ok(One(Num(v)), rest)
  {
    var s := [v] + rest;
    assert s[0] == v && s[1..] == rest;
  }

  /** One turn of the loop on a field of one byte. */
  lemma ByteTurn(fields: seq<Field>, pos: nat, d: seq<Slot>, i: nat, tag: nat, v: byte, rest: seq<byte>)
    requires Storable(fields) && MsgFits(fields, d) && pos <= |fields| && 1 <= tag <= 2 && v < 0x80
    requires CircularFind(fields, pos, tag) == i < |fields| && fields[i] == Byte(tag)
    ensures MsgFits(fields, d[i := One(Num(v))])
    ensures WalkLoop(fields, pos, d, {}, [8 * tag, v] + rest) == WalkLoop(fields, i, d[i := One(Num(v))], {}, rest)
  {
    var s := [8 * tag, v] + rest;
    assert SlotFits(fields[i], d[i]) && StorableField(fields[i]);
    ByteTag(tag, v, rest);
    ByteSlot(tag, d[i], v, rest);
    assert {} + Seen(fields[i], i) == {};
    hide WalkSlot, DecodeTag, CircularFind, StorableField;
    TagProgress(s);
  }

  lemma ByteTag(tag: nat, v: byte, rest: seq<byte>)
    requires 1 <= tag <= 2
    ensures DecodeTag([8 * tag, v] + rest) == Tag(tag, WT_VARINT, [v] + rest)
  {
    assert ([8 * tag, v] + rest)[1..] == [v] + rest;
  }

  lemma OneField(fields: seq<Field>, d: seq<Slot>, i: nat, tag: nat, v: byte)
    requires Storable(fields) && MsgFits(fields, d) && 1 <= tag <= 2 && v < 0x80 && AllRequired(fields, {})
    requires CircularFind(fields, 0, tag) == i < |fields| && fields[i] == Byte(tag)
    ensures MsgFits(fields, d[i := One(Num(v))])
    ensures WalkMessage(fields, d, [8 * tag, v]) == Ok(d[i := One(Num(v))], [])
  {
    hide CircularFind, MsgFits, Storable, Byte, AllRequired, WalkSlot, DecodeTag;
    assert [8 * tag, v] + [] == [8 * tag, v];
    ByteTurn(fields, 0, d, i, tag, v, []);
  }

  lemma TwoFields(fields: seq<Field>, d: seq<Slot>, i: nat, tag: nat, v: byte, j: nat, next: nat, w: byte)
    requires Storable(fields) && MsgFits(fields, d) && 1 <= tag <= 2 && v < 0x80 && AllRequired(fields, {})
    requires 1 <= next <= 2 && w < 0x80
    requires CircularFind(fields, 0, tag) == i < |fields| && fields[i] == Byte(tag)
    requires CircularFind(fields, i, next) == j < |fields| && fields[j] == Byte(next)
    ensures WalkMessage(fields, d, [8 * tag, v] + [8 * next, w]) == Ok(d[i := One(Num(v))][j := One(Num(w))], [])
  {
    assert |d| == |fields|;
    hide CircularFind, MsgFits, Storable, Byte, AllRequired, WalkSlot, DecodeTag;
    assert [8 * next, w] + [] == [8 * next, w];
    ByteTurn(fields, 0, d, i, tag, v, [8 * next, w]);
    ByteTurn(fields, i, d[i := One(Num(v))], j, next, w, []);
  }

  lemma TwiceFields()
    ensures AllRequired(Twice(), {})
    ensures |Twice()| == 3 && Twice()[0] == Byte(1) && Twice()[1] == Byte(2) && Twice()[2] == Byte(1)
  {
  }

  /**
    Two decodes in a row start with a fresh iterator each, so on a table with a repeated tag
    they differ from one decode of the whole: field 1 then goes to another member.
   */
  lemma RestartsMatter(d: seq<Slot>, v: byte, w: byte)
    requires MsgFits(Twice(), d) && v < 0x80 && w < 0x80
    ensures Storable(Twice()) && MsgFits(Twice(), d[1 := One(Num(v))])
    ensures WalkMessage(Twice(), d, [0x10, v] + [0x08, w]) == Ok(d[1 := One(Num(v))][2 := One(Num(w))], [])
    ensures WalkMessage(Twice(), d, [0x10, v]) == Ok(d[1 := One(Num(v))], [])
    ensures WalkMessage(Twice(), d[1 := One(Num(v))], [0x08, w]) == Ok(d[1 := One(Num(v))][0 := One(Num(w))], [])
  {
    assert |d| == 3 && |Twice()| == 3;
    hide *;
    TwiceIsStorable();
    Circles();
    TwiceFields();
    TwoFields(Twice(), d, 1, 2, v, 2, 1, w);
    OneField(Twice(), d, 1, 2, v);
    OneField(Twice(), d[1 := One(Num(v))], 0, 1, w);
  }
}
