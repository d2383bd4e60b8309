/**
  What the decoder makes of a message that was cut short.

  A cut between two fields cannot be noticed, and neither can a cut inside a tag: a tag
  that fails with nothing left in the stream counts as the end of the message. A cut inside
  a payload always is an error.
 */
module Truncation {
  import opened Wire
  import opened Schema
  import opened Encoding
  import opened Decoding
  import opened Merging
  import opened Concatenation
  import opened RoundTrip
  import opened Aftermath

  // ---------------------------------------------------------------------------
  // Cut-off tags
  // ---------------------------------------------------------------------------

  /** Every byte announces another one. */
  predicate AllContinue(t: seq<byte>) {
    forall k | 0 <= k < |t| :: t[k] >= 0x80
  }

  lemma {:induction false} GroupsRunOut(s: seq<byte>, left: nat)
    ensures ReadGroups(s, left) == Failed([]) <==> |s| <= left && AllContinue(s)
    decreases |s|
  {
    if left != 0 && s != [] {
      GroupsRunOut(s[1..], left - 1);
      assert forall k | 0 < k < |s| :: s[k] == s[1..][k - 1];
      assert AllContinue(s) <==> s[0] >= 0x80 && AllContinue(s[1..]);
    }
  }

  /** The tails that pass for the end of a message: up to five bytes that all announce another. */
  lemma CutOffExact(t: seq<byte>)
    ensures DecodeTag(t).CutOff? <==> |t| <= MAX_VARINT32 && AllContinue(t)
  {
    GroupsRunOut(t, MAX_VARINT32);
  }

  /** After `a` such a tail, and no other, is a cut-off tag; it is swallowed and the struct is that of `a`. */
  lemma CutOffEndsTheMessage(fields: seq<Field>, d: seq<Slot>, seen: set<nat>, a: seq<byte>, t: seq<byte>)
    requires WellFormed(fields) && MsgFits(fields, d) && Clean(DecodeLoop(fields, d, seen, a)) && t != []
    ensures DecodeTag(t).CutOff? <==> |t| <= MAX_VARINT32 && AllContinue(t)
    ensures var r := DecodeLoop(fields, d, seen, a);
            |t| <= MAX_VARINT32 && AllContinue(t) ==>
              DecodeLoop(fields, d, seen, a + t) == Done(r.slots, r.seen, [], true)
  {
    CutOffExact(t);
    ConcatIsAction(fields, d, seen, a, t);
  }

  // ---------------------------------------------------------------------------
  // Where a message can be cut
  // ---------------------------------------------------------------------------

  /** Position `n` lies between two fields of `s` or inside a tag, by tags and wire types alone. */
  predicate CutsCleanly(s: seq<byte>, n: nat)
    decreases |s|
  {
    n == 0 ||
    match DecodeTag(s)
    case Tag(_, wireType, rest) => (
      TagProgress(s);
      SkipProgress(wireType, rest);
      n < |s| - |rest| ||
      match SkipField(wireType, rest)
      case Ok(_, rest') => |s| - |rest'| <= n && CutsCleanly(rest', n - (|s| - |rest'|))
      case Err => false)
    case _ => false
  }

  /** `s` is a run of whole fields. */
  predicate Whole(s: seq<byte>)
    decreases |s|
  {
    s == [] ||
    match DecodeTag(s)
    case Tag(_, wireType, rest) => (
      TagProgress(s);
      SkipProgress(wireType, rest);
      match SkipField(wireType, rest)
      case Ok(_, rest') => Whole(rest')
      case Err => false)
    case _ => false
  }

  /** Cutting a run of whole fields followed by more cuts the one or the other. */
  lemma {:induction false} CutsConcat(s: seq<byte>, more: seq<byte>, n: nat)
    requires Whole(s)
    ensures CutsCleanly(s + more, n) <==> if n < |s| then CutsCleanly(s, n) else CutsCleanly(more, n - |s|)
    decreases |s|
  {
    hide DecodeTag, SkipField;
    if s == [] {
      assert s + more == more;
    } else {
      TagLocal(s, more);
      TagProgress(s);
      var t := DecodeTag(s);
      SkipLocal(t.wireType, t.rest, more);
      SkipProgress(t.wireType, t.rest);
      var rest := SkipField(t.wireType, t.rest).rest;
      var used := |s| - |rest|;
      if used <= n { CutsConcat(rest, more, n - used); }
    }
  }

  lemma {:induction false} WholeConcat(a: seq<byte>, b: seq<byte>)
    requires Whole(a) && Whole(b)
    ensures Whole(a + b)
    decreases |a|
  {
    if a == [] {
      assert a + b == b;
    } else {
      TagLocal(a, b);
      TagProgress(a);
      var t := DecodeTag(a);
      SkipLocal(t.wireType, t.rest, b);
      SkipProgress(t.wireType, t.rest);
      WholeConcat(SkipField(t.wireType, t.rest).rest, b);
    }
  }

  /** One written field: whole, and cut cleanly only inside its tag. */
  lemma EntryWhole(wireType: nat, tag: nat, p: seq<byte>)
    requires 0 < tag < 0x2000_0000 && wireType < 8 && SkipField(wireType, p) == Ok((), [])
    ensures Whole(EncodeTag(wireType, tag) + p)
    ensures forall n | 0 <= n < |EncodeTag(wireType, tag) + p| ::
              CutsCleanly(EncodeTag(wireType, tag) + p, n) <==> n < |EncodeTag(wireType, tag)|
  {
    TagRoundTrip(wireType, tag, p);
  }

  lemma TaggedWhole(f: Field, v: Value)
    requires WellFormedField(f) && ValueFits(f, v)
    requires EncodeTagged(f, v).Some? && |EncodeTagged(f, v).value| < TWO32
    ensures Whole(EncodeTagged(f, v).value)
  {
    hide EncodeValue, Whole, CutsCleanly;
    EntrySkippable(f, v);
    WireTypeSmall(f.ltype);
    EntryWhole(WireType(f.ltype), f.tag, EncodeValue(f, v).value);
  }

  lemma {:induction false} EachWhole(f: Field, vs: seq<Value>)
    requires WellFormedField(f) && AllFit(f, vs)
    requires EncodeEach(f, vs).Some? && |EncodeEach(f, vs).value| < TWO32
    ensures Whole(EncodeEach(f, vs).value)
    decreases |vs|
  {
    hide EncodeTagged, Whole;
    if vs == [] {
      EmptyWhole();
    } else {
      TaggedWhole(f, vs[0]);
      EachWhole(f, vs[1..]);
      WholeConcat(EncodeTagged(f, vs[0]).value, EncodeEach(f, vs[1..]).value);
    }
  }

  lemma EmptyWhole()
    ensures Whole([])
  {
  }

  /** What the encoder writes for a field is a run of whole fields. */
  lemma SlotWhole(f: Field, slot: Slot)
    requires WellFormedField(f) && SlotFits(f, slot)
    requires EncodeSlot(f, slot).Some? && |EncodeSlot(f, slot).value| < TWO32
    ensures Whole(EncodeSlot(f, slot).value)
  {
    hide EncodeTagged, EncodePacked, EncodeEach, Whole, CutsCleanly;
    if EncodeSlot(f, slot).value == [] {
      EmptyWhole();
    } else if slot.Many? {
      var vs := slot.items[..slot.count];
      if f.Packable() {
        PackedSkippable(EncodePacked(f, vs).value);
        EntryWhole(WT_STRING, f.tag, Delimited(EncodePacked(f, vs).value));
      } else {
        EachWhole(f, vs);
      }
    } else {
      TaggedWhole(f, slot.v);
    }
  }

  lemma PackedSkippable(payload: seq<byte>)
    requires |payload| < TWO32
    ensures SkipField(WT_STRING, Delimited(payload)) == Ok((), [])
  {
    SubstreamRoundTrip(payload, []);
    assert Delimited(payload) + [] == Delimited(payload);
  }

  lemma TakeConcat(a: seq<byte>, b: seq<byte>, n: nat)
    requires n <= |a| + |b|
    ensures (a + b)[..n] == if n < |a| then a[..n] else a + b[..n - |a|]
  {
  }

  // ---------------------------------------------------------------------------
  // Decoding up to the cut
  // ---------------------------------------------------------------------------

  lemma {:induction false} GroupsContinue(v: nat)
    ensures |EncodeVarint(v)| > 0 && AllContinue(EncodeVarint(v)[..|EncodeVarint(v)| - 1])
    decreases v
  {
    if v > 0x7F {
      GroupsContinue(v / 0x80);
      var e, tail := EncodeVarint(v), EncodeVarint(v / 0x80);
      assert forall k | 0 < k < |e| - 1 :: e[k] == tail[..|tail| - 1][k - 1];
    }
  }

  /** A tag cut short is a cut-off tag. */
  lemma TagCut(wireType: nat, tag: nat, n: nat)
    requires 0 < tag < 0x2000_0000 && wireType < 8 && n < |EncodeTag(wireType, tag)|
    ensures DecodeTag(EncodeTag(wireType, tag)[..n]).CutOff?
  {
    var t := EncodeTag(wireType, tag);
    GroupsContinue(8 * tag + wireType);
    Varint64Size(8 * tag + wireType);
    assert forall k | 0 <= k < n :: t[..n][k] == t[..|t| - 1][k];
    CutOffExact(t[..n]);
  }

  /** A payload cut short is an error: the decoder of the field needs every byte of it. */
  lemma PayloadCut(f: Field, slot: Slot, wireType: nat, p: seq<byte>, n: nat)
    requires WellFormedField(f) && SlotFits(f, slot) && n < |p|
    requires DecodeSlot(f, slot, wireType, p).Ok? && DecodeSlot(f, slot, wireType, p).rest == []
    ensures DecodeSlot(f, slot, wireType, p[..n]).Err?
  {
    hide DecodeSlot;
    assert p == p[..n] + p[n..];
    if DecodeSlot(f, slot, wireType, p[..n]).Ok? {
      SlotLocal(f, slot, wireType, p[..n], p[n..]);
    }
  }

  lemma EntryCut(fields: seq<Field>, d: seq<Slot>, seen: set<nat>, i: nat, wireType: nat, p: seq<byte>, n: nat)
    requires WellFormed(fields) && MsgFits(fields, d) && i < |fields| && wireType < 8
    requires WellFormedField(fields[i]) && SlotFits(fields[i], d[i])
    requires DecodeSlot(fields[i], d[i], wireType, p).Ok? && DecodeSlot(fields[i], d[i], wireType, p).rest == []
    requires n < |EncodeTag(wireType, fields[i].tag) + p|
    ensures DecodeLoop(fields, d, seen, (EncodeTag(wireType, fields[i].tag) + p)[..n])
            == if n < |EncodeTag(wireType, fields[i].tag)| then Done(d, seen, [], n > 0) else Fail
  {
    hide DecodeSlot, EncodeTag;
    var t := EncodeTag(wireType, fields[i].tag);
    if n < |t| {
      assert (t + p)[..n] == t[..n];
      TagCut(wireType, fields[i].tag, n);
    } else {
      var m := n - |t|;
      assert (t + p)[..n] == t + p[..m];
      KnownTurn(fields, d, seen, i, wireType, p[..m]);
      PayloadCut(fields[i], d[i], wireType, p, m);
    }
  }

  /** An outcome at a cut: an error unless the cut is clean, and nothing of the field itself is seen. */
  ghost predicate StopsAt(r: Loop, seen: set<nat>, clean: bool) {
    (r.Done? <==> clean) && (r.Done? ==> r.seen == seen)
  }

  lemma ValueThenNothing(f: Field, d: Value, m: Value)
    requires WellFormedField(f) && ValueFits(f, d) && ValueFits(f, m) && AcceptsValue(f, d, m)
    requires EncodeValue(f, m).Some? && |EncodeValue(f, m).value| < TWO32
    ensures DecodeValue(f, d, EncodeValue(f, m).value) == Ok(MergeValue(f, d, m), [])
  {
    hide DecodeValue, EncodeValue, MergeValue, AcceptsValue;
    ValueExact(f, d, m, []);
    assert EncodeValue(f, m).value + [] == EncodeValue(f, m).value;
  }

  lemma SingleCut(fields: seq<Field>, d: seq<Slot>, seen: set<nat>, i: nat, v: Value, n: nat)
    requires WellFormed(fields) && MsgFits(fields, d) && i < |fields| && SlotFits(fields[i], d[i])
    requires WellFormedField(fields[i]) && ValueFits(fields[i], v)
    requires EncodeTagged(fields[i], v).Some? && n < |EncodeTagged(fields[i], v).value| < TWO32
    requires fields[i].htype.REPEATED? ==> d[i].count < fields[i].arraySize && !fields[i].Packable()
    requires AcceptsValue(fields[i], if d[i].Many? then d[i].items[d[i].count] else d[i].v, v)
    ensures StopsAt(DecodeLoop(fields, d, seen, EncodeTagged(fields[i], v).value[..n]), seen,
              CutsCleanly(EncodeTagged(fields[i], v).value, n))
  {
    hide DecodeLoop, DecodeValue, EncodeValue, MergeValue, AcceptsValue, CutsCleanly, Whole;
    var f := fields[i];
    var e := EncodeValue(f, v).value;
    WireTypeSmall(f.ltype);
    ValueThenNothing(f, if d[i].Many? then d[i].items[d[i].count] else d[i].v, v);
    EntryCut(fields, d, seen, i, WireType(f.ltype), e, n);
    EntrySkippable(f, v);
    EntryWhole(WireType(f.ltype), f.tag, e);
  }

  lemma {:induction false} EachCut(fields: seq<Field>, d: seq<Slot>, seen: set<nat>, i: nat, vs: seq<Value>, n: nat)
    requires WellFormed(fields) && MsgFits(fields, d) && i < |fields| && SlotFits(fields[i], d[i])
    requires WellFormedField(fields[i]) && fields[i].htype.REPEATED? && !fields[i].Packable() && AllFit(fields[i], vs)
    requires AcceptsAll(fields[i], d[i].items, d[i].count, vs)
    requires EncodeEach(fields[i], vs).Some? && n < |EncodeEach(fields[i], vs).value| < TWO32
    ensures StopsAt(DecodeLoop(fields, d, seen, EncodeEach(fields[i], vs).value[..n]), seen,
              CutsCleanly(EncodeEach(fields[i], vs).value, n))
    decreases |vs|
  {
    hide DecodeLoop, DecodeValue, EncodeValue, MergeValue, AcceptsValue, CutsCleanly, Whole;
    var f := fields[i];
    var items, count := d[i].items, d[i].count;
    var e, more := EncodeTagged(f, vs[0]).value, EncodeEach(f, vs[1..]).value;
    AcceptsStep(f, items, count, vs);
    TaggedWhole(f, vs[0]);
    CutsConcat(e, more, n);
    if n < |e| {
      assert (e + more)[..n] == e[..n];
      SingleCut(fields, d, seen, i, vs[0], n);
    } else {
      var k := n - |e|;
      var p := EncodeValue(f, vs[0]).value;
      WireTypeSmall(f.ltype);
      assert (e + more)[..n] == EncodeTag(WireType(f.ltype), f.tag) + (p + more[..k]);
      KnownTurn(fields, d, seen, i, WireType(f.ltype), p + more[..k]);
      ValueExact(f, items[count], vs[0], more[..k]);
      var d' := d[i := Many(count + 1, items[count := MergeValue(f, items[count], vs[0])])];
      assert seen + Seen(f, i) == seen;
      EachCut(fields, d', seen, i, vs[1..], k);
    }
  }

  lemma PackedCut(fields: seq<Field>, d: seq<Slot>, seen: set<nat>, i: nat, vs: seq<Value>, n: nat)
    requires WellFormed(fields) && MsgFits(fields, d) && i < |fields| && SlotFits(fields[i], d[i])
    requires WellFormedField(fields[i]) && fields[i].htype.REPEATED? && fields[i].Packable() && AllFit(fields[i], vs)
    requires vs != [] && AcceptsAll(fields[i], d[i].items, d[i].count, vs) && EncodePacked(fields[i], vs).Some?
    requires n < |EncodeTag(WT_STRING, fields[i].tag) + Delimited(EncodePacked(fields[i], vs).value)| < TWO32
    ensures var e := EncodeTag(WT_STRING, fields[i].tag) + Delimited(EncodePacked(fields[i], vs).value);
            StopsAt(DecodeLoop(fields, d, seen, e[..n]), seen, CutsCleanly(e, n))
  {
    hide DecodeLoop, DecodePacked, EncodePacked, Append, AcceptsAll, CutsCleanly, Whole, Substream;
    var f := fields[i];
    var payload := EncodePacked(f, vs).value;
    SubstreamRoundTrip(payload, []);
    assert Delimited(payload) + [] == Delimited(payload);
    PackedExact(f, d[i].items, d[i].count, vs);
    EntryCut(fields, d, seen, i, WT_STRING, Delimited(payload), n);
    PackedSkippable(payload);
    EntryWhole(WT_STRING, f.tag, Delimited(payload));
  }

  /** One field cut short. */
  lemma SlotCut(fields: seq<Field>, d: seq<Slot>, seen: set<nat>, i: nat, m: Slot, n: nat)
    requires WellFormed(fields) && MsgFits(fields, d) && i < |fields| && SlotFits(fields[i], d[i])
    requires SlotFits(fields[i], m)
    requires WellFormedField(fields[i]) && AcceptsSlot(fields[i], d[i], m)
    requires EncodeSlot(fields[i], m).Some? && n < |EncodeSlot(fields[i], m).value| < TWO32
    ensures StopsAt(DecodeLoop(fields, d, seen, EncodeSlot(fields[i], m).value[..n]), seen,
              CutsCleanly(EncodeSlot(fields[i], m).value, n))
  {
    hide DecodeLoop, EncodeTagged, EncodePacked, EncodeEach, AcceptsValue, CutsCleanly, StopsAt;
    var f := fields[i];
    if m.Many? {
      var vs := m.items[..m.count];
      if f.Packable() {
        PackedCut(fields, d, seen, i, vs, n);
      } else {
        EachCut(fields, d, seen, i, vs, n);
      }
    } else {
      SingleCut(fields, d, seen, i, m.v, n);
    }
  }

  // ---------------------------------------------------------------------------
  // A whole message cut short
  // ---------------------------------------------------------------------------

  function SlotLength(f: Field, slot: Slot): nat
    requires WellFormedField(f) && SlotFits(f, slot)
  {
    match EncodeSlot(f, slot)
    case Some(bs) => |bs|
    case None => 0
  }

  /** Where field `k` ends in the bytes of the fields from `i` on. */
  function EndOf(fields: seq<Field>, m: seq<Slot>, i: nat, k: nat): nat
    requires WellFormed(fields) && MsgFits(fields, m) && k < |fields|
    decreases |fields| - i
  {
    if i > k then 0 else SlotLength(fields[i], m[i]) + EndOf(fields, m, i + 1, k)
  }

  function RequiredBefore(fields: seq<Field>, m: seq<Slot>, i: nat, n: nat): set<nat>
    requires WellFormed(fields) && MsgFits(fields, m)
  {
    set k | i <= k < |fields| && fields[k].htype.REQUIRED? && EndOf(fields, m, i, k) <= n
  }

  lemma RequiredBeforeStep(fields: seq<Field>, m: seq<Slot>, i: nat, n: nat)
    requires WellFormed(fields) && MsgFits(fields, m)
    requires i < |fields| && WellFormedField(fields[i]) && SlotFits(fields[i], m[i])
    ensures var length := SlotLength(fields[i], m[i]);
            RequiredBefore(fields, m, i, n)
            == if n < length then {} else Seen(fields[i], i) + RequiredBefore(fields, m, i + 1, n - length)
  {
    hide EncodeSlot, SlotLength, SlotFits, WellFormedField;
    forall k | i < k < |fields|
      ensures EndOf(fields, m, i, k) == SlotLength(fields[i], m[i]) + EndOf(fields, m, i + 1, k)
    {
    }
    assert EndOf(fields, m, i, i) == SlotLength(fields[i], m[i]) + EndOf(fields, m, i + 1, i);
  }

  lemma NothingBefore(fields: seq<Field>, m: seq<Slot>, n: nat)
    requires WellFormed(fields) && MsgFits(fields, m)
    ensures RequiredBefore(fields, m, |fields|, n) == {}
  {
  }

  /** A cut inside the bytes of field `i`, with `more` behind it. */
  lemma CutHere(fields: seq<Field>, d: seq<Slot>, seen: set<nat>, i: nat, m: Slot, more: seq<byte>, n: nat)
    requires WellFormed(fields) && MsgFits(fields, d) && i < |fields| && SlotFits(fields[i], d[i])
    requires SlotFits(fields[i], m)
    requires WellFormedField(fields[i]) && AcceptsSlot(fields[i], d[i], m)
    requires EncodeSlot(fields[i], m).Some? && n < |EncodeSlot(fields[i], m).value| < TWO32
    ensures var whole := EncodeSlot(fields[i], m).value + more;
            StopsAt(DecodeLoop(fields, d, seen, whole[..n]), seen, CutsCleanly(whole, n))
  {
    hide DecodeLoop, EncodeSlot, AcceptsSlot, CutsCleanly, Whole, StopsAt;
    var e := EncodeSlot(fields[i], m).value;
    SlotWhole(fields[i], m);
    CutsConcat(e, more, n);
    TakeConcat(e, more, n);
    SlotCut(fields, d, seen, i, m, n);
  }

  /** A cut after the bytes of field `i`. */
  lemma CutLater(fields: seq<Field>, d: seq<Slot>, seen: set<nat>, i: nat, m: Slot, more: seq<byte>, n: nat)
    requires WellFormed(fields) && MsgFits(fields, d) && i < |fields| && SlotFits(fields[i], d[i])
    requires SlotFits(fields[i], m)
    requires WellFormedField(fields[i]) && AcceptsSlot(fields[i], d[i], m)
    requires EncodeSlot(fields[i], m).Some? && |EncodeSlot(fields[i], m).value| < TWO32
    requires |EncodeSlot(fields[i], m).value| <= n <= |EncodeSlot(fields[i], m).value + more|
    ensures var whole, k := EncodeSlot(fields[i], m).value + more, n - |EncodeSlot(fields[i], m).value|;
            && DecodeLoop(fields, d, seen, whole[..n])
               == DecodeLoop(fields, d[i := MergeSlot(fields[i], d[i], m)], seen + Seen(fields[i], i), more[..k])
            && (CutsCleanly(whole, n) <==> CutsCleanly(more, k))
  {
    hide DecodeLoop, EncodeSlot, AcceptsSlot, MergeSlot, CutsCleanly, Whole;
    var e := EncodeSlot(fields[i], m).value;
    SlotWhole(fields[i], m);
    CutsConcat(e, more, n);
    TakeConcat(e, more, n);
    SlotExact(fields, d, seen, i, m, more[..n - |e|]);
  }

  lemma {:induction false} FromCut(fields: seq<Field>, d: seq<Slot>, m: seq<Slot>, seen: set<nat>, i: nat, n: nat)
    requires WellFormed(fields) && MsgFits(fields, d) && MsgFits(fields, m) && i <= |fields|
    requires AcceptsFrom(fields, d, m, i)
    requires EncodeFrom(fields, m, i).Some? && n <= |EncodeFrom(fields, m, i).value| < TWO32
    ensures StopsAt(DecodeLoop(fields, d, seen, EncodeFrom(fields, m, i).value[..n]),
              seen + RequiredBefore(fields, m, i, n), CutsCleanly(EncodeFrom(fields, m, i).value, n))
    decreases |fields| - i
  {
    hide EncodeSlot, MergeSlot, AcceptsSlot, RequiredBefore;
    if i == |fields| {
      NothingBefore(fields, m, n);
      assert seen + {} == seen;
    } else {
      var f := fields[i];
      assert WellFormedField(f) && SlotFits(f, m[i]) && SlotFits(f, d[i]);
      hide DecodeLoop, CutsCleanly, StopsAt, SlotFits, WellFormedField, EncodeFrom, MsgFits, WellFormed;
      hide SlotLength, Seen;
      FromParts(fields, m, i);
      var e, more := EncodeSlot(f, m[i]).value, EncodeFrom(fields, m, i + 1).value;
      RequiredBeforeStep(fields, m, i, n);
      if n < |e| {
        CutHere(fields, d, seen, i, m[i], more, n);
        assert seen + {} == seen;
      } else {
        CutLater(fields, d, seen, i, m[i], more, n);
        MergeFromStep(fields, d, m, i);
        FromCut(fields, d[i := MergeSlot(f, d[i], m[i])], m, seen + Seen(f, i), i + 1, n - |e|);
        UnionAssociates(seen, Seen(f, i), RequiredBefore(fields, m, i + 1, n - |e|));
      }
    }
  }

  lemma UnionAssociates(a: set<nat>, b: set<nat>, c: set<nat>)
    ensures a + b + c == a + (b + c)
  {
  }

  lemma FromParts(fields: seq<Field>, m: seq<Slot>, i: nat)
    requires WellFormed(fields) && MsgFits(fields, m) && i < |fields| && EncodeFrom(fields, m, i).Some?
    requires WellFormedField(fields[i]) && SlotFits(fields[i], m[i])
    ensures EncodeSlot(fields[i], m[i]).Some? && EncodeFrom(fields, m, i + 1).Some?
    ensures EncodeFrom(fields, m, i).value == EncodeSlot(fields[i], m[i]).value + EncodeFrom(fields, m, i + 1).value
    ensures SlotLength(fields[i], m[i]) == |EncodeSlot(fields[i], m[i]).value|
  {
    hide EncodeSlot;
  }

  /**
    Of a message that decodes, exactly these prefixes decode too: the ones that end between
    two fields or inside a tag, after every required field.
   */
  lemma TruncationExact(fields: seq<Field>, m: seq<Slot>, dest: seq<Slot>, n: nat)
    requires WellFormed(fields) && MsgFits(fields, m) && MsgFits(fields, dest) && Terminated(fields, m)
    requires EncodeMsg(fields, m).Some? && n <= |EncodeMsg(fields, m).value| < TWO32
    ensures Decode(fields, dest, EncodeMsg(fields, m).value[..n]).Ok?
            <==> CutsCleanly(EncodeMsg(fields, m).value, n)
                 && forall k | 0 <= k < |fields| && fields[k].htype.REQUIRED? :: EndOf(fields, m, 0, k) <= n
  {
    hide DecodeLoop, CutsCleanly, EndOf, Defaults, ClearedSlot, AcceptsSlot, TerminatedSlot, SlotInBounds;
    var d := Defaults(fields, dest);
    DefaultsAreCleared(fields, dest);
    MsgEncodable(fields, m);
    forall i | 0 <= i < |fields| ensures AcceptsSlot(fields[i], d[i], m[i]) {
      assert TerminatedSlot(fields[i], m[i]) && SlotInBounds(fields[i], m[i]) && ClearedSlot(fields[i], d[i]);
      FreshAcceptsSlot(fields[i], d[i], m[i]);
    }
    FromCut(fields, d, m, {}, 0, n);
    var before := {} + RequiredBefore(fields, m, 0, n);
    assert AllRequired(fields, before) <==>
           forall k | 0 <= k < |fields| && fields[k].htype.REQUIRED? :: EndOf(fields, m, 0, k) <= n;
  }

  // ---------------------------------------------------------------------------
  // What a cut message leaves in the struct
  // ---------------------------------------------------------------------------

  /**
    An entry cut `n` bytes into its payload: nothing is stored, except the size of a bytes
    member and the NUL of a string, which are stored as soon as the length has been read.
   */
  function CutValue(f: Field, d: Value, m: Value, n: nat): (r: Value)
    requires WellFormedField(f) && ValueFits(f, d) && ValueFits(f, m)
    ensures ValueFits(f, r)
  {
    match m
    case Num(_) => d
    case Msg(_) => d
    case Blob(size, _) =>
      if n < |EncodeVarint(size)| || size + BYTES_HEADER > f.dataSize then d else Blob(size, d.data)
    case Text(buf) =>
      var size := |CString(buf)|;
      if n < |EncodeVarint(size)| || size + 1 > f.dataSize then d else Text(d.buf[size := 0])
  }

  /** A field of one entry, or one entry of an array: its tag sets the flag or counts it, the rest is cut. */
  function CutEntry(f: Field, d: Slot, v: Value, n: nat): (r: Slot)
    requires WellFormedField(f) && SlotFits(f, d) && ValueFits(f, v)
    ensures SlotFits(f, r)
  {
    var tag := |EncodeTag(WireType(f.ltype), f.tag)|;
    if n < tag then d
    else
      match d
      case One(u) => One(CutValue(f, u, v, n - tag))
      case Flagged(_, u) => Flagged(true, CutValue(f, u, v, n - tag))
      case Many(count, items) =>
        if count < |items| then Many(count + 1, items[count := CutValue(f, items[count], v, n - tag)]) else d
  }

  /** How many of the tagged entries end within the first `n` bytes, and how many bytes they take. */
  function EntriesBefore(f: Field, vs: seq<Value>, n: nat): (r: (nat, nat))
    requires WellFormedField(f) && AllFit(f, vs)
    ensures r.0 <= |vs| && r.1 <= n
  {
    if vs == [] then (0, 0)
    else
      match EncodeTagged(f, vs[0])
      case None => (0, 0)
      case Some(bs) =>
        if n < |bs| then (0, 0)
        else
          var later := EntriesBefore(f, vs[1..], n - |bs|);
          (1 + later.0, |bs| + later.1)
  }

  lemma EntriesStep(f: Field, vs: seq<Value>, n: nat)
    requires WellFormedField(f) && AllFit(f, vs)
    requires vs != [] && EncodeTagged(f, vs[0]).Some? && |EncodeTagged(f, vs[0]).value| <= n
    ensures var size := |EncodeTagged(f, vs[0]).value|;
            var later := EntriesBefore(f, vs[1..], n - size);
            EntriesBefore(f, vs, n) == (1 + later.0, size + later.1)
  {
    hide EncodeTagged;
  }

  /** An array of tagged entries: those before the cut are there, and then the one that is cut. */
  function CutEach(f: Field, d: Slot, vs: seq<Value>, n: nat): (r: Slot)
    requires WellFormedField(f) && SlotFits(f, d) && f.htype.REPEATED? && AllFit(f, vs) && d.count + |vs| <= |d.items|
    ensures SlotFits(f, r)
  {
    var (q, bytes) := EntriesBefore(f, vs, n);
    CutAt(f, d, vs, q, n - bytes)
  }

  /** The first `q` entries appended, and the next one, if any, cut after `n` bytes. */
  function CutAt(f: Field, d: Slot, vs: seq<Value>, q: nat, n: nat): (r: Slot)
    requires WellFormedField(f) && SlotFits(f, d) && f.htype.REPEATED? && AllFit(f, vs) && d.count + |vs| <= |d.items|
    requires q <= |vs|
    ensures SlotFits(f, r)
  {
    CutAfter(f, Append(f, d.items, d.count, vs[..q]), vs, q, n)
  }

  function CutAfter(f: Field, before: Slot, vs: seq<Value>, q: nat, n: nat): (r: Slot)
    requires WellFormedField(f) && SlotFits(f, before) && AllFit(f, vs) && q <= |vs|
    ensures SlotFits(f, r)
  {
    if q < |vs| then CutEntry(f, before, vs[q], n) else before
  }

  lemma CutAfterNext(f: Field, before: Slot, vs: seq<Value>, q: nat, n: nat)
    requires WellFormedField(f) && SlotFits(f, before) && AllFit(f, vs) && q < |vs|
    ensures AllFit(f, vs[1..]) && CutAfter(f, before, vs, q + 1, n) == CutAfter(f, before, vs[1..], q, n)
  {
    hide WellFormedField, ValueFits, SlotFits, CutEntry;
  }

  lemma CutAtNext(f: Field, d: Slot, next: Slot, vs: seq<Value>, q: nat, n: nat)
    requires WellFormedField(f) && SlotFits(f, d) && f.htype.REPEATED? && AllFit(f, vs) && d.count + |vs| <= |d.items|
    requires q < |vs| && SlotFits(f, next)
    requires next == Many(d.count + 1, d.items[d.count := MergeValue(f, d.items[d.count], vs[0])])
    ensures CutAt(f, d, vs, q + 1, n) == CutAt(f, next, vs[1..], q, n)
  {
    hide *;
    ManyFits(f, d);
    ManyFits(f, next);
    TailFits(f, vs);
    AppendFirst(f, d.items, d.count, vs, q);
    CutAfterNext(f, Append(f, d.items, d.count, vs[..q + 1]), vs, q, n);
    CutAtIsAfter(f, d, vs, q + 1, n);
    CutAtIsAfter(f, next, vs[1..], q, n);
  }

  lemma ManyFits(f: Field, d: Slot)
    requires SlotFits(f, d) && f.htype.REPEATED?
    ensures d.Many? && |d.items| == f.arraySize && AllFit(f, d.items)
  {
  }

  lemma CutAtIsAfter(f: Field, d: Slot, vs: seq<Value>, q: nat, n: nat)
    requires WellFormedField(f) && SlotFits(f, d) && f.htype.REPEATED? && AllFit(f, vs) && d.count + |vs| <= |d.items|
    requires q <= |vs|
    ensures d.Many? && AllFit(f, d.items) && AllFit(f, vs[..q])
    ensures SlotFits(f, Append(f, d.items, d.count, vs[..q]))
    ensures CutAt(f, d, vs, q, n) == CutAfter(f, Append(f, d.items, d.count, vs[..q]), vs, q, n)
  {
    hide CutAfter, Append, ValueFits, WellFormedField;
  }

  lemma AppendFirst(f: Field, items: seq<Value>, count: nat, vs: seq<Value>, q: nat)
    requires WellFormedField(f) && AllFit(f, items) && AllFit(f, vs) && q < |vs| && count + |vs| <= |items|
    ensures var items' := items[count := MergeValue(f, items[count], vs[0])];
            && AllFit(f, items') && AllFit(f, vs[1..][..q]) && AllFit(f, vs[..q + 1])
            && Append(f, items, count, vs[..q + 1]) == Append(f, items', count + 1, vs[1..][..q])
  {
    hide WellFormedField, ValueFits, MergeValue, Append;
    assert vs[..q + 1][1..] == vs[1..][..q];
    AppendStep(f, items, count, vs[..q + 1]);
  }

  /** A member whose field is cut `n` bytes after its first; a packed array is set apart whole or not at all. */
  function CutSlot(f: Field, d: Slot, m: Slot, n: nat): (r: Slot)
    requires WellFormedField(f) && SlotFits(f, d) && SlotFits(f, m)
    ensures SlotFits(f, r)
  {
    match m
    case One(v) => CutEntry(f, d, v, n)
    case Flagged(_, v) => CutEntry(f, d, v, n)
    case Many(count, items) =>
      if f.Packable() || count > |items| || d.count + count > |d.items| then d else CutEach(f, d, items[..count], n)
  }

  // Cut payloads

  lemma VarintCut(v: nat, n: nat)
    requires v < TWO64 && n < |EncodeVarint(v)|
    ensures DecodeVarint(EncodeVarint(v)[..n]).Failed?
    ensures v < TWO32 ==> DecodeVarint32(EncodeVarint(v)[..n]).Failed?
  {
    hide EncodeVarint, ReadGroups;
    var e := EncodeVarint(v);
    Varint64Size(v);
    GroupsContinue(v);
    assert forall k | 0 <= k < n :: e[..n][k] == e[..|e| - 1][k];
    GroupsRunOut(e[..n], MAX_VARINT64);
    if v < TWO32 { GroupsRunOut(e[..n], MAX_VARINT32); }
  }

  /** A length-prefixed run that is cut: no length, or the length and too few bytes. */
  lemma DelimitedCut(bs: seq<byte>, n: nat)
    requires |bs| < TWO32 && n < |Delimited(bs)|
    ensures var size := |EncodeVarint(|bs|)|;
            if n < size then DecodeVarint32(Delimited(bs)[..n]).Failed?
            else DecodeVarint32(Delimited(bs)[..n]) == Got(|bs|, bs[..n - size])
    ensures Substream(Delimited(bs)[..n]).Err?
  {
    hide EncodeVarint, DecodeVarint32;
    var size := EncodeVarint(|bs|);
    if n < |size| {
      assert Delimited(bs)[..n] == size[..n];
      VarintCut(|bs|, n);
    } else {
      assert Delimited(bs)[..n] == size + bs[..n - |size|];
      Varint32RoundTrip(|bs|, bs[..n - |size|]);
    }
  }

  lemma IntegerCut(f: Field, d: Value, m: Value, n: nat)
    requires WellFormedField(f) && ValueFits(f, d) && ValueFits(f, m)
    requires f.ltype.VARINT? || f.ltype.UVARINT? || f.ltype.SVARINT?
    requires n < |EncodeScalar(f, m).value|
    ensures ScalarLeft(f, d, EncodeScalar(f, m).value[..n]) == d
  {
    hide EncodeVarint, DecodeVarint;
    var u := if f.ltype.VARINT? then ToUnsigned64(m.n) else if f.ltype.UVARINT? then m.n else ZigZag(m.n);
    IntegerIsWord(f, m);
    VarintCut(u, n);
  }

  lemma IntegerIsWord(f: Field, m: Value)
    requires WellFormedField(f) && ValueFits(f, m) && (f.ltype.VARINT? || f.ltype.UVARINT? || f.ltype.SVARINT?)
    ensures f.ltype.UVARINT? ==> 0 <= m.n < TWO64
    ensures f.ltype.SVARINT? ==> ZigZag(m.n) < TWO64
  {
    if f.ltype.SVARINT? { ZigZagRoundTrip(m.n); }
  }

  lemma BufferCut(f: Field, d: Value, m: Value, n: nat)
    requires WellFormedField(f) && ValueFits(f, d) && ValueFits(f, m) && (f.ltype.BYTES? || f.ltype.STRING?)
    requires EncodeScalar(f, m).Some? && n < |EncodeScalar(f, m).value| < TWO32
    ensures ScalarLeft(f, d, EncodeScalar(f, m).value[..n]) == CutValue(f, d, m, n)
  {
    hide EncodeVarint, DecodeVarint32, CString;
    DelimitedCut(if f.ltype.BYTES? then m.data[..m.size] else CString(m.buf), n);
  }

  lemma ScalarCut(f: Field, d: Value, m: Value, n: nat)
    requires WellFormedField(f) && ValueFits(f, d) && ValueFits(f, m) && !f.ltype.SUBMESSAGE?
    requires EncodeScalar(f, m).Some? && n < |EncodeScalar(f, m).value| < TWO32
    ensures ScalarLeft(f, d, EncodeScalar(f, m).value[..n]) == CutValue(f, d, m, n)
  {
    if f.ltype.FIXED32? || f.ltype.FIXED64? {
      WordLeft(f, d, EncodeScalar(f, m).value[..n]);
    } else if f.ltype.BYTES? || f.ltype.STRING? {
      BufferCut(f, d, m, n);
    } else {
      IntegerCut(f, d, m, n);
    }
  }

  lemma WordLeft(f: Field, d: Value, s: seq<byte>)
    requires WellFormedField(f) && ValueFits(f, d) && (f.ltype.FIXED32? || f.ltype.FIXED64?) && |s| < f.dataSize
    ensures ScalarLeft(f, d, s) == d
  {
  }

  /** What a cut payload leaves in its entry. */
  lemma ValueCut(f: Field, d: Value, m: Value, n: nat)
    requires WellFormedField(f) && ValueFits(f, d) && ValueFits(f, m)
    requires EncodeValue(f, m).Some? && n < |EncodeValue(f, m).value| < TWO32
    ensures ValueLeft(f, d, EncodeValue(f, m).value[..n]) == CutValue(f, d, m, n)
  {
    hide ScalarLeft, EncodeScalar, CutValue, Substream;
    if f.ltype.SUBMESSAGE? {
      DelimitedCut(EncodeMsg(f.sub, m.slots).value, n);
      SubmessageCut(f, d, m, n);
    } else {
      ScalarCut(f, d, m, n);
    }
  }

  lemma SubmessageCut(f: Field, d: Value, m: Value, n: nat)
    requires WellFormedField(f) && ValueFits(f, d) && ValueFits(f, m) && f.ltype.SUBMESSAGE?
    ensures CutValue(f, d, m, n) == d
  {
  }

  // Cut fields

  lemma KnownTurnLeft(fields: seq<Field>, d: seq<Slot>, i: nat, wireType: nat, s: seq<byte>)
    requires WellFormed(fields) && MsgFits(fields, d) && i < |fields| && wireType < 8
    requires WellFormedField(fields[i]) && SlotFits(fields[i], d[i])
    ensures var left := d[i := SlotLeft(fields[i], d[i], wireType, s)];
            MessageLeft(fields, d, EncodeTag(wireType, fields[i].tag) + s)
            == match DecodeSlot(fields[i], d[i], wireType, s)
               case Err => left
               case Ok(_, rest) => MessageLeft(fields, left, rest)
  {
    hide SlotLeft, DecodeSlot;
    var f := fields[i];
    TagRoundTrip(wireType, f.tag, s);
    FindUnique(fields, i);
    TagProgress(EncodeTag(wireType, f.tag) + s);
    assert EncodeTag(wireType, f.tag) + s != [];
  }

  lemma EntryCutLeft(fields: seq<Field>, d: seq<Slot>, i: nat, wireType: nat, p: seq<byte>, n: nat)
    requires WellFormed(fields) && MsgFits(fields, d) && i < |fields| && wireType < 8
    requires WellFormedField(fields[i]) && SlotFits(fields[i], d[i])
    requires DecodeSlot(fields[i], d[i], wireType, p).Ok? && DecodeSlot(fields[i], d[i], wireType, p).rest == []
    requires n < |EncodeTag(wireType, fields[i].tag) + p|
    ensures var t := EncodeTag(wireType, fields[i].tag);
            MessageLeft(fields, d, (t + p)[..n])
            == if n < |t| then d else d[i := SlotLeft(fields[i], d[i], wireType, p[..n - |t|])]
  {
    hide DecodeSlot, SlotLeft, EncodeTag;
    var t := EncodeTag(wireType, fields[i].tag);
    if n < |t| {
      assert (t + p)[..n] == t[..n];
      TagCut(wireType, fields[i].tag, n);
    } else {
      var m := n - |t|;
      assert (t + p)[..n] == t + p[..m];
      KnownTurnLeft(fields, d, i, wireType, p[..m]);
      PayloadCut(fields[i], d[i], wireType, p, m);
    }
  }

  lemma SingleCutLeft(fields: seq<Field>, d: seq<Slot>, i: nat, v: Value, n: nat)
    requires WellFormed(fields) && MsgFits(fields, d) && i < |fields| && SlotFits(fields[i], d[i])
    requires WellFormedField(fields[i]) && ValueFits(fields[i], v)
    requires EncodeTagged(fields[i], v).Some? && n < |EncodeTagged(fields[i], v).value| < TWO32
    requires fields[i].htype.REPEATED? ==> d[i].count < fields[i].arraySize && !fields[i].Packable()
    requires AcceptsValue(fields[i], if d[i].Many? then d[i].items[d[i].count] else d[i].v, v)
    ensures MessageLeft(fields, d, EncodeTagged(fields[i], v).value[..n]) == d[i := CutEntry(fields[i], d[i], v, n)]
  {
    hide MessageLeft, DecodeValue, EncodeValue, MergeValue, AcceptsValue, EncodeTag, ValueLeft, CutValue;
    var f := fields[i];
    var p := EncodeValue(f, v).value;
    var entry := if d[i].Many? then d[i].items[d[i].count] else d[i].v;
    var t := EncodeTag(WireType(f.ltype), f.tag);
    WireTypeSmall(f.ltype);
    ValueThenNothing(f, entry, v);
    EntryCutLeft(fields, d, i, WireType(f.ltype), p, n);
    if n < |t| {
      assert d[i := d[i]] == d;
    } else {
      ValueCut(f, entry, v, n - |t|);
    }
  }

  lemma PackedCutLeft(fields: seq<Field>, d: seq<Slot>, i: nat, vs: seq<Value>, n: nat)
    requires WellFormed(fields) && MsgFits(fields, d) && i < |fields| && SlotFits(fields[i], d[i])
    requires WellFormedField(fields[i]) && fields[i].htype.REPEATED? && fields[i].Packable() && AllFit(fields[i], vs)
    requires vs != [] && AcceptsAll(fields[i], d[i].items, d[i].count, vs) && EncodePacked(fields[i], vs).Some?
    requires n < |EncodeTag(WT_STRING, fields[i].tag) + Delimited(EncodePacked(fields[i], vs).value)| < TWO32
    ensures var e := EncodeTag(WT_STRING, fields[i].tag) + Delimited(EncodePacked(fields[i], vs).value);
            MessageLeft(fields, d, e[..n]) == d
  {
    hide MessageLeft, DecodePacked, EncodePacked, Append, AcceptsAll, Substream, EncodeTag, Delimited;
    var f := fields[i];
    var payload := EncodePacked(f, vs).value;
    var t := EncodeTag(WT_STRING, f.tag);
    PayloadShorter(payload);
    SubstreamRoundTrip(payload, []);
    assert Delimited(payload) + [] == Delimited(payload);
    PackedExact(f, d[i].items, d[i].count, vs);
    EntryCutLeft(fields, d, i, WT_STRING, Delimited(payload), n);
    if n >= |t| {
      DelimitedCut(payload, n - |t|);
      assert d[i := d[i]] == d;
    }
  }

  lemma PayloadShorter(payload: seq<byte>)
    ensures |payload| <= |Delimited(payload)|
  {
  }

  lemma {:induction false} EachCutLeft(fields: seq<Field>, d: seq<Slot>, i: nat, vs: seq<Value>, n: nat)
    requires WellFormed(fields) && MsgFits(fields, d) && i < |fields| && SlotFits(fields[i], d[i])
    requires WellFormedField(fields[i]) && fields[i].htype.REPEATED? && !fields[i].Packable() && AllFit(fields[i], vs)
    requires AcceptsAll(fields[i], d[i].items, d[i].count, vs)
    requires EncodeEach(fields[i], vs).Some? && n < |EncodeEach(fields[i], vs).value| < TWO32
    ensures MessageLeft(fields, d, EncodeEach(fields[i], vs).value[..n]) == d[i := CutEach(fields[i], d[i], vs, n)]
    decreases |vs|
  {
    hide MessageLeft, EncodeTagged, MergeValue, AcceptsValue, CutEach, CutEntry, Append;
    var f := fields[i];
    var items, count := d[i].items, d[i].count;
    var e, more := EncodeTagged(f, vs[0]).value, EncodeEach(f, vs[1..]).value;
    AcceptsStep(f, items, count, vs);
    TakeConcat(e, more, n);
    if n < |e| {
      SingleCutLeft(fields, d, i, vs[0], n);
      CutFirst(f, d[i], vs, n);
    } else {
      var next := Many(count + 1, items[count := MergeValue(f, items[count], vs[0])]);
      EntryThenLeft(fields, d, i, vs[0], more[..n - |e|]);
      EachCutLeft(fields, d[i := next], i, vs[1..], n - |e|);
      CutNext(f, d[i], next, vs, n);
      assert d[i := next][i := CutEach(f, next, vs[1..], n - |e|)] == d[i := CutEach(f, next, vs[1..], n - |e|)];
    }
  }

  /** The cut is in the first entry. */
  lemma CutFirst(f: Field, d: Slot, vs: seq<Value>, n: nat)
    requires WellFormedField(f) && SlotFits(f, d) && f.htype.REPEATED? && AllFit(f, vs) && d.count + |vs| <= |d.items|
    requires vs != [] && EncodeTagged(f, vs[0]).Some? && n < |EncodeTagged(f, vs[0]).value|
    ensures CutEach(f, d, vs, n) == CutEntry(f, d, vs[0], n)
  {
    hide EncodeTagged, CutEntry, Append, WellFormedField, ValueFits;
    NothingAppended(f, d, vs);
  }

  lemma NothingAppended(f: Field, d: Slot, vs: seq<Value>)
    requires WellFormedField(f) && d.Many? && AllFit(f, d.items) && AllFit(f, vs) && d.count <= |d.items|
    ensures Append(f, d.items, d.count, vs[..0]) == d
  {
    hide WellFormedField, ValueFits;
    assert Append(f, d.items, d.count, vs[..0]).items == d.items;
  }

  /** The first entry ends before the cut. */
  lemma CutNext(f: Field, d: Slot, next: Slot, vs: seq<Value>, n: nat)
    requires d.Many?
    requires WellFormedField(f) && SlotFits(f, d) && f.htype.REPEATED? && AllFit(f, vs) && d.count + |vs| <= |d.items|
    requires vs != [] && EncodeTagged(f, vs[0]).Some? && |EncodeTagged(f, vs[0]).value| <= n
    requires next == Many(d.count + 1, d.items[d.count := MergeValue(f, d.items[d.count], vs[0])]) && SlotFits(f, next)
    ensures CutEach(f, d, vs, n) == CutEach(f, next, vs[1..], n - |EncodeTagged(f, vs[0]).value|)
  {
    hide *;
    TailFits(f, vs);
    assert |next.items| == |d.items| && |vs[1..]| == |vs| - 1;
    EntriesStep(f, vs, n);
    var size := |EncodeTagged(f, vs[0]).value|;
    var later := EntriesBefore(f, vs[1..], n - size);
    CutEachAt(f, d, vs, n, 1 + later.0, size + later.1);
    CutEachAt(f, next, vs[1..], n - size, later.0, later.1);
    CutAtNext(f, d, next, vs, later.0, n - size - later.1);
  }

  lemma TailFits(f: Field, vs: seq<Value>)
    requires AllFit(f, vs) && vs != []
    ensures ValueFits(f, vs[0]) && AllFit(f, vs[1..])
  {
    hide ValueFits;
  }

  lemma CutEachAt(f: Field, d: Slot, vs: seq<Value>, n: nat, q: nat, bytes: nat)
    requires WellFormedField(f) && SlotFits(f, d) && f.htype.REPEATED? && AllFit(f, vs) && d.count + |vs| <= |d.items|
    requires EntriesBefore(f, vs, n) == (q, bytes)
    ensures q <= |vs| && bytes <= n && CutEach(f, d, vs, n) == CutAt(f, d, vs, q, n - bytes)
  {
    hide CutAt, EntriesBefore;
  }

  /** One whole array entry and then more. */
  lemma EntryThenLeft(fields: seq<Field>, d: seq<Slot>, i: nat, v: Value, more: seq<byte>)
    requires WellFormed(fields) && MsgFits(fields, d) && i < |fields| && SlotFits(fields[i], d[i])
    requires WellFormedField(fields[i]) && fields[i].htype.REPEATED? && !fields[i].Packable() && ValueFits(fields[i], v)
    requires d[i].count < fields[i].arraySize && AcceptsValue(fields[i], d[i].items[d[i].count], v)
    requires EncodeTagged(fields[i], v).Some? && |EncodeTagged(fields[i], v).value| < TWO32
    ensures var entry := MergeValue(fields[i], d[i].items[d[i].count], v);
            MessageLeft(fields, d, EncodeTagged(fields[i], v).value + more)
            == MessageLeft(fields, d[i := Many(d[i].count + 1, d[i].items[d[i].count := entry])], more)
  {
    hide MessageLeft, DecodeValue, EncodeValue, MergeValue, AcceptsValue, SlotLeft;
    var f := fields[i];
    var p := EncodeValue(f, v).value;
    WireTypeSmall(f.ltype);
    assert EncodeTagged(f, v).value + more == EncodeTag(WireType(f.ltype), f.tag) + (p + more);
    KnownTurnLeft(fields, d, i, WireType(f.ltype), p + more);
    ValueExact(f, d[i].items[d[i].count], v, more);
    SlotAgrees(f, d[i], WireType(f.ltype), p + more);
  }

  /** One field cut short leaves all other members alone. */
  lemma SlotCutLeft(fields: seq<Field>, d: seq<Slot>, i: nat, m: Slot, n: nat)
    requires WellFormed(fields) && MsgFits(fields, d) && i < |fields| && SlotFits(fields[i], d[i])
    requires WellFormedField(fields[i]) && SlotFits(fields[i], m) && AcceptsSlot(fields[i], d[i], m)
    requires EncodeSlot(fields[i], m).Some? && n < |EncodeSlot(fields[i], m).value| < TWO32
    ensures MessageLeft(fields, d, EncodeSlot(fields[i], m).value[..n]) == d[i := CutSlot(fields[i], d[i], m, n)]
  {
    hide MessageLeft, EncodeTagged, EncodePacked, EncodeEach, AcceptsValue, CutEntry, CutEach;
    var f := fields[i];
    if m.Many? {
      var vs := m.items[..m.count];
      if f.Packable() {
        PackedCutLeft(fields, d, i, vs, n);
        assert d[i := d[i]] == d;
      } else {
        EachCutLeft(fields, d, i, vs, n);
      }
    } else {
      SingleCutLeft(fields, d, i, m.v, n);
    }
  }

  /** Bytes of a whole field, accepted, and then more. */
  lemma SlotThenLeft(fields: seq<Field>, d: seq<Slot>, i: nat, m: Slot, more: seq<byte>)
    requires WellFormed(fields) && MsgFits(fields, d) && i < |fields| && SlotFits(fields[i], d[i])
    requires SlotFits(fields[i], m)
    requires WellFormedField(fields[i]) && AcceptsSlot(fields[i], d[i], m)
    requires EncodeSlot(fields[i], m).Some? && |EncodeSlot(fields[i], m).value| < TWO32
    ensures MessageLeft(fields, d, EncodeSlot(fields[i], m).value + more)
            == MessageLeft(fields, d[i := MergeSlot(fields[i], d[i], m)], more)
  {
    hide EncodeSlot, MergeSlot, AcceptsSlot, MessageLeft;
    var e := EncodeSlot(fields[i], m).value;
    SlotExact(fields, d, {}, i, m, []);
    assert e + [] == e;
    LeftIsAction(fields, d, {}, e, more);
  }

  function StartOf(fields: seq<Field>, m: seq<Slot>, i: nat, k: nat): nat
    requires WellFormed(fields) && MsgFits(fields, m) && k < |fields|
  {
    if k == 0 || k <= i then 0 else EndOf(fields, m, i, k - 1)
  }

  /** What a cut after `n` bytes of the fields from `i` on leaves in member `k`. */
  ghost predicate LeftAt(fields: seq<Field>, r: seq<Slot>, d: seq<Slot>, m: seq<Slot>, i: nat, n: nat, k: nat)
    requires WellFormed(fields) && MsgFits(fields, r) && MsgFits(fields, d) && MsgFits(fields, m) && k < |fields|
  {
    assert WellFormedField(fields[k]) && SlotFits(fields[k], d[k]) && SlotFits(fields[k], m[k]);
    if k < i then r[k] == d[k]
    else if EndOf(fields, m, i, k) <= n then r[k] == MergeSlot(fields[k], d[k], m[k])
    else if n <= StartOf(fields, m, i, k) then r[k] == d[k]
    else r[k] == CutSlot(fields[k], d[k], m[k], n - StartOf(fields, m, i, k))
  }

  lemma EndStep(fields: seq<Field>, m: seq<Slot>, i: nat, k: nat)
    requires WellFormed(fields) && MsgFits(fields, m) && i <= k < |fields|
    requires WellFormedField(fields[i]) && SlotFits(fields[i], m[i])
    ensures EndOf(fields, m, i, k) == SlotLength(fields[i], m[i]) + EndOf(fields, m, i + 1, k)
    ensures k > i ==> StartOf(fields, m, i, k) == SlotLength(fields[i], m[i]) + StartOf(fields, m, i + 1, k)
    ensures StartOf(fields, m, i, i) == 0 && EndOf(fields, m, i + 1, i) == 0
  {
    hide SlotLength;
    if k > i { assert EndOf(fields, m, i, k - 1) == SlotLength(fields[i], m[i]) + EndOf(fields, m, i + 1, k - 1); }
    if k == i + 1 { assert EndOf(fields, m, i + 1, i) == 0; }
  }

  /** From what a cut inside field `i` touches to what it leaves in member `k`. */
  lemma LeftHere(fields: seq<Field>, r: seq<Slot>, d: seq<Slot>, m: seq<Slot>, i: nat, n: nat, k: nat)
    requires WellFormed(fields) && MsgFits(fields, r) && MsgFits(fields, d) && MsgFits(fields, m)
    requires k < |fields| && i < |fields|
    requires WellFormedField(fields[i]) && SlotFits(fields[i], d[i]) && SlotFits(fields[i], m[i])
    requires n < SlotLength(fields[i], m[i]) && (n == 0 ==> r == d)
    requires r == d[i := CutSlot(fields[i], d[i], m[i], n)]
    ensures LeftAt(fields, r, d, m, i, n, k)
  {
    hide MergeSlot, CutSlot, EndOf, StartOf, SlotLength, WellFormedField, SlotFits;
    if k >= i { EndStep(fields, m, i, k); }
  }

  /** From a cut in the fields after `i`, field `i` merged, to a cut in the fields from `i` on. */
  lemma LeftLater(fields: seq<Field>, r: seq<Slot>, d: seq<Slot>, m: seq<Slot>, i: nat, n: nat, k: nat)
    requires WellFormed(fields) && MsgFits(fields, r) && MsgFits(fields, d) && MsgFits(fields, m)
    requires k < |fields| && i < |fields|
    requires WellFormedField(fields[i]) && SlotFits(fields[i], d[i]) && SlotFits(fields[i], m[i])
    requires SlotLength(fields[i], m[i]) <= n && MsgFits(fields, d[i := MergeSlot(fields[i], d[i], m[i])])
    requires LeftAt(fields, r, d[i := MergeSlot(fields[i], d[i], m[i])], m, i + 1, n - SlotLength(fields[i], m[i]), k)
    ensures LeftAt(fields, r, d, m, i, n, k)
  {
    hide MergeSlot, CutSlot, EndOf, StartOf, SlotLength, WellFormedField, SlotFits;
    if k >= i { EndStep(fields, m, i, k); }
  }

  /** ... of the bytes `s` of those fields. */
  ghost predicate CutLeaves(fields: seq<Field>, d: seq<Slot>, m: seq<Slot>, i: nat, s: seq<byte>, n: nat, k: nat)
    requires WellFormed(fields) && MsgFits(fields, d) && MsgFits(fields, m) && k < |fields| && n <= |s|
  {
    LeftAt(fields, MessageLeft(fields, d, s[..n]), d, m, i, n, k)
  }

  /** Field `i` of a message, ready to be taken apart. */
  ghost predicate AtField(fields: seq<Field>, d: seq<Slot>, m: seq<Slot>, i: nat) {
    && WellFormed(fields) && MsgFits(fields, d) && MsgFits(fields, m) && i < |fields|
    && WellFormedField(fields[i]) && SlotFits(fields[i], d[i]) && SlotFits(fields[i], m[i])
    && AcceptsSlot(fields[i], d[i], m[i])
    && EncodeSlot(fields[i], m[i]).Some? && |EncodeSlot(fields[i], m[i]).value| < TWO32
  }

  lemma CutLeftHere(fields: seq<Field>, d: seq<Slot>, m: seq<Slot>, i: nat, more: seq<byte>, n: nat, k: nat)
    requires AtField(fields, d, m, i) && k < |fields| && n < |EncodeSlot(fields[i], m[i]).value|
    ensures CutLeaves(fields, d, m, i, EncodeSlot(fields[i], m[i]).value + more, n, k)
  {
    var e := EncodeSlot(fields[i], m[i]).value;
    assert n == 0 ==> MessageLeft(fields, d, e[..n]) == d;
    assert SlotLength(fields[i], m[i]) == |e|;
    hide EncodeSlot, AcceptsSlot, MessageLeft, LeftAt, CutSlot, SlotLength;
    TakeConcat(e, more, n);
    SlotCutLeft(fields, d, i, m[i], n);
    LeftHere(fields, MessageLeft(fields, d, e[..n]), d, m, i, n, k);
  }

  lemma CutLeftLater(
    fields: seq<Field>, d: seq<Slot>, d': seq<Slot>, m: seq<Slot>, i: nat, e: seq<byte>, more: seq<byte>,
    n: nat, k: nat)
    requires AtField(fields, d, m, i) && k < |fields| && e == EncodeSlot(fields[i], m[i]).value
    requires |e| <= n <= |e + more|
    requires d' == d[i := MergeSlot(fields[i], d[i], m[i])] && MsgFits(fields, d')
    requires CutLeaves(fields, d', m, i + 1, more, n - |e|, k)
    ensures CutLeaves(fields, d, m, i, e + more, n, k)
  {
    assert SlotLength(fields[i], m[i]) == |e|;
    hide *;
    SameOutcome(fields, d, d', m, i, e, more, n);
    LeftLaterOf(fields, d, d', m, i, e, more, n, k);
  }

  lemma SameOutcome(
    fields: seq<Field>, d: seq<Slot>, d': seq<Slot>, m: seq<Slot>, i: nat, e: seq<byte>, more: seq<byte>, n: nat)
    requires AtField(fields, d, m, i) && e == EncodeSlot(fields[i], m[i]).value && |e| <= n <= |e + more|
    requires d' == d[i := MergeSlot(fields[i], d[i], m[i])] && MsgFits(fields, d')
    ensures MessageLeft(fields, d, (e + more)[..n]) == MessageLeft(fields, d', more[..n - |e|])
  {
    hide EncodeSlot, AcceptsSlot, MergeSlot, MessageLeft;
    TakeConcat(e, more, n);
    SlotThenLeft(fields, d, i, m[i], more[..n - |e|]);
  }

  lemma LeftLaterOf(
    fields: seq<Field>, d: seq<Slot>, d': seq<Slot>, m: seq<Slot>, i: nat, e: seq<byte>, more: seq<byte>,
    n: nat, k: nat)
    requires AtField(fields, d, m, i) && k < |fields| && |e| <= n <= |e + more| && |e| == SlotLength(fields[i], m[i])
    requires d' == d[i := MergeSlot(fields[i], d[i], m[i])] && MsgFits(fields, d')
    requires MessageLeft(fields, d, (e + more)[..n]) == MessageLeft(fields, d', more[..n - |e|])
    requires CutLeaves(fields, d', m, i + 1, more, n - |e|, k)
    ensures CutLeaves(fields, d, m, i, e + more, n, k)
  {
    hide EncodeSlot, AcceptsSlot, MergeSlot, MessageLeft, LeftAt, SlotLength;
    LeftLater(fields, MessageLeft(fields, d, (e + more)[..n]), d, m, i, n, k);
  }

  lemma NothingToCut(fields: seq<Field>, d: seq<Slot>, m: seq<Slot>, n: nat, k: nat)
    requires WellFormed(fields) && MsgFits(fields, d) && MsgFits(fields, m) && k < |fields|
    requires EncodeFrom(fields, m, |fields|).Some? && n <= |EncodeFrom(fields, m, |fields|).value|
    ensures CutLeaves(fields, d, m, |fields|, EncodeFrom(fields, m, |fields|).value, n, k)
  {
  }

  /** The fields from `i` on, ready to be written and accepted. */
  ghost predicate AtFields(fields: seq<Field>, d: seq<Slot>, m: seq<Slot>, i: nat) {
    && WellFormed(fields) && MsgFits(fields, d) && MsgFits(fields, m) && i <= |fields| && AcceptsFrom(fields, d, m, i)
    && EncodeFrom(fields, m, i).Some? && |EncodeFrom(fields, m, i).value| < TWO32
  }

  lemma TakeField(
    fields: seq<Field>, d: seq<Slot>, m: seq<Slot>, i: nat) returns (d': seq<Slot>, e: seq<byte>, more: seq<byte>)
    requires AtFields(fields, d, m, i) && i < |fields|
    ensures AtField(fields, d, m, i) && e == EncodeSlot(fields[i], m[i]).value
    ensures d' == d[i := MergeSlot(fields[i], d[i], m[i])] && AtFields(fields, d', m, i + 1)
    ensures more == EncodeFrom(fields, m, i + 1).value && EncodeFrom(fields, m, i).value == e + more
  {
    hide EncodeSlot, AcceptsSlot, MergeSlot, SlotLength;
    assert WellFormedField(fields[i]) && SlotFits(fields[i], d[i]) && SlotFits(fields[i], m[i]);
    hide EncodeFrom;
    FromParts(fields, m, i);
    MergeFromStep(fields, d, m, i);
    d' := d[i := MergeSlot(fields[i], d[i], m[i])];
    e, more := EncodeSlot(fields[i], m[i]).value, EncodeFrom(fields, m, i + 1).value;
  }

  lemma {:induction false} FromCutLeft(fields: seq<Field>, d: seq<Slot>, m: seq<Slot>, i: nat, n: nat, k: nat)
    requires AtFields(fields, d, m, i) && n <= |EncodeFrom(fields, m, i).value| && k < |fields|
    ensures CutLeaves(fields, d, m, i, EncodeFrom(fields, m, i).value, n, k)
    decreases |fields| - i
  {
    hide CutLeaves, AtField, EncodeFrom, WellFormed, MsgFits, AcceptsFrom;
    if i == |fields| {
      NothingToCut(fields, d, m, n, k);
    } else {
      var d', e, more := TakeField(fields, d, m, i);
      if n < |e| {
        CutLeftHere(fields, d, m, i, more, n, k);
      } else {
        FromCutLeft(fields, d', m, i + 1, n - |e|, k);
        CutLeftLater(fields, d, d', m, i, e, more, n, k);
      }
    }
  }

  /**
    pb_decode on a message cut after `n` bytes, whether it reports the cut or not: fields
    that end before the cut are merged, members of fields that begin after it are cleared,
    and the one in between holds its whole entries and what the cut one had already stored.
   */
  lemma TruncationLeaves(fields: seq<Field>, m: seq<Slot>, dest: seq<Slot>, n: nat, k: nat)
    requires WellFormed(fields) && MsgFits(fields, m) && MsgFits(fields, dest) && Terminated(fields, m) && k < |fields|
    requires EncodeMsg(fields, m).Some? && n <= |EncodeMsg(fields, m).value| < TWO32
    ensures var e := EncodeMsg(fields, m).value;
            LeftAt(fields, DecodeLeft(fields, dest, e[..n]), Defaults(fields, dest), m, 0, n, k)
  {
    hide MessageLeft, CutsCleanly, EndOf, Defaults, ClearedSlot, AcceptsSlot, TerminatedSlot, SlotInBounds;
    hide LeftAt, EncodeFrom;
    var d := Defaults(fields, dest);
    DefaultsAreCleared(fields, dest);
    MsgEncodable(fields, m);
    forall i | 0 <= i < |fields| ensures AcceptsSlot(fields[i], d[i], m[i]) {
      assert TerminatedSlot(fields[i], m[i]) && SlotInBounds(fields[i], m[i]) && ClearedSlot(fields[i], d[i]);
      FreshAcceptsSlot(fields[i], d[i], m[i]);
    }
    FromCutLeft(fields, d, m, 0, n, k);
  }
}
