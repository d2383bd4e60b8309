/**
  How long an encoding can get, read off the table alone, and what that means for the
  three reports this board sends.
 */
module Sizes {
  import opened Wire
  import opened Schema
  import opened Encoding
  import opened FieldIteration
  import opened RoundTrip
  import opened RequiredBits
  import Decoding

  function VarintLength(v: nat): nat {
    |EncodeVarint(v)|
  }

  /** The longest entry of a field that is not a submessage. With `bools`, one-byte VARINT members are C bools. */
  function ScalarMax(f: Field, bools: bool): nat {
    match f.ltype
    case VARINT => if bools && f.dataSize == 1 then 1 else 10
    case UVARINT => if f.dataSize == 8 then 10 else if f.dataSize == 4 then 5 else if f.dataSize == 2 then 3 else 2
    case SVARINT => if f.dataSize == 8 then 10 else if f.dataSize == 4 then 5 else if f.dataSize == 2 then 3 else 2
    case FIXED32 => 4
    case FIXED64 => 8
    case BYTES => VarintLength(f.dataSize) + f.dataSize
    case STRING => VarintLength(f.dataSize) + f.dataSize
    case SUBMESSAGE => 0
  }

  function ValueMax(f: Field, bools: bool): nat
    decreases f, 0
  {
    if f.ltype.SUBMESSAGE? then VarintLength(MaxSize(f.sub, bools)) + MaxSize(f.sub, bools) else ScalarMax(f, bools)
  }

  function SlotMax(f: Field, bools: bool): nat
    decreases f, 1
  {
    var tag := VarintLength(8 * f.tag + 7);
    if !f.htype.REPEATED? then tag + ValueMax(f, bools)
    else if f.Packable() then tag + VarintLength(f.arraySize * ScalarMax(f, bools)) + f.arraySize * ScalarMax(f, bools)
    else f.arraySize * (tag + ValueMax(f, bools))
  }

  function MaxFrom(fields: seq<Field>, bools: bool, i: nat): nat
    requires i <= |fields|
    decreases fields, 2, |fields| - i
  {
    if i == |fields| then 0 else SlotMax(fields[i], bools) + MaxFrom(fields, bools, i + 1)
  }

  function MaxSize(fields: seq<Field>, bools: bool): nat
    decreases fields, 3
  {
    MaxFrom(fields, bools, 0)
  }

  /** Every BOOL member holds 0 or 1, as a C bool does. */
  ghost predicate BoolsHold(f: Field, v: Value)
    requires WellFormedField(f) && ValueFits(f, v)
    decreases f, 0
  {
    match v
    case Num(n) => f.ltype.VARINT? && f.dataSize == 1 ==> 0 <= n <= 1
    case Blob(_, _) => true
    case Text(_) => true
    case Msg(slots) =>
      assert WellFormed(f.sub) && MsgFits(f.sub, slots);
      forall i | 0 <= i < |f.sub| :: SlotBoolsHold(f.sub[i], slots[i])
  }

  ghost predicate SlotBoolsHold(f: Field, slot: Slot)
    requires WellFormedField(f) && SlotFits(f, slot)
    decreases f, 1
  {
    if slot.Many? then forall k | 0 <= k < |slot.items| :: BoolsHold(f, slot.items[k]) else BoolsHold(f, slot.v)
  }

  ghost predicate MsgBoolsHold(fields: seq<Field>, slots: seq<Slot>)
    requires WellFormed(fields) && MsgFits(fields, slots)
  {
    forall i | 0 <= i < |fields| :: SlotBoolsHold(fields[i], slots[i])
  }

  // ---------------------------------------------------------------------------
  // The bound holds
  // ---------------------------------------------------------------------------

  lemma {:induction false} LengthMonotone(a: nat, b: nat)
    requires a <= b
    ensures VarintLength(a) <= VarintLength(b)
    decreases b
  {
    if a > 0x7F { LengthMonotone(a / 0x80, b / 0x80); }
  }

  lemma SmallLengths(v: nat)
    ensures v < 0x80 ==> VarintLength(v) == 1
    ensures v < 0x4000 ==> VarintLength(v) <= 2
    ensures v < 0x20_0000 ==> VarintLength(v) <= 3
  {
    assert Exp128(1) == 0x80 * Exp128(0);
    assert Exp128(2) == 0x80 * Exp128(1);
    assert Exp128(3) == 0x80 * Exp128(2);
    if v < 0x4000 { VarintSize(v, 2); }
    if v < 0x20_0000 { VarintSize(v, 3); }
  }

  lemma ScalarBound(f: Field, v: Value, bools: bool)
    requires WellFormedField(f) && ValueFits(f, v) && !f.ltype.SUBMESSAGE? && (bools ==> BoolsHold(f, v))
    requires EncodeScalar(f, v).Some?
    ensures |EncodeScalar(f, v).value| <= ScalarMax(f, bools)
  {
    match f.ltype
    case VARINT =>
      Varint64Size(ToUnsigned64(v.n));
    case UVARINT =>
      Varint64Size(v.n);
      SmallLengths(v.n);
    case SVARINT =>
      ZigZagRoundTrip(v.n);
      Varint64Size(ZigZag(v.n));
      SmallLengths(ZigZag(v.n));
    case FIXED32 =>
    case FIXED64 =>
    case BYTES =>
      LengthMonotone(v.size, f.dataSize);
    case STRING =>
      LengthMonotone(|CString(v.buf)|, f.dataSize);
  }

  lemma {:induction false} ValueBound(f: Field, v: Value, bools: bool)
    requires WellFormedField(f) && ValueFits(f, v) && (bools ==> BoolsHold(f, v)) && EncodeValue(f, v).Some?
    ensures |EncodeValue(f, v).value| <= ValueMax(f, bools)
    decreases f, 0
  {
    if f.ltype.SUBMESSAGE? {
      MessageBound(f.sub, v.slots, bools);
      LengthMonotone(|EncodeMsg(f.sub, v.slots).value|, MaxSize(f.sub, bools));
    } else {
      ScalarBound(f, v, bools);
    }
  }

  lemma {:induction false} TaggedBound(f: Field, v: Value, bools: bool)
    requires WellFormedField(f) && ValueFits(f, v) && (bools ==> BoolsHold(f, v)) && EncodeTagged(f, v).Some?
    ensures |EncodeTagged(f, v).value| <= VarintLength(8 * f.tag + 7) + ValueMax(f, bools)
    decreases f, 1
  {
    ValueBound(f, v, bools);
    LengthMonotone(8 * f.tag + WireType(f.ltype), 8 * f.tag + 7);
  }

  lemma OneMore(n: nat, c: nat)
    requires 0 < n
    ensures n * c == c + (n - 1) * c
  {
  }

  lemma {:induction false} PackedBound(f: Field, vs: seq<Value>, bools: bool)
    requires WellFormedField(f) && AllFit(f, vs) && f.Packable() && EncodePacked(f, vs).Some?
    requires bools ==> forall k | 0 <= k < |vs| :: BoolsHold(f, vs[k])
    ensures |EncodePacked(f, vs).value| <= |vs| * ScalarMax(f, bools)
    decreases |vs|
  {
    hide ScalarMax, EncodeScalar;
    if vs != [] {
      ScalarBound(f, vs[0], bools);
      PackedBound(f, vs[1..], bools);
      OneMore(|vs|, ScalarMax(f, bools));
    }
  }

  lemma {:induction false} EachBound(f: Field, vs: seq<Value>, bools: bool)
    requires WellFormedField(f) && AllFit(f, vs) && EncodeEach(f, vs).Some?
    requires bools ==> forall k | 0 <= k < |vs| :: BoolsHold(f, vs[k])
    ensures |EncodeEach(f, vs).value| <= |vs| * (VarintLength(8 * f.tag + 7) + ValueMax(f, bools))
    decreases f, 2, |vs|
  {
    hide EncodeTagged, ValueMax;
    if vs != [] {
      TaggedBound(f, vs[0], bools);
      EachBound(f, vs[1..], bools);
      OneMore(|vs|, VarintLength(8 * f.tag + 7) + ValueMax(f, bools));
    }
  }

  lemma TimesMonotone(a: nat, b: nat, c: nat)
    requires a <= b
    ensures a * c <= b * c
  {
  }

  lemma {:induction false} SlotBound(f: Field, slot: Slot, bools: bool)
    requires WellFormedField(f) && SlotFits(f, slot) && (bools ==> SlotBoolsHold(f, slot)) && EncodeSlot(f, slot).Some?
    ensures |EncodeSlot(f, slot).value| <= SlotMax(f, bools)
    decreases f, 3
  {
    if slot.Many? {
      if slot.count > 0 {
        var vs := slot.items[..slot.count];
        if f.Packable() {
          PackedBound(f, vs, bools);
          TimesMonotone(slot.count, f.arraySize, ScalarMax(f, bools));
          LengthMonotone(|EncodePacked(f, vs).value|, f.arraySize * ScalarMax(f, bools));
          LengthMonotone(8 * f.tag + WT_STRING, 8 * f.tag + 7);
        } else {
          EachBound(f, vs, bools);
          TimesMonotone(slot.count, f.arraySize, VarintLength(8 * f.tag + 7) + ValueMax(f, bools));
        }
      }
    } else if EncodeSlot(f, slot).value != [] {
      TaggedBound(f, slot.v, bools);
    }
  }

  lemma {:induction false} FromBound(fields: seq<Field>, m: seq<Slot>, bools: bool, i: nat)
    requires WellFormed(fields) && MsgFits(fields, m) && i <= |fields| && (bools ==> MsgBoolsHold(fields, m))
    requires EncodeFrom(fields, m, i).Some?
    ensures |EncodeFrom(fields, m, i).value| <= MaxFrom(fields, bools, i)
    decreases fields, 4, |fields| - i
  {
    if i < |fields| {
      SlotBound(fields[i], m[i], bools);
      FromBound(fields, m, bools, i + 1);
    }
  }

  /** No struct of a table encodes to more bytes than the table's bound; where bools are bools, than the sharper one. */
  lemma {:induction false} MessageBound(fields: seq<Field>, m: seq<Slot>, bools: bool)
    requires WellFormed(fields) && MsgFits(fields, m) && (bools ==> MsgBoolsHold(fields, m))
             && EncodeMsg(fields, m).Some?
    ensures |EncodeMsg(fields, m).value| <= MaxSize(fields, bools)
    decreases fields, 5
  {
    FromBound(fields, m, bools, 0);
  }

  // ---------------------------------------------------------------------------
  // The reports of this board
  // ---------------------------------------------------------------------------

  /** A SINGULAR STATIC member, `pad` bytes after the previous one. */
  function Singular(tag: nat, ltype: LType, pad: int, size: nat): Field {
    Field(tag, OPTIONAL, ltype, pad, 0, size, 0, [])
  }

  function HeaderTable(): seq<Field> {
    [Singular(1, UVARINT, 0, 8), Singular(2, UVARINT, 0, 8)]
  }

  function HeaderField(tag: nat, pad: int): Field {
    Field(tag, OPTIONAL, SUBMESSAGE, pad, 0, 16, 0, HeaderTable())
  }

  function OdometerTable(): seq<Field> {
    [HeaderField(1, 0), Singular(2, UVARINT, 0, 4),
     Singular(3, FIXED64, 4, 8), Singular(4, FIXED64, 0, 8), Singular(5, FIXED64, 0, 8),
     Singular(6, VARINT, 0, 1),
     Singular(7, FIXED64, 7, 8), Singular(8, FIXED64, 0, 8), Singular(9, FIXED64, 0, 8),
     Field(10, REPEATED, VARINT, 4, -4, 4, 4, []),
     Singular(11, FIXED64, 4, 8), Singular(12, FIXED64, 0, 8)]
  }

  /** Where the members of the odometer struct lie: steer_angle is behind four encoder entries and padding. */
  lemma OdometerLayout(i: nat)
    requires i < 12
    ensures OffsetOf(OdometerTable(), i) == [0, 16, 24, 32, 40, 48, 56, 64, 72, 84, 104, 112][i]
    ensures i == 9 ==> OffsetOf(OdometerTable(), i) + OdometerTable()[i].sizeOffset == 80
  {
    var t := OdometerTable();
    assert OffsetOf(t, 2) == 24;
    assert OffsetOf(t, 4) == 40;
    assert OffsetOf(t, 6) == 56;
    assert OffsetOf(t, 8) == 72;
    assert OffsetOf(t, 10) == 104;
  }

  function ImuTable(): seq<Field> {
    [HeaderField(1, 0),
     Singular(2, FIXED64, 0, 8), Singular(3, FIXED64, 0, 8), Singular(4, FIXED64, 0, 8),
     Singular(5, FIXED64, 0, 8), Singular(6, FIXED64, 0, 8), Singular(7, FIXED64, 0, 8),
     Singular(8, FIXED64, 0, 8), Singular(9, FIXED64, 0, 8), Singular(10, FIXED64, 0, 8),
     Singular(11, VARINT, 0, 4), Singular(12, VARINT, 0, 4), Singular(13, VARINT, 0, 4)]
  }

  function ControllerTable(): seq<Field> {
    [Singular(1, FIXED64, 0, 8), Singular(2, FIXED64, 0, 8), Singular(3, FIXED64, 0, 8),
     Singular(4, VARINT, 0, 1), Singular(5, VARINT, 0, 1), Singular(6, VARINT, 0, 1),
     Singular(7, VARINT, 0, 1), Singular(8, VARINT, 0, 1), Singular(9, VARINT, 0, 1)]
  }

  /** CReporter_base::TRANS_BUFF_LEN less the four-byte head. */
  const REPORT_ROOM: nat := 300 - 4

  lemma {:induction false} NoneRequired(fields: seq<Field>)
    requires forall i | 0 <= i < |fields| :: !fields[i].htype.REQUIRED?
    ensures RequiredCount(fields) == 0
    decreases |fields|
  {
    if fields != [] { NoneRequired(fields[..|fields| - 1]); }
  }

  /** Tables numbered 1, 2, 3, ... without required fields. */
  lemma Numbered(t: seq<Field>)
    requires forall i | 0 <= i < |t| :: t[i].tag == i + 1 && !t[i].htype.REQUIRED? && WellFormedField(t[i])
    requires forall i | 0 <= i < |t| :: t[i].ltype.SUBMESSAGE? ==> t[i].sub == HeaderTable()
    ensures WellFormed(t) && SafeTable(t) && PresenceTestable(t)
  {
    hide WellFormedField, HeaderTable;
    NoneRequired(t);
    HeaderIsWellFormed();
  }

  lemma HeaderIsWellFormed()
    ensures WellFormed(HeaderTable()) && NothingToHide(HeaderTable()) && SafeTable(HeaderTable())
    ensures PresenceTestable(HeaderTable())
  {
    NoneRequired(HeaderTable());
  }

  lemma HeaderSize(bools: bool)
    ensures MaxSize(HeaderTable(), bools) == 22
  {
    var t := HeaderTable();
    SmallLengths(15);
    SmallLengths(23);
    assert SlotMax(t[0], bools) == 11 && SlotMax(t[1], bools) == 11;
    assert MaxFrom(t, bools, 2) == 0;
    assert MaxFrom(t, bools, 1) == 11;
  }

  lemma SingularMax(tag: nat, ltype: LType, pad: int, size: nat)
    requires tag < 15 && !ltype.SUBMESSAGE?
    ensures var f := Singular(tag, ltype, pad, size); SlotMax(f, true) == 1 + ScalarMax(f, true)
  {
    SmallLengths(8 * tag + 7);
  }

  lemma HeaderMax(tag: nat, pad: int, bools: bool)
    requires tag < 15
    ensures SlotMax(HeaderField(tag, pad), bools) == 24
  {
    hide MaxSize;
    var f := HeaderField(tag, pad);
    HeaderSize(bools);
    SmallLengths(22);
    SmallLengths(8 * tag + 7);
    assert ValueMax(f, bools) == 23;
  }

  lemma OdometerTableIsWellFormed()
    ensures WellFormed(OdometerTable()) && SafeTable(OdometerTable())
  {
    hide WellFormed, SafeTable, NothingToHide;
    var t := OdometerTable();
    HeaderIsWellFormed();
    assert WellFormedField(t[0]);
    Numbered(t);
  }

  lemma OdometerTableBound()
    ensures MaxSize(OdometerTable(), true) == 146
  {
    var t := OdometerTable();
    HeaderMax(1, 0, true);
    SmallLengths(87);
    SmallLengths(40);
    assert SlotMax(t[9], true) == 42;
    forall i | 0 < i < 12 && i != 9 ensures SlotMax(t[i], true) == 1 + ScalarMax(t[i], true) {
      SingularMax(t[i].tag, t[i].ltype, t[i].dataOffset, t[i].dataSize);
    }
    assert MaxFrom(t, true, 12) == 0;
    assert MaxFrom(t, true, 10) == 18;
    assert MaxFrom(t, true, 9) == 60;
    assert MaxFrom(t, true, 7) == 78;
    assert MaxFrom(t, true, 5) == 89;
    assert MaxFrom(t, true, 3) == 107;
    assert MaxFrom(t, true, 1) == 122;
  }

  lemma ImuTableIsWellFormed()
    ensures WellFormed(ImuTable()) && SafeTable(ImuTable())
  {
    hide WellFormed, SafeTable, NothingToHide;
    var t := ImuTable();
    HeaderIsWellFormed();
    assert WellFormedField(t[0]);
    Numbered(t);
  }

  lemma ImuTableBound()
    ensures MaxSize(ImuTable(), true) == 138
  {
    var t := ImuTable();
    HeaderMax(1, 0, true);
    forall i | 0 < i < 13 ensures SlotMax(t[i], true) == 1 + ScalarMax(t[i], true) {
      SingularMax(t[i].tag, t[i].ltype, t[i].dataOffset, t[i].dataSize);
    }
    assert MaxFrom(t, true, 13) == 0;
    assert MaxFrom(t, true, 11) == 22;
    assert MaxFrom(t, true, 9) == 42;
    assert MaxFrom(t, true, 7) == 60;
    assert MaxFrom(t, true, 5) == 78;
    assert MaxFrom(t, true, 3) == 96;
    assert MaxFrom(t, true, 1) == 114;
  }

  lemma ControllerTableIsWellFormed()
    ensures WellFormed(ControllerTable()) && SafeTable(ControllerTable())
  {
    hide WellFormed, SafeTable, NothingToHide;
    var t := ControllerTable();
    Numbered(t);
  }

  lemma ControllerTableBound()
    ensures MaxSize(ControllerTable(), true) == 39
  {
    var t := ControllerTable();
    forall i | 0 <= i < 9 ensures SlotMax(t[i], true) == if i < 3 then 9 else 2 {
      SingularMax(t[i].tag, t[i].ltype, t[i].dataOffset, t[i].dataSize);
    }
    hide SlotMax;
    assert MaxFrom(t, true, 9) == 0;
    assert MaxFrom(t, true, 7) == 4;
    assert MaxFrom(t, true, 5) == 8;
    assert MaxFrom(t, true, 3) == 12;
    assert MaxFrom(t, true, 1) == 30;
  }

  /** The tables of the three reports. */
  ghost predicate IsReportTable(t: seq<Field>) {
    t == OdometerTable() || t == ImuTable() || t == ControllerTable()
  }

  /**
    Every report encodes, stays below the size its generated header declares (148, 138 and
    39 bytes) and so below the room left in the transmit buffer, and decodes to itself.
   */
  lemma ReportsFit(t: seq<Field>, m: seq<Slot>, dest: seq<Slot>)
    requires IsReportTable(t)
    requires MsgFits(t, m) && MsgFits(t, dest) && WellFormed(t)
    requires MsgInBounds(t, m) && MsgBoolsHold(t, m) && Terminated(t, m)
    ensures EncodeMsg(t, m).Some?
    ensures |EncodeMsg(t, m).value| <= REPORT_ROOM <= 296
    ensures t == OdometerTable() ==> |EncodeMsg(t, m).value| <= 148
    ensures t == ImuTable() ==> |EncodeMsg(t, m).value| <= 138
    ensures t == ControllerTable() ==> |EncodeMsg(t, m).value| <= 39
    ensures var r := Decoding.Decode(t, dest, EncodeMsg(t, m).value); r.Ok? && SameMsg(t, r.value, m)
  {
    hide OdometerTable, ImuTable, ControllerTable, EncodeMsg, Decoding.Decode, MaxSize;
    OdometerTableIsWellFormed();
    OdometerTableBound();
    ImuTableIsWellFormed();
    ImuTableBound();
    ControllerTableIsWellFormed();
    ControllerTableBound();
    MsgEncodable(t, m);
    MessageBound(t, m, true);
    RoundTripSafe(t, m, dest);
  }
}
