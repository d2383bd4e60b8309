/**
  The speed command: the NavSpeed message, and the setpoint that a datagram makes of it.
  The numbers are raw 64-bit words, as everywhere in the codec.
 */
module NavSpeed {
  import opened Wire
  import opened Schema
  import opened Encoding
  import opened Decoding
  import opened Merging
  import opened RoundTrip
  import opened RequiredBits
  import opened Aftermath
  import opened Truncation
  import opened Sizes
  import opened Decoder

  datatype Setpoint = Setpoint(x: nat, y: nat, w: nat)

  function NavSpeedTable(): seq<Field> {
    [Singular(1, FIXED64, 0, 8), Singular(2, FIXED64, 0, 8), Singular(3, FIXED64, 0, 8),
     HeaderField(4, 0), Singular(5, FIXED64, 0, 8), Singular(6, FIXED64, 0, 8)]
  }

  lemma NavSpeedTableIsWellFormed()
    ensures WellFormed(NavSpeedTable()) && SafeTable(NavSpeedTable()) && PresenceTestable(NavSpeedTable())
  {
    hide WellFormed, SafeTable, NothingToHide, PresenceTestable;
    var t := NavSpeedTable();
    HeaderIsWellFormed();
    assert WellFormedField(t[3]);
    Numbered(t);
  }

  /** rbk_protocol_Message_NavSpeed_init_zero */
  function ZeroSpeed(): seq<Slot> {
    [One(Num(0)), One(Num(0)), One(Num(0)), One(Msg([One(Num(0)), One(Num(0))])), One(Num(0)), One(Num(0))]
  }

  lemma ZeroSpeedFits()
    ensures MsgFits(NavSpeedTable(), ZeroSpeed())
    ensures Defaults(NavSpeedTable(), ZeroSpeed()) == ZeroSpeed()
  {
    var t, z := NavSpeedTable(), ZeroSpeed();
    hide Defaults;
    ZeroHeaderFits(t[3], z[3]);
    forall i | 0 <= i < 6 ensures SlotFits(t[i], z[i]) && DefaultSlot(t[i], z[i]) == z[i] {
    }
    SameDefaults(t, z);
  }

  lemma SameDefaults(fields: seq<Field>, slots: seq<Slot>)
    requires MsgFits(fields, slots)
    requires forall i | 0 <= i < |fields| :: SlotFits(fields[i], slots[i]) && DefaultSlot(fields[i], slots[i]) == slots[i]
    ensures Defaults(fields, slots) == slots
  {
    hide DefaultSlot, SlotFits;
  }

  lemma ZeroHeaderFits(f: Field, slot: Slot)
    requires f == HeaderField(4, 0) && slot == One(Msg([One(Num(0)), One(Num(0))]))
    ensures SlotFits(f, slot) && DefaultSlot(f, slot) == slot
  {
    var h := slot.v.slots;
    assert SlotFits(f.sub[0], h[0]) && SlotFits(f.sub[1], h[1]);
    assert MsgFits(f.sub, h);
    assert SlotFits(f, slot);
    assert Defaults(f.sub, h) == h;
  }

  /** pbMsg.x, pbMsg.y, pbMsg.rotate */
  function SetpointOf(slots: seq<Slot>): Setpoint
    requires MsgFits(NavSpeedTable(), slots)
  {
    var t := NavSpeedTable();
    assert SlotFits(t[0], slots[0]) && SlotFits(t[1], slots[1]) && SlotFits(t[2], slots[2]);
    Setpoint(slots[0].v.n, slots[1].v.n, slots[2].v.n)
  }

  /** The setpoint chassisCmdHandler takes from a datagram, whether that decodes or not. */
  function Received(datagram: seq<byte>): Setpoint {
    NavSpeedTableIsWellFormed();
    ZeroSpeedFits();
    SetpointOf(DecodeLeft(NavSpeedTable(), ZeroSpeed(), datagram))
  }

  lemma ReceivedIsLeft(datagram: seq<byte>)
    ensures WellFormed(NavSpeedTable()) && MsgFits(NavSpeedTable(), ZeroSpeed())
    ensures Received(datagram) == SetpointOf(DecodeLeft(NavSpeedTable(), ZeroSpeed(), datagram))
  {
    NavSpeedTableIsWellFormed();
    ZeroSpeedFits();
  }

  /** The decoding half of chassisCmdHandler. */
  method DecodeSpeed(pbData: seq<byte>) returns (status: bool, pbMsg: Setpoint)
    ensures pbMsg == Received(pbData)
    ensures WellFormed(NavSpeedTable()) && MsgFits(NavSpeedTable(), ZeroSpeed())
    ensures status <==> Decode(NavSpeedTable(), ZeroSpeed(), pbData).Ok?
  {
    hide Decode, DecodeLeft, WellFormed, PresenceTestable, MsgFits, NavSpeedTable, ZeroSpeed, SetpointOf;
    NavSpeedTableIsWellFormed();
    ZeroSpeedFits();
    var stream := new IStream(pbData, 0, |pbData|);
    assert stream.Rest() == pbData;
    var slots;
    status, slots := DecodeFrom(stream, NavSpeedTable(), ZeroSpeed());
    ReceivedIsLeft(pbData);
    pbMsg := SetpointOf(slots);
  }

  // ---------------------------------------------------------------------------
  // Commands cut short
  // ---------------------------------------------------------------------------

  /** Every NavSpeed struct can be encoded, in a few bytes. */
  lemma CommandEncodes(m: seq<Slot>)
    requires WellFormed(NavSpeedTable()) && MsgFits(NavSpeedTable(), m)
    ensures EncodeMsg(NavSpeedTable(), m).Some? && |EncodeMsg(NavSpeedTable(), m).value| < TWO32
    ensures Terminated(NavSpeedTable(), m)
  {
    var t := NavSpeedTable();
    forall i | 0 <= i < |t| ensures SlotInBounds(t[i], m[i]) && TerminatedSlot(t[i], m[i]) {
      assert SlotFits(t[i], m[i]) && WellFormedField(t[i]);
      if i == 3 {
        var h := m[3].v.slots;
        assert WellFormed(t[3].sub) && MsgFits(t[3].sub, h);
        assert SlotFits(t[3].sub[0], h[0]) && SlotFits(t[3].sub[1], h[1]);
      }
    }
    MsgEncodable(t, m);
    MessageBound(t, m, false);
    CommandBound();
  }

  lemma CommandBound()
    ensures MaxSize(NavSpeedTable(), false) < TWO32
  {
    var t := NavSpeedTable();
    HeaderMax(4, 0, false);
    forall i | 0 <= i < 6 && i != 3 ensures SlotMax(t[i], false) == 9 {
      SmallLengths(8 * t[i].tag + 7);
    }
    assert MaxFrom(t, false, 6) == 0;
    assert MaxFrom(t, false, 4) == 18;
    assert MaxFrom(t, false, 2) == 51;
  }

  /** What a cut command leaves in one of the three numbers: its own, or 0. */
  lemma NumberLeft(m: seq<Slot>, r: seq<Slot>, n: nat, k: nat)
    requires WellFormed(NavSpeedTable()) && MsgFits(NavSpeedTable(), m) && MsgFits(NavSpeedTable(), r) && k < 3
    requires MsgFits(NavSpeedTable(), ZeroSpeed()) && LeftAt(NavSpeedTable(), r, ZeroSpeed(), m, 0, n, k)
    ensures SlotFits(NavSpeedTable()[k], m[k]) && WellFormedField(NavSpeedTable()[k])
    ensures r[k] == if EndOf(NavSpeedTable(), m, 0, k) <= n then m[k] else One(Num(0))
    ensures SlotLength(NavSpeedTable()[k], m[k]) == 0 <==> m[k] == One(Num(0))
  {
    hide EndOf, StartOf, EncodeTag, LittleEndian;
    var f := NavSpeedTable()[k];
    assert SlotFits(f, m[k]);
    TagNotEmpty(WireType(f.ltype), f.tag);
  }

  lemma TagNotEmpty(wireType: nat, tag: nat)
    ensures EncodeTag(wireType, tag) != []
  {
  }

  lemma EndsInOrder(m: seq<Slot>)
    requires WellFormed(NavSpeedTable()) && MsgFits(NavSpeedTable(), m)
    requires forall k | 0 <= k < 3 :: SlotFits(NavSpeedTable()[k], m[k]) && WellFormedField(NavSpeedTable()[k])
    ensures EndOf(NavSpeedTable(), m, 0, 0) == SlotLength(NavSpeedTable()[0], m[0])
    ensures EndOf(NavSpeedTable(), m, 0, 1) == EndOf(NavSpeedTable(), m, 0, 0) + SlotLength(NavSpeedTable()[1], m[1])
    ensures EndOf(NavSpeedTable(), m, 0, 2) == EndOf(NavSpeedTable(), m, 0, 1) + SlotLength(NavSpeedTable()[2], m[2])
  {
    hide SlotLength;
    var t := NavSpeedTable();
    assert EndOf(t, m, 1, 0) == 0 && EndOf(t, m, 2, 1) == 0 && EndOf(t, m, 3, 2) == 0;
    assert EndOf(t, m, 1, 1) == SlotLength(t[1], m[1]) && EndOf(t, m, 2, 2) == SlotLength(t[2], m[2]);
    assert EndOf(t, m, 1, 2) == SlotLength(t[1], m[1]) + EndOf(t, m, 2, 2);
  }

  /**
    Every command m, cut after n bytes: the handler takes m's setpoint from it if and only if
    the cut comes after the last byte of the third number. Otherwise it takes another one,
    with zeros for the numbers that are not there in full; in no case does it take none.
   */
  lemma CutCommandExactly(m: seq<Slot>, n: nat)
    requires WellFormed(NavSpeedTable()) && MsgFits(NavSpeedTable(), m)
    requires EncodeMsg(NavSpeedTable(), m).Some? && n <= |EncodeMsg(NavSpeedTable(), m).value|
    ensures Received(EncodeMsg(NavSpeedTable(), m).value[..n]) == SetpointOf(m)
            <==> EndOf(NavSpeedTable(), m, 0, 2) <= n
  {
    var t := NavSpeedTable();
    var cut := EncodeMsg(t, m).value[..n];
    CommandEncodes(m);
    ZeroSpeedFits();
    ReceivedIsLeft(cut);
    var r := DecodeLeft(t, ZeroSpeed(), cut);
    hide NavSpeedTable, EncodeMsg, DecodeLeft, LeftAt, EndOf, SlotLength, Received, Defaults, Terminated;
    forall k | 0 <= k < 3
      ensures SlotFits(t[k], m[k]) && WellFormedField(t[k])
      ensures r[k] == if EndOf(t, m, 0, k) <= n then m[k] else One(Num(0))
      ensures SlotLength(t[k], m[k]) == 0 <==> m[k] == One(Num(0))
    {
      TableSize();
      TruncationLeaves(t, m, ZeroSpeed(), n, k);
      NumberLeft(m, r, n, k);
    }
    EndsInOrder(m);
    SetpointParts(m);
    SetpointParts(r);
  }

  lemma TableSize()
    ensures |NavSpeedTable()| == 6
  {
  }

  lemma SetpointParts(slots: seq<Slot>)
    requires MsgFits(NavSpeedTable(), slots)
    ensures |slots| == 6 && forall k | 0 <= k < 3 :: slots[k].One? && slots[k].v.Num?
    ensures SetpointOf(slots) == Setpoint(slots[0].v.n, slots[1].v.n, slots[2].v.n)
  {
    var t := NavSpeedTable();
    assert SlotFits(t[0], slots[0]) && SlotFits(t[1], slots[1]) && SlotFits(t[2], slots[2]);
  }

  /** A datagram that does not decode: x, and then the tag of y with nothing behind it. */
  function BrokenDatagram(v: nat): seq<byte> {
    [0x09] + LittleEndian(v, 8) + [0x11]
  }

  /** It fails, and still it is a setpoint: x as sent, and zeros. */
  lemma BrokenDatagramIsTaken(v: nat)
    requires v < TWO64
    ensures WellFormed(NavSpeedTable()) && MsgFits(NavSpeedTable(), ZeroSpeed())
    ensures Decode(NavSpeedTable(), ZeroSpeed(), BrokenDatagram(v)).Err?
    ensures Received(BrokenDatagram(v)) == Setpoint(v, 0, 0)
  {
    var t, z := NavSpeedTable(), ZeroSpeed();
    NavSpeedTableIsWellFormed();
    ZeroSpeedFits();
    var z1 := z[0 := One(Num(v))];
    FirstWord(v, z, z1);
    WordMissing(z1);
    SetpointParts(z1);
    hide NavSpeedTable, ZeroSpeed, SetpointOf, DecodeLoop, MessageLeft, Defaults, WellFormed, MsgFits, BrokenDatagram;
    ReceivedIsLeft(BrokenDatagram(v));
  }

  /** The first number of the datagram is stored, and the second tag is what is left. */
  lemma FirstWord(v: nat, z: seq<Slot>, z1: seq<Slot>)
    requires v < TWO64 && WellFormed(NavSpeedTable()) && MsgFits(NavSpeedTable(), z)
    requires z1 == z[0 := One(Num(v))]
    ensures MsgFits(NavSpeedTable(), z1)
    ensures DecodeLoop(NavSpeedTable(), z, {}, BrokenDatagram(v)) == DecodeLoop(NavSpeedTable(), z1, {}, [0x11])
    ensures MessageLeft(NavSpeedTable(), z, BrokenDatagram(v)) == MessageLeft(NavSpeedTable(), z1, [0x11])
  {
    var t := NavSpeedTable();
    var word := LittleEndian(v, 8);
    assert SlotFits(t[0], z[0]) && WellFormedField(t[0]);
    TagBytes();
    assert BrokenDatagram(v) == EncodeTag(WT_64BIT, 1) + (word + [0x11]);
    NumberSlot(t[0], v, z[0], [0x11]);
    hide LittleEndian, DecodeLoop, MessageLeft, DecodeSlot, SlotLeft, EncodeTag;
    KnownTurn(t, z, {}, 0, WT_64BIT, word + [0x11]);
    KnownTurnLeft(t, z, 0, WT_64BIT, word + [0x11]);
    SlotAgrees(t[0], z[0], WT_64BIT, word + [0x11]);
    assert {} + Seen(t[0], 0) == {};
  }

  lemma TagBytes()
    ensures EncodeTag(WT_64BIT, 1) == [0x09] && EncodeTag(WT_64BIT, 2) == [0x11]
  {
  }

  lemma WordMissingSlot(slot: Slot)
    requires WellFormedField(NavSpeedTable()[1]) && SlotFits(NavSpeedTable()[1], slot)
    ensures DecodeSlot(NavSpeedTable()[1], slot, WT_64BIT, []).Err?
    ensures SlotLeft(NavSpeedTable()[1], slot, WT_64BIT, []) == slot
  {
    hide FromLittleEndian;
  }

  lemma WordMissing(z1: seq<Slot>)
    requires WellFormed(NavSpeedTable()) && MsgFits(NavSpeedTable(), z1)
    ensures DecodeLoop(NavSpeedTable(), z1, {}, [0x11]).Fail?
    ensures MessageLeft(NavSpeedTable(), z1, [0x11]) == z1
  {
    hide DecodeLoop, MessageLeft;
    var t := NavSpeedTable();
    assert SlotFits(t[1], z1[1]) && WellFormedField(t[1]);
    assert EncodeTag(WT_64BIT, 2) + [] == [0x11];
    KnownTurn(t, z1, {}, 1, WT_64BIT, []);
    KnownTurnLeft(t, z1, 1, WT_64BIT, []);
    WordMissingSlot(z1[1]);
  }

  // ---------------------------------------------------------------------------
  // Whole commands
  // ---------------------------------------------------------------------------

  /** The three numbers of a setpoint as a sender writes them, each under its own tag. */
  function PlainDatagram(x: nat, y: nat, w: nat): seq<byte> {
    [0x09] + LittleEndian(x, 8) + ([0x11] + LittleEndian(y, 8) + ([0x19] + LittleEndian(w, 8)))
  }

  /** It becomes that setpoint, number by number. */
  lemma PlainDatagramIsTaken(x: nat, y: nat, w: nat)
    requires x < TWO64 && y < TWO64 && w < TWO64
    ensures Received(PlainDatagram(x, y, w)) == Setpoint(x, y, w)
  {
    NavSpeedTableIsWellFormed();
    ZeroSpeedFits();
    var t, z := NavSpeedTable(), ZeroSpeed();
    var z1 := z[0 := One(Num(x))];
    var z2 := z1[1 := One(Num(y))];
    var z3 := z2[2 := One(Num(w))];
    var third := [0x19] + LittleEndian(w, 8);
    var second := [0x11] + LittleEndian(y, 8) + third;
    NumberFields();
    assert third + [] == third;
    hide NavSpeedTable, ZeroSpeed, IsNumber, SetpointOf, MessageLeft, Defaults, WellFormed, MsgFits, LittleEndian;
    NumberTaken(t, 0, x, z, second);
    NumberTaken(t, 1, y, z1, third);
    NumberTaken(t, 2, w, z2, []);
    NothingMore(z3);
    ReceivedIsLeft(PlainDatagram(x, y, w));
    SetpointParts(z3);
  }

  lemma NothingMore(z: seq<Slot>)
    requires WellFormed(NavSpeedTable()) && MsgFits(NavSpeedTable(), z)
    ensures MessageLeft(NavSpeedTable(), z, []) == z
  {
  }

  /** The fields of the three numbers. */
  predicate IsNumber(f: Field, tag: nat) {
    f.tag == tag && f.ltype.FIXED64? && !f.htype.REPEATED? && !f.HasFlag()
  }

  lemma NumberFields()
    ensures |NavSpeedTable()| == 6 && forall i | 0 <= i < 3 :: IsNumber(NavSpeedTable()[i], i + 1)
  {
  }

  /** One number in front of more bytes is stored in its member. */
  lemma NumberTaken(fields: seq<Field>, i: nat, v: nat, z: seq<Slot>, more: seq<byte>)
    requires WellFormed(fields) && MsgFits(fields, z) && i < |fields| && i < 3 && IsNumber(fields[i], i + 1) && v < TWO64
    ensures MsgFits(fields, z[i := One(Num(v))])
    ensures MessageLeft(fields, z, [8 * i + 9] + LittleEndian(v, 8) + more)
            == MessageLeft(fields, z[i := One(Num(v))], more)
  {
    var f := fields[i];
    var word := LittleEndian(v, 8);
    assert SlotFits(f, z[i]) && WellFormedField(f);
    TagByte(i);
    assert [8 * i + 9] + word + more == EncodeTag(WT_64BIT, i + 1) + (word + more);
    NumberSlot(f, v, z[i], more);
    assert SlotFits(f, One(Num(v)));
    hide LittleEndian, MessageLeft, DecodeSlot, SlotLeft, EncodeTag, SlotFits, WellFormedField, WellFormed;
    KnownTurnLeft(fields, z, i, WT_64BIT, word + more);
    SlotAgrees(f, z[i], WT_64BIT, word + more);
  }

  lemma NumberSlot(f: Field, v: nat, slot: Slot, more: seq<byte>)
    requires WellFormedField(f) && SlotFits(f, slot) && IsNumber(f, f.tag) && v < TWO64
    ensures DecodeSlot(f, slot, WT_64BIT, LittleEndian(v, 8) + more) == Ok(One(Num(v)), more)
  {
    var word := LittleEndian(v, 8);
    hide LittleEndian, FromLittleEndian;
    Exp256Values();
    FixedRoundTrip(v, 8);
    assert (word + more)[..8] == word && (word + more)[8..] == more;
  }

  lemma TagByte(i: nat)
    requires i < 3
    ensures EncodeTag(WT_64BIT, i + 1) == [8 * i + 9]
  {
  }
}
