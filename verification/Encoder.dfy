/**
  pb_encode over its output streams.

  A stream either writes into a byte array or only counts (PB_OSTREAM_SIZING). Every
  method is tied to the bytes of Encoding.dfy by Emits: it succeeds exactly when there are
  such bytes and they fit, then it has put down exactly those bytes, and in any case it has
  left alone what was written before it and what lies beyond the stream.
 */
module Encoder {
  import opened Wire
  import opened Schema
  import opened Encoding
  import opened FieldIteration

  // ---------------------------------------------------------------------------
  // The effect of writing
  // ---------------------------------------------------------------------------

  /** A stream and the memory behind it at one moment. */
  datatype Snapshot = Snapshot(sizing: bool, base: nat, maxSize: nat, written: nat, mem: seq<byte>) {
    predicate Valid() {
      !sizing ==> written <= maxSize && base + maxSize <= |mem|
    }
  }

  /** From `a` to `b` by an operation whose bytes are `enc`, which reported `ok`. */
  ghost predicate Emits(a: Snapshot, b: Snapshot, ok: bool, enc: Option<seq<byte>>) {
    && a.Valid() && b.Valid()
    && b.sizing == a.sizing && b.base == a.base && b.maxSize == a.maxSize && |b.mem| == |a.mem|
    && (ok <==> enc.Some? && (a.sizing || a.written + |enc.value| <= a.maxSize))
    && (ok ==> b.written == a.written + |enc.value|)
    && (a.sizing ==> b.mem == a.mem)
    && (!a.sizing ==>
          var at := a.base + a.written;
          && a.written <= b.written
          && b.mem[..at] == a.mem[..at]
          && b.mem[a.base + a.maxSize..] == a.mem[a.base + a.maxSize..]
          && (ok ==> b.mem == a.mem[..at] + enc.value + a.mem[at + |enc.value|..]))
  }

  lemma EmitsNothing(a: Snapshot)
    requires a.Valid()
    ensures Emits(a, a, true, Some([]))
  {
    if !a.sizing {
      var at := a.base + a.written;
      assert a.mem == a.mem[..at] + [] + a.mem[at..];
    }
  }

  lemma EmitsFull(a: Snapshot, bs: seq<byte>)
    requires a.Valid() && !a.sizing && a.written + |bs| > a.maxSize
    ensures Emits(a, a, false, Some(bs))
  {
  }

  /** What an operation on its own counting stream, or on a stream with just enough room, reports. */
  lemma EmitsOutcome(a: Snapshot, b: Snapshot, ok: bool, enc: Option<seq<byte>>)
    requires Emits(a, b, ok, enc)
    ensures a.sizing ==> (ok <==> enc.Some?)
    ensures enc.Some? && (a.sizing || a.written + |enc.value| <= a.maxSize) ==>
              ok && b.written == a.written + |enc.value|
  {
  }

  lemma EmitsError(a: Snapshot)
    requires a.Valid()
    ensures Emits(a, a, false, None)
  {
  }

  /** One write after another. */
  lemma EmitsThen(
    a: Snapshot, b: Snapshot, c: Snapshot, ok: bool, e1: Option<seq<byte>>, e2: Option<seq<byte>>)
    requires Emits(a, b, true, e1) && Emits(b, c, ok, e2)
    ensures Emits(a, c, ok, Cat(e1, e2))
  {
    if !a.sizing {
      var at, mid := a.base + a.written, b.base + b.written;
      assert c.mem[..at] == c.mem[..mid][..at] == b.mem[..at];
      if ok {
        assert b.mem[..mid] == a.mem[..at] + e1.value;
        assert b.mem[mid + |e2.value|..] == a.mem[mid + |e2.value|..];
        assert c.mem == a.mem[..at] + (e1.value + e2.value) + a.mem[mid + |e2.value|..];
      }
    }
  }

  /** A write that failed, with more to come that is not attempted. */
  lemma EmitsFailure(a: Snapshot, b: Snapshot, e1: Option<seq<byte>>, e2: Option<seq<byte>>)
    requires Emits(a, b, false, e1)
    ensures Emits(a, b, false, Cat(e1, e2))
  {
  }

  /** A substream of exactly the right size, opened where `a` stands, is a write to `a`. */
  lemma SubstreamEmits(a: Snapshot, u: Snapshot, v: Snapshot, bs: seq<byte>)
    requires a.Valid() && !a.sizing && a.written + |bs| <= a.maxSize
    requires u == Snapshot(false, a.base + a.written, |bs|, 0, a.mem) && Emits(u, v, true, Some(bs))
    ensures Emits(a, Snapshot(false, a.base, a.maxSize, a.written + |bs|, v.mem), true, Some(bs))
  {
    var at, end := a.base + a.written, a.base + a.maxSize;
    assert v.mem == a.mem[..at] + bs + a.mem[at + |bs|..];
    assert v.mem[end..] == a.mem[end..];
  }

  // ---------------------------------------------------------------------------
  // Streams
  // ---------------------------------------------------------------------------

  class OStream {
    const sizing: bool
    const buf: array<byte>
    const maxSize: nat
    ghost const base: nat
    var state: nat
    var bytesWritten: nat

    ghost predicate Valid()
      reads this
    {
      !sizing ==> state == base + bytesWritten && bytesWritten <= maxSize && base + maxSize <= buf.Length
    }

    ghost function Snap(): (s: Snapshot)
      requires Valid()
      reads this, buf
      ensures s.Valid()
    {
      Snapshot(sizing, base, maxSize, bytesWritten, buf[..])
    }

    /** PB_OSTREAM_SIZING */
    constructor Sizing()
      ensures Valid() && sizing && bytesWritten == 0 && fresh(buf)
    {
      sizing := true;
      buf := new byte[0];
      maxSize := 0;
      base := 0;
      state := 0;
      bytesWritten := 0;
    }

    /** A stream of `room` bytes that writes into `mem` from index `at` on. */
    constructor OnBuffer(mem: array<byte>, at: nat, room: nat)
      requires at + room <= mem.Length
      ensures Valid() && !sizing && buf == mem && base == at && maxSize == room && bytesWritten == 0
    {
      sizing := false;
      buf := mem;
      maxSize := room;
      base := at;
      state := at;
      bytesWritten := 0;
    }

    /** buf_write: copies byte by byte and advances the pointer. */
    method BufWrite(src: seq<byte>)
      requires Valid() && !sizing && bytesWritten + |src| <= maxSize
      modifies this`state, buf
      ensures state == old(state) + |src| && bytesWritten == old(bytesWritten)
      ensures buf[..] == old(buf[..state]) + src + old(buf[state + |src|..])
    {
      var dest := state;
      state := dest + |src|;
      var i := 0;
      while i < |src|
        invariant i <= |src| && state == dest + |src|
        invariant buf[..] == old(buf[..state]) + src[..i] + old(buf[state + i..])
      {
        ghost var before := buf[..];
        buf[dest + i] := src[i];
        assert buf[..] == before[dest + i := src[i]];
        i := i + 1;
        assert buf[..] == old(buf[..state]) + src[..i] + old(buf[state + i..]);
      }
      assert src[..i] == src;
    }

    /** pb_write. A sizing stream is given the count alone; `bs` are the bytes it stands for. */
    method Write(src: seq<byte>, count: nat, ghost bs: seq<byte>) returns (ok: bool)
      requires Valid() && |bs| == count && (!sizing ==> src == bs)
      modifies this, buf
      ensures Valid() && Emits(old(Snap()), Snap(), ok, Some(bs))
      ensures !ok ==> Snap() == old(Snap())
    {
      if !sizing {
        if bytesWritten + count > maxSize {
          return false;
        }
        BufWrite(src);
      }
      bytesWritten := bytesWritten + count;
      return true;
    }
  }

  // ---------------------------------------------------------------------------
  // Scalars
  // ---------------------------------------------------------------------------

  /** pb_encode_varint: groups are collected low first in a ten-byte buffer. */
  method EncodeVarintTo(stream: OStream, v: nat) returns (ok: bool)
    requires stream.Valid() && v < TWO64
    modifies stream, stream.buf
    ensures stream.Valid() && Emits(old(stream.Snap()), stream.Snap(), ok, Some(EncodeVarint(v)))
  {
    if v <= 0x7F {
      ok := stream.Write([v], 1, [v]);
      return;
    }
    var buffer, i := CollectGroups(v);
    ok := stream.Write(buffer[..i], i, buffer[..i]);
  }

  /** The loop of pb_encode_varint: every group gets its top bit set, then the last one loses it. */
  method CollectGroups(v: nat) returns (buffer: array<byte>, i: nat)
    requires 0 < v < TWO64
    ensures fresh(buffer) && i <= buffer.Length == 10 && buffer[..i] == EncodeVarint(v)
  {
    hide EncodeVarint;
    buffer := new byte[10];
    var value: nat := v;
    i := 0;
    Varint64Size(v);
    while value != 0
      invariant i <= 10
      invariant value != 0 ==> EncodeVarint(v) == buffer[..i] + EncodeVarint(value)
      invariant value == 0 ==>
                  0 < i && buffer[i - 1] >= 0x80 && EncodeVarint(v) == buffer[..i - 1] + [buffer[i - 1] - 0x80]
    {
      VarintUnfold(value);
      ghost var before := buffer[..i];
      buffer[i] := value % 0x80 + 0x80;
      assert buffer[..i + 1] == before + [value % 0x80 + 0x80];
      value := value / 0x80;
      i := i + 1;
    }
    ghost var groups := buffer[..i - 1];
    buffer[i - 1] := buffer[i - 1] % 0x80;
    assert buffer[..i] == groups + [buffer[i - 1]];
  }

  lemma VarintUnfold(v: nat)
    ensures EncodeVarint(v) == if v <= 0x7F then [v] else [v % 0x80 + 0x80] + EncodeVarint(v / 0x80)
    ensures 1 <= |EncodeVarint(v)|
  {
  }

  method EncodeSvarintTo(stream: OStream, n: int) returns (ok: bool)
    requires stream.Valid() && IsInt64(n)
    modifies stream, stream.buf
    ensures stream.Valid() && Emits(old(stream.Snap()), stream.Snap(), ok, Some(EncodeVarint(ZigZag(n))))
  {
    ZigZagRoundTrip(n);
    ok := EncodeVarintTo(stream, ZigZag(n));
  }

  method EncodeFixed32To(stream: OStream, v: nat) returns (ok: bool)
    requires stream.Valid() && v < TWO32
    modifies stream, stream.buf
    ensures stream.Valid() && Emits(old(stream.Snap()), stream.Snap(), ok, Some(LittleEndian(v, 4)))
  {
    var bytes := [v % 0x100, v / 0x100 % 0x100, v / 0x1_0000 % 0x100, v / 0x100_0000 % 0x100];
    LittleEndianFour(v);
    ok := stream.Write(bytes, 4, bytes);
  }

  method EncodeFixed64To(stream: OStream, v: nat) returns (ok: bool)
    requires stream.Valid() && v < TWO64
    modifies stream, stream.buf
    ensures stream.Valid() && Emits(old(stream.Snap()), stream.Snap(), ok, Some(LittleEndian(v, 8)))
  {
    var bytes := [v % 0x100, v / 0x100 % 0x100, v / 0x1_0000 % 0x100, v / 0x100_0000 % 0x100,
                  v / 0x1_0000_0000 % 0x100, v / 0x100_0000_0000 % 0x100,
                  v / 0x1_0000_0000_0000 % 0x100, v / 0x100_0000_0000_0000 % 0x100];
    LittleEndianEight(v);
    ok := stream.Write(bytes, 8, bytes);
  }

  lemma LittleEndianStep(v: nat, n: nat)
    ensures LittleEndian(v, n + 1) == [v % 0x100] + LittleEndian(v / 0x100, n)
    ensures LittleEndian(v, 0) == []
  {
  }

  /** The shifted and masked bytes of a word are its little-endian digits. */
  lemma LittleEndianFour(v: nat)
    ensures LittleEndian(v, 4) == [v % 0x100, v / 0x100 % 0x100, v / 0x1_0000 % 0x100, v / 0x100_0000 % 0x100]
  {
    LittleEndianStep(v, 3);
    LittleEndianStep(v / 0x100, 2);
    LittleEndianStep(v / 0x1_0000, 1);
    LittleEndianStep(v / 0x100_0000, 0);
    LittleEndianStep(v / 0x1_0000_0000, 0);
    assert v / 0x100 / 0x100 == v / 0x1_0000;
    assert v / 0x1_0000 / 0x100 == v / 0x100_0000;
  }

  lemma {:induction false} LittleEndianEight(v: nat)
    ensures LittleEndian(v, 8) == [v % 0x100, v / 0x100 % 0x100, v / 0x1_0000 % 0x100, v / 0x100_0000 % 0x100,
                                   v / 0x1_0000_0000 % 0x100, v / 0x100_0000_0000 % 0x100,
                                   v / 0x1_0000_0000_0000 % 0x100, v / 0x100_0000_0000_0000 % 0x100]
  {
    LittleEndianStep(v, 7);
    LittleEndianStep(v / 0x100, 6);
    LittleEndianStep(v / 0x1_0000, 5);
    LittleEndianStep(v / 0x100_0000, 4);
    LittleEndianFour(v / 0x1_0000_0000);
    assert v / 0x100 / 0x100 == v / 0x1_0000;
    assert v / 0x1_0000 / 0x100 == v / 0x100_0000;
    assert v / 0x100_0000 / 0x100 == v / 0x1_0000_0000;
    assert v / 0x1_0000_0000 / 0x100 == v / 0x100_0000_0000;
    assert v / 0x1_0000_0000 / 0x1_0000 == v / 0x1_0000_0000_0000;
    assert v / 0x1_0000_0000 / 0x100_0000 == v / 0x100_0000_0000_0000;
  }

  method EncodeTagTo(stream: OStream, wireType: nat, tag: nat) returns (ok: bool)
    requires stream.Valid() && wireType < 8 && tag < 0x2000_0000
    modifies stream, stream.buf
    ensures stream.Valid() && Emits(old(stream.Snap()), stream.Snap(), ok, Some(EncodeTag(wireType, tag)))
  {
    ok := EncodeVarintTo(stream, 8 * tag + wireType);
  }

  /** pb_encode_string: the length and then the bytes. */
  method EncodeStringTo(stream: OStream, bs: seq<byte>) returns (ok: bool)
    requires stream.Valid() && |bs| < TWO32
    modifies stream, stream.buf
    ensures stream.Valid() && Emits(old(stream.Snap()), stream.Snap(), ok, Some(Delimited(bs)))
  {
    ghost var s0 := stream.Snap();
    ok := EncodeVarintTo(stream, |bs|);
    ghost var s1 := stream.Snap();
    if !ok {
      EmitsFailure(s0, s1, Some(EncodeVarint(|bs|)), Some(bs));
      return;
    }
    ok := stream.Write(bs, |bs|, bs);
    EmitsThen(s0, s1, stream.Snap(), ok, Some(EncodeVarint(|bs|)), Some(bs));
  }

  /** The strnlen loop of pb_enc_string. */
  method StringLength(buf: seq<byte>) returns (size: nat)
    ensures size <= |buf| && buf[..size] == CString(buf)
  {
    size := 0;
    while size < |buf| && buf[size] != 0
      invariant size <= |buf| && forall k | 0 <= k < size :: buf[k] != 0
    {
      size := size + 1;
    }
    CStringEnds(buf, size);
  }

  lemma {:induction false} CStringEnds(buf: seq<byte>, size: nat)
    requires size <= |buf| && forall k | 0 <= k < size :: buf[k] != 0
    requires size < |buf| ==> buf[size] == 0
    ensures CString(buf) == buf[..size]
  {
    if size > 0 {
      var rest := buf[1..];
      forall k | 0 <= k < size - 1 ensures rest[k] != 0 {
        assert rest[k] == buf[k + 1];
      }
      CStringEnds(rest, size - 1);
      assert buf[..size] == [buf[0]] + rest[..size - 1];
    }
  }

  // ---------------------------------------------------------------------------
  // Entries, arrays, fields, messages
  // ---------------------------------------------------------------------------

  /** Every length the encoder computes for this value fits a 32-bit size_t. */
  ghost predicate Addressable(f: Field, v: Value)
    requires WellFormedField(f) && ValueFits(f, v)
    decreases f, 0
  {
    match v
    case Num(_) => true
    case Blob(size, _) => size < TWO32
    case Text(buf) => |CString(buf)| < TWO32
    case Msg(slots) => AddressableMsg(f.sub, slots)
  }

  ghost predicate AddressableSlot(f: Field, slot: Slot)
    requires WellFormedField(f) && SlotFits(f, slot)
    decreases f, 1
  {
    match slot
    case One(v) => (f.Implicit() && ValueIsDefault(f, v)) || Addressable(f, v)
    case Flagged(has, v) => has ==> Addressable(f, v)
    case Many(count, items) =>
      && (forall k | 0 <= k < count && k < |items| :: Addressable(f, items[k]))
      && (f.Packable() && count <= |items| && EncodePacked(f, items[..count]).Some? ==>
            |EncodePacked(f, items[..count]).value| < TWO32)
  }

  ghost predicate AddressableMsg(fields: seq<Field>, m: seq<Slot>)
    requires WellFormed(fields) && MsgFits(fields, m)
    decreases fields, 2
  {
    && (EncodeMsg(fields, m).Some? ==> |EncodeMsg(fields, m).value| < TWO32)
    && forall i | 0 <= i < |fields| :: AddressableSlot(fields[i], m[i])
  }

  /** PB_ENCODERS[ltype] for everything but submessages. */
  method EncodeScalarTo(stream: OStream, f: Field, v: Value) returns (ok: bool)
    requires stream.Valid() && WellFormedField(f) && ValueFits(f, v) && !f.ltype.SUBMESSAGE? && Addressable(f, v)
    modifies stream, stream.buf
    ensures stream.Valid() && Emits(old(stream.Snap()), stream.Snap(), ok, EncodeScalar(f, v))
  {
    match f.ltype {
      case VARINT => ok := EncodeVarintTo(stream, ToUnsigned64(v.n));
      case UVARINT => ok := EncodeVarintTo(stream, v.n);
      case SVARINT => ok := EncodeSvarintTo(stream, v.n);
      case FIXED32 => ok := EncodeFixed32To(stream, v.n);
      case FIXED64 => ok := EncodeFixed64To(stream, v.n);
      case BYTES =>
        if v.size + BYTES_HEADER > f.dataSize {
          return false;
        }
        ok := EncodeStringTo(stream, v.data[..v.size]);
      case STRING =>
        var size := StringLength(v.buf);
        ok := EncodeStringTo(stream, v.buf[..size]);
    }
  }

  method EncodeValueTo(stream: OStream, f: Field, v: Value) returns (ok: bool)
    requires stream.Valid() && WellFormedField(f) && ValueFits(f, v) && Addressable(f, v)
    modifies stream, stream.buf
    ensures stream.Valid() && Emits(old(stream.Snap()), stream.Snap(), ok, EncodeValue(f, v))
    decreases f, 0
  {
    if f.ltype.SUBMESSAGE? {
      ok := EncodeSubmessage(stream, f.sub, v.slots);
    } else {
      ok := EncodeScalarTo(stream, f, v);
    }
  }

  method EncodeTaggedTo(stream: OStream, f: Field, v: Value) returns (ok: bool)
    requires stream.Valid() && WellFormedField(f) && ValueFits(f, v) && Addressable(f, v)
    modifies stream, stream.buf
    ensures stream.Valid() && Emits(old(stream.Snap()), stream.Snap(), ok, EncodeTagged(f, v))
    decreases f, 1
  {
    ghost var s0 := stream.Snap();
    ghost var tag := Some(EncodeTag(WireType(f.ltype), f.tag));
    ok := EncodeTagTo(stream, WireType(f.ltype), f.tag);
    ghost var s1 := stream.Snap();
    if !ok {
      EmitsFailure(s0, s1, tag, EncodeValue(f, v));
      return;
    }
    ok := EncodeValueTo(stream, f, v);
    EmitsThen(s0, s1, stream.Snap(), ok, tag, EncodeValue(f, v));
  }

  /** The entry loop of a packed array, run once to count and once to write. */
  method EncodePackedTo(stream: OStream, f: Field, vs: seq<Value>) returns (ok: bool)
    requires stream.Valid() && WellFormedField(f) && AllFit(f, vs) && f.Packable()
    requires forall k | 0 <= k < |vs| :: Addressable(f, vs[k])
    modifies stream, stream.buf
    ensures stream.Valid() && Emits(old(stream.Snap()), stream.Snap(), ok, EncodePacked(f, vs))
  {
    hide EncodeScalar, Addressable;
    ghost var s0 := stream.Snap();
    ghost var done: seq<byte> := [];
    EmitsNothing(s0);
    var i := 0;
    assert vs[0..] == vs;
    CatNothing(EncodePacked(f, vs));
    while i < |vs|
      invariant i <= |vs| && stream.Valid() && Emits(s0, stream.Snap(), true, Some(done))
      invariant EncodePacked(f, vs) == Cat(Some(done), EncodePacked(f, vs[i..]))
    {
      ghost var s1 := stream.Snap();
      ghost var e, rest := EncodeScalar(f, vs[i]), EncodePacked(f, vs[i + 1..]);
      assert vs[i..][1..] == vs[i + 1..];
      ok := EncodeScalarTo(stream, f, vs[i]);
      EmitsThen(s0, s1, stream.Snap(), ok, Some(done), e);
      if !ok {
        EmitsFailure(s0, stream.Snap(), Cat(Some(done), e), rest);
        CatAssociative(Some(done), e, rest);
        return;
      }
      CatAssociative(Some(done), e, rest);
      done := done + e.value;
      i := i + 1;
    }
    ok := true;
    CatNothing(Some(done));
  }

  lemma CatNothing(a: Option<seq<byte>>)
    ensures Cat(Some([]), a) == a == Cat(a, Some([]))
  {
    if a.Some? { assert [] + a.value == a.value == a.value + []; }
  }

  lemma CatAssociative(a: Option<seq<byte>>, b: Option<seq<byte>>, c: Option<seq<byte>>)
    ensures Cat(Cat(a, b), c) == Cat(a, Cat(b, c))
  {
    if a.Some? && b.Some? && c.Some? { assert a.value + b.value + c.value == a.value + (b.value + c.value); }
  }

  /** The entry loop of an array that is not packed. */
  method EncodeEachTo(stream: OStream, f: Field, vs: seq<Value>) returns (ok: bool)
    requires stream.Valid() && WellFormedField(f) && AllFit(f, vs)
    requires forall k | 0 <= k < |vs| :: Addressable(f, vs[k])
    modifies stream, stream.buf
    ensures stream.Valid() && Emits(old(stream.Snap()), stream.Snap(), ok, EncodeEach(f, vs))
    decreases f, 2
  {
    hide EncodeTagged, Addressable;
    ghost var s0 := stream.Snap();
    ghost var done: seq<byte> := [];
    EmitsNothing(s0);
    var i := 0;
    assert vs[0..] == vs;
    CatNothing(EncodeEach(f, vs));
    while i < |vs|
      invariant i <= |vs| && stream.Valid() && Emits(s0, stream.Snap(), true, Some(done))
      invariant EncodeEach(f, vs) == Cat(Some(done), EncodeEach(f, vs[i..]))
    {
      ghost var s1 := stream.Snap();
      ghost var e, rest := EncodeTagged(f, vs[i]), EncodeEach(f, vs[i + 1..]);
      assert vs[i..][1..] == vs[i + 1..];
      ok := EncodeTaggedTo(stream, f, vs[i]);
      EmitsThen(s0, s1, stream.Snap(), ok, Some(done), e);
      if !ok {
        EmitsFailure(s0, stream.Snap(), Cat(Some(done), e), rest);
        CatAssociative(Some(done), e, rest);
        return;
      }
      CatAssociative(Some(done), e, rest);
      done := done + e.value;
      i := i + 1;
    }
    ok := true;
    CatNothing(Some(done));
  }

  /** The number of payload bytes of a packed array: computed for fixed sizes, else counted. */
  method PackedSize(f: Field, vs: seq<Value>) returns (ok: bool, size: nat)
    requires WellFormedField(f) && AllFit(f, vs) && f.Packable()
    requires forall k | 0 <= k < |vs| :: Addressable(f, vs[k])
    ensures ok <==> EncodePacked(f, vs).Some?
    ensures ok ==> size == |EncodePacked(f, vs).value|
  {
    PackedEncodable(f, vs);
    ok, size := true, 0;
    if f.ltype.FIXED32? {
      FixedPackedSize(f, vs, 4);
      size := 4 * |vs|;
    } else if f.ltype.FIXED64? {
      FixedPackedSize(f, vs, 8);
      size := 8 * |vs|;
    } else {
      var counter := new OStream.Sizing();
      ok := EncodePackedTo(counter, f, vs);
      size := counter.bytesWritten;
    }
  }

  lemma {:induction false} FixedPackedSize(f: Field, vs: seq<Value>, width: nat)
    requires WellFormedField(f) && AllFit(f, vs) && f.Packable() && EncodePacked(f, vs).Some?
    requires (f.ltype.FIXED32? && width == 4) || (f.ltype.FIXED64? && width == 8)
    ensures |EncodePacked(f, vs).value| == width * |vs|
    decreases |vs|
  {
    if vs != [] { FixedPackedSize(f, vs[1..], width); }
  }

  /** encode_array */
  method EncodeArrayTo(stream: OStream, f: Field, count: nat, items: seq<Value>) returns (ok: bool)
    requires stream.Valid() && WellFormedField(f) && SlotFits(f, Many(count, items)) && f.htype.REPEATED?
    requires AddressableSlot(f, Many(count, items))
    modifies stream, stream.buf
    ensures stream.Valid() && Emits(old(stream.Snap()), stream.Snap(), ok, EncodeArray(f, count, items))
    decreases f, 3
  {
    hide EncodeVarint, EncodePacked, EncodeEach, Emits;
    ghost var s0 := stream.Snap();
    if count == 0 {
      EmitsNothing(s0);
      return true;
    }
    if count > f.arraySize {
      EmitsError(s0);
      return false;
    }
    var vs := items[..count];
    if f.Packable() {
      ghost var tag := Some(EncodeTag(WT_STRING, f.tag));
      PackedEncodable(f, vs);
      ghost var payload := EncodePacked(f, vs).value;
      ghost var prefix := Some(EncodeVarint(|payload|));
      ok := EncodeTagTo(stream, WT_STRING, f.tag);
      ghost var s1 := stream.Snap();
      if !ok {
        EmitsFailure(s0, s1, tag, Some(Delimited(payload)));
        return;
      }
      var size;
      ok, size := PackedSize(f, vs);
      ok := EncodeVarintTo(stream, size);
      ghost var s2 := stream.Snap();
      if !ok {
        EmitsFailure(s1, s2, prefix, Some(payload));
        EmitsThen(s0, s1, s2, false, tag, Some(Delimited(payload)));
        return;
      }
      if stream.sizing {
        ok := stream.Write([], size, payload);
      } else {
        ok := EncodePackedTo(stream, f, vs);
      }
      EmitsThen(s1, s2, stream.Snap(), ok, prefix, Some(payload));
      EmitsThen(s0, s1, stream.Snap(), ok, tag, Some(Delimited(payload)));
    } else {
      ok := EncodeEachTo(stream, f, vs);
    }
  }

  /** encode_basic_field */
  method EncodeFieldTo(stream: OStream, f: Field, slot: Slot) returns (ok: bool)
    requires stream.Valid() && WellFormedField(f) && SlotFits(f, slot) && AddressableSlot(f, slot)
    modifies stream, stream.buf
    ensures stream.Valid() && Emits(old(stream.Snap()), stream.Snap(), ok, EncodeSlot(f, slot))
    decreases f, 4
  {
    match f.htype {
      case REQUIRED =>
        ok := EncodeTaggedTo(stream, f, slot.v);
      case OPTIONAL =>
        var has := if f.HasFlag() then slot.has else !ValueIsDefault(f, slot.v);
        if has {
          ok := EncodeTaggedTo(stream, f, slot.v);
        } else {
          EmitsNothing(stream.Snap());
          ok := true;
        }
      case REPEATED =>
        ok := EncodeArrayTo(stream, f, slot.count, slot.items);
    }
  }

  /** pb_encode: every field in the iterator's order. */
  method Encode(stream: OStream, fields: seq<Field>, m: seq<Slot>) returns (ok: bool)
    requires stream.Valid() && WellFormed(fields) && MsgFits(fields, m) && AddressableMsg(fields, m)
    modifies stream, stream.buf
    ensures stream.Valid() && Emits(old(stream.Snap()), stream.Snap(), ok, EncodeMsg(fields, m))
    decreases fields, 5
  {
    hide EncodeSlot, AddressableSlot, Emits;
    ghost var s0 := stream.Snap();
    ghost var done: seq<byte> := [];
    EmitsNothing(s0);
    var iter := new FieldIter(fields, 0);
    if fields == [] {
      return true;
    }
    CatNothing(EncodeMsg(fields, m));
    var more := true;
    while more
      invariant iter.Valid() && iter.start == fields && stream.Valid()
      invariant Emits(s0, stream.Snap(), true, Some(done))
      invariant EncodeMsg(fields, m) == Cat(Some(done), EncodeFrom(fields, m, if more then iter.pos else |fields|))
      decreases more, |fields| - iter.pos
    {
      ghost var s1 := stream.Snap();
      ghost var i := iter.pos;
      ghost var e, rest := EncodeSlot(fields[i], m[i]), EncodeFrom(fields, m, i + 1);
      ok := EncodeFieldTo(stream, fields[iter.pos], m[iter.pos]);
      EmitsThen(s0, s1, stream.Snap(), ok, Some(done), e);
      CatAssociative(Some(done), e, rest);
      if !ok {
        EmitsFailure(s0, stream.Snap(), Cat(Some(done), e), rest);
        return;
      }
      done := done + e.value;
      more := iter.Next();
    }
    ok := true;
    CatNothing(Some(done));
  }

  /** pb_get_encoded_size */
  method GetEncodedSize(fields: seq<Field>, m: seq<Slot>) returns (ok: bool, size: nat)
    requires WellFormed(fields) && MsgFits(fields, m) && AddressableMsg(fields, m)
    ensures ok <==> EncodeMsg(fields, m).Some?
    ensures ok ==> size == |EncodeMsg(fields, m).value|
    decreases fields, 6
  {
    var counter := new OStream.Sizing();
    ok := Encode(counter, fields, m);
    size := counter.bytesWritten;
  }

  ghost function DelimitedMsg(fields: seq<Field>, m: seq<Slot>): Option<seq<byte>>
    requires WellFormed(fields) && MsgFits(fields, m)
  {
    match EncodeMsg(fields, m)
    case Some(bs) => Some(Delimited(bs))
    case None => None
  }

  /**
    pb_encode_submessage: a counting pass, the length, then a writing pass.
   */
  method EncodeSubmessage(stream: OStream, fields: seq<Field>, m: seq<Slot>) returns (ok: bool)
    requires stream.Valid() && WellFormed(fields) && MsgFits(fields, m) && AddressableMsg(fields, m)
    modifies stream, stream.buf
    ensures stream.Valid() && Emits(old(stream.Snap()), stream.Snap(), ok, DelimitedMsg(fields, m))
    decreases fields, 7
  {
    hide EncodeVarint, EncodeMsg, Emits;
    ghost var s0 := stream.Snap();
    var counter := new OStream.Sizing();
    ghost var c0 := counter.Snap();
    ok := Encode(counter, fields, m);
    EmitsOutcome(c0, counter.Snap(), ok, EncodeMsg(fields, m));
    if !ok {
      EmitsError(s0);
      return false;
    }
    var size := counter.bytesWritten;
    ghost var bs := EncodeMsg(fields, m).value;
    ghost var prefix := Some(EncodeVarint(|bs|));
    ok := EncodeVarintTo(stream, size);
    ghost var s1 := stream.Snap();
    if !ok {
      EmitsFailure(s0, s1, prefix, Some(bs));
      return false;
    }
    if stream.sizing {
      ok := stream.Write([], size, bs);
      EmitsThen(s0, s1, stream.Snap(), ok, prefix, Some(bs));
      return;
    }
    ok := WritingPass(stream, fields, m, size);
    EmitsThen(s0, s1, stream.Snap(), ok, prefix, Some(bs));
  }

  /**
    The second half of pb_encode_submessage, on a substream with room for exactly `size`
    bytes. The branch that reports a changed size cannot be taken.
   */
  method WritingPass(stream: OStream, fields: seq<Field>, m: seq<Slot>, size: nat) returns (ok: bool)
    requires stream.Valid() && !stream.sizing
    requires WellFormed(fields) && MsgFits(fields, m) && AddressableMsg(fields, m)
    requires EncodeMsg(fields, m).Some? && size == |EncodeMsg(fields, m).value|
    modifies stream, stream.buf
    ensures stream.Valid() && Emits(old(stream.Snap()), stream.Snap(), ok, EncodeMsg(fields, m))
    decreases fields, 6
  {
    hide Emits;
    ghost var s1 := stream.Snap();
    ghost var bs := EncodeMsg(fields, m).value;
    if stream.bytesWritten + size > stream.maxSize {
      EmitsFull(s1, bs);
      return false;
    }
    var substream := new OStream.OnBuffer(stream.buf, stream.state, size);
    ghost var u0 := substream.Snap();
    var status := Encode(substream, fields, m);
    EmitsOutcome(u0, substream.Snap(), status, Some(bs));
    SubstreamEmits(s1, u0, substream.Snap(), bs);
    stream.bytesWritten := stream.bytesWritten + substream.bytesWritten;
    stream.state := substream.state;
    if substream.bytesWritten != size {
      assert false;
    }
    return status;
  }

  /** pb_ostream_from_buffer and pb_encode: success is exactly "the encoded size fits". */
  method EncodeIntoBuffer(mem: array<byte>, fields: seq<Field>, m: seq<Slot>) returns (ok: bool, written: nat)
    requires WellFormed(fields) && MsgFits(fields, m) && AddressableMsg(fields, m)
    modifies mem
    ensures written <= mem.Length
    ensures ok <==> EncodeMsg(fields, m).Some? && |EncodeMsg(fields, m).value| <= mem.Length
    ensures ok ==> mem[..written] == EncodeMsg(fields, m).value && mem[written..] == old(mem[written..])
  {
    var stream := new OStream.OnBuffer(mem, 0, mem.Length);
    ok := Encode(stream, fields, m);
    written := stream.bytesWritten;
  }

  // ---------------------------------------------------------------------------
  // A total size below 2^32 makes every inner size addressable
  // ---------------------------------------------------------------------------

  lemma {:induction false} ValueAddressable(f: Field, v: Value)
    requires WellFormedField(f) && ValueFits(f, v)
    requires EncodeValue(f, v).Some? && |EncodeValue(f, v).value| < TWO32
    ensures Addressable(f, v)
    decreases f, 0
  {
    if f.ltype.SUBMESSAGE? { MessageAddressable(f.sub, v.slots); }
  }

  lemma {:induction false} TaggedAddressable(f: Field, v: Value)
    requires WellFormedField(f) && ValueFits(f, v)
    requires EncodeTagged(f, v).Some? && |EncodeTagged(f, v).value| < TWO32
    ensures Addressable(f, v)
    decreases f, 1
  {
    ValueAddressable(f, v);
  }

  lemma {:induction false} EachAddressable(f: Field, vs: seq<Value>, k: nat)
    requires WellFormedField(f) && AllFit(f, vs) && k < |vs|
    requires EncodeEach(f, vs).Some? && |EncodeEach(f, vs).value| < TWO32
    ensures Addressable(f, vs[k])
    decreases f, 2, |vs|
  {
    if k == 0 { TaggedAddressable(f, vs[0]); } else { EachAddressable(f, vs[1..], k - 1); }
  }

  lemma {:induction false} SlotAddressable(f: Field, slot: Slot)
    requires WellFormedField(f) && SlotFits(f, slot)
    requires EncodeSlot(f, slot).Some? && |EncodeSlot(f, slot).value| < TWO32
    ensures AddressableSlot(f, slot)
    decreases f, 3
  {
    match slot
    case One(v) =>
      if !(f.Implicit() && ValueIsDefault(f, v)) { TaggedAddressable(f, v); }
    case Flagged(has, v) =>
      if has { TaggedAddressable(f, v); }
    case Many(count, items) =>
      if 0 < count && f.Packable() {
        assert EncodePacked(f, items[..count]).Some?;
      } else if 0 < count {
        forall j | 0 <= j < count ensures Addressable(f, items[j]) {
          EachAddressable(f, items[..count], j);
        }
      }
  }

  lemma {:induction false} FromAddressable(fields: seq<Field>, m: seq<Slot>, i: nat, k: nat)
    requires WellFormed(fields) && MsgFits(fields, m) && i <= k < |fields|
    requires EncodeFrom(fields, m, i).Some? && |EncodeFrom(fields, m, i).value| < TWO32
    ensures AddressableSlot(fields[k], m[k])
    decreases fields, 0, |fields| - i
  {
    if i < k {
      FromAddressable(fields, m, i + 1, k);
    } else {
      SlotAddressable(fields[i], m[i]);
    }
  }

  lemma {:induction false} MessageAddressable(fields: seq<Field>, m: seq<Slot>)
    requires WellFormed(fields) && MsgFits(fields, m)
    requires EncodeMsg(fields, m).Some? && |EncodeMsg(fields, m).value| < TWO32
    ensures AddressableMsg(fields, m)
    decreases fields, 1
  {
    forall k | 0 <= k < |fields| ensures AddressableSlot(fields[k], m[k]) {
      FromAddressable(fields, m, 0, k);
    }
  }
}
