/**
  pb_decode over its input streams.

  A stream is a position in an input buffer and a limit. Every method is tied to the
  function of Decoding.dfy on the bytes the stream had left. Two facts hold of every read:
  it never moves the end of what may be read outwards (Confined), and when it succeeds,
  position plus bytes left is what it was.
 */
module Decoder {
  import opened Wire
  import opened Schema
  import opened Decoding
  import opened FieldIteration
  import opened RequiredBits
  import opened Aftermath
  import Encoding

  class IStream {
    const buf: seq<byte>
    var state: nat
    var bytesLeft: nat

    ghost predicate Valid()
      reads this
    {
      state + bytesLeft <= |buf|
    }

    ghost function Rest(): seq<byte>
      requires Valid()
      reads this
    {
      buf[state..state + bytesLeft]
    }

    /** The first index that may not be read. */
    ghost function End(): nat
      reads this
    {
      state + bytesLeft
    }

    /** pb_istream_from_buffer, and the copy of a stream that starts a substream. */
    constructor (source: seq<byte>, at: nat, count: nat)
      requires at + count <= |source|
      ensures Valid() && buf == source && state == at && bytesLeft == count
    {
      buf := source;
      state := at;
      bytesLeft := count;
    }

    /** Reading moves forward and never past the old end. */
    twostate predicate Confined()
      reads this
    {
      Valid() && old(state) <= state && End() <= old(End())
    }

    /** A successful read left exactly `rest`, with the same end. */
    twostate predicate Leaves(rest: seq<byte>)
      reads this
    {
      Valid() && Rest() == rest && End() == old(End())
    }

    /** pb_read; buf_read copies byte by byte. */
    method Read(count: nat) returns (ok: bool, data: seq<byte>)
      requires Valid()
      modifies this
      ensures Confined()
      ensures ok <==> Take(old(Rest()), count).Ok?
      ensures ok ==> data == Take(old(Rest()), count).value && Leaves(Take(old(Rest()), count).rest)
      ensures !ok ==> bytesLeft == old(bytesLeft)
    {
      if bytesLeft < count {
        return false, [];
      }
      data := [];
      var i := 0;
      while i < count
        invariant i <= count && data == buf[state..state + i] && state == old(state) && bytesLeft == old(bytesLeft)
      {
        data := data + [buf[state + i]];
        i := i + 1;
      }
      assert data == old(Rest())[..count];
      state := state + count;
      bytesLeft := bytesLeft - count;
      assert Rest() == old(Rest())[count..];
      return true, data;
    }

    /** pb_readbyte */
    method ReadByte() returns (ok: bool, b: byte)
      requires Valid()
      modifies this
      ensures Confined()
      ensures ok <==> old(Rest()) != []
      ensures ok ==> b == old(Rest())[0] && Leaves(old(Rest())[1..])
      ensures !ok ==> bytesLeft == old(bytesLeft) && state == old(state)
    {
      if bytesLeft == 0 {
        return false, 0;
      }
      b := buf[state];
      ok := true;
      state := state + 1;
      bytesLeft := bytesLeft - 1;
      assert Rest() == old(Rest())[1..];
    }
  }

  // ---------------------------------------------------------------------------
  // Varints
  // ---------------------------------------------------------------------------

  /**
    `result | (group << 7k)` in a 32-bit and in a 64-bit word. The group lies above every bit
    already set, so the or is a sum.
   */
  function ShiftIn32(result: nat, group: nat, k: nat): nat {
    Low32(WithGroup(result, group, k))
  }

  function ShiftIn64(result: nat, group: nat, k: nat): nat {
    Low64(WithGroup(result, group, k))
  }

  /** `byte & 0x7F` */
  function GroupOf(b: byte): nat { b % 0x80 }

  /** Which group a bit position belongs to. */
  function GroupAt(bitpos: nat): nat { bitpos / 7 }

  lemma Groups(k: nat, b: byte)
    ensures GroupAt(7 * k) == k
    ensures GroupOf(b) < 0x80 && (b < 0x80 ==> GroupOf(b) == b)
  {
  }

  /** A number with its k-th seven-bit group added. */
  function WithGroup(acc: nat, group: nat, k: nat): nat {
    acc + group * Exp128(k)
  }

  /** Truncating at every step is truncating at the end. */
  lemma {:induction false} ShiftInAgrees(acc: nat, group: nat, k: nat)
    ensures ShiftIn32(Low32(acc), group, k) == Low32(WithGroup(acc, group, k))
    ensures ShiftIn64(Low64(acc), group, k) == Low64(WithGroup(acc, group, k))
  {
    hide Exp128;
    AddMod32(acc, group * Exp128(k));
    AddMod64(acc, group * Exp128(k));
  }

  lemma {:induction false} AddMod32(a: nat, x: nat)
    ensures Low32(Low32(a) + x) == Low32(a + x)
  {
    assert a + x == (a % TWO32 + x) + TWO32 * (a / TWO32);
  }

  lemma {:induction false} AddMod64(a: nat, x: nat)
    ensures Low64(Low64(a) + x) == Low64(a + x)
  {
    assert a + x == (a % TWO64 + x) + TWO64 * (a / TWO64);
  }

  lemma SmallLow(n: nat)
    ensures n < 0x80 ==> Low32(n) == n
    ensures Low64(0) == 0
  {
  }

  /** `whole` is what the reader yields on `s` once `acc` has been read from `k` earlier groups. */
  ghost predicate Continues(whole: Read<nat>, s: seq<byte>, left: nat, acc: nat, k: nat) {
    match ReadGroups(s, left)
    case Got(v, rest) => whole == Got(acc + Exp128(k) * v, rest)
    case Failed(rest) => whole == Failed(rest)
  }

  lemma {:induction false} GroupsUnfold(s: seq<byte>, left: nat)
    requires 0 < left && s != []
    ensures ReadGroups(s, left)
            == if s[0] < 0x80 then Got(s[0], s[1..])
               else match ReadGroups(s[1..], left - 1)
                    case Got(v, rest) => Got(s[0] - 0x80 + 0x80 * v, rest)
                    case Failed(rest) => Failed(rest)
  {
  }

  lemma WeightStep(k: nat)
    ensures Exp128(k + 1) == 0x80 * Exp128(k)
  {
  }

  lemma ContinuesStep(whole: Read<nat>, s: seq<byte>, left: nat, acc: nat, k: nat)
    requires Continues(whole, s, left, acc, k) && 0 < left && s != []
    ensures s[0] < 0x80 ==> whole == Got(WithGroup(acc, GroupOf(s[0]), k), s[1..])
    ensures s[0] >= 0x80 ==> Continues(whole, s[1..], left - 1, WithGroup(acc, GroupOf(s[0]), k), k + 1)
  {
    hide ReadGroups, Exp128;
    GroupsUnfold(s, left);
    WeightStep(k);
    if s[0] >= 0x80 && ReadGroups(s[1..], left - 1).Got? {
      Regroup(acc, s[0] - 0x80, Exp128(k), ReadGroups(s[1..], left - 1).value);
    }
  }

  lemma Regroup(acc: nat, g: nat, e: nat, v: nat)
    ensures acc + e * (g + 0x80 * v) == acc + g * e + 0x80 * e * v
  {
  }

  /** pb_decode_varint32, with its one-byte quick case. On failure the rest tells where it stopped. */
  method DecodeVarint32From(stream: IStream) returns (ok: bool, dest: nat)
    requires stream.Valid()
    modifies stream
    ensures stream.Confined()
    ensures ok <==> DecodeVarint32(old(stream.Rest())).Got?
    ensures ok ==> dest == DecodeVarint32(old(stream.Rest())).value
    ensures stream.Leaves(DecodeVarint32(old(stream.Rest())).rest)
  {
    hide ReadGroups, Exp128, ShiftIn32, ShiftIn64, WithGroup, Continues, Low32, Low64, GroupOf, GroupAt;
    ghost var whole := ReadGroups(stream.Rest(), MAX_VARINT32);
    StartContinues(stream.Rest(), MAX_VARINT32);
    dest := 0;
    ghost var s0 := stream.Rest();
    var b: byte;
    ok, b := stream.ReadByte();
    if !ok {
      ContinuesStop(whole, s0, MAX_VARINT32, 0, 0);
      return;
    }
    ContinuesStep(whole, s0, MAX_VARINT32, 0, 0);
    Groups(0, b);
    FirstGroup(GroupOf(b));
    SmallLow(GroupOf(b));
    if b < 0x80 {
      dest := b;
      return;
    }
    var bitpos := 7;
    var result := GroupOf(b);
    ghost var acc: nat, k: nat := result, 1;
    while b >= 0x80
      invariant stream.Confined() && stream.End() == old(stream.End())
      invariant bitpos == 7 * k && 1 <= k <= MAX_VARINT32
      invariant result == Low32(acc)
      invariant b >= 0x80 ==> Continues(whole, stream.Rest(), MAX_VARINT32 - k, acc, k)
      invariant b < 0x80 ==> whole == Got(acc, stream.Rest())
      decreases MAX_VARINT32 - k, b >= 0x80
    {
      ghost var s := stream.Rest();
      if bitpos >= 32 {
        ContinuesStop(whole, s, MAX_VARINT32 - k, acc, k);
        return false, 0;
      }
      ok, b := stream.ReadByte();
      if !ok {
        ContinuesStop(whole, s, MAX_VARINT32 - k, acc, k);
        return;
      }
      ContinuesStep(whole, s, MAX_VARINT32 - k, acc, k);
      Groups(k, b);
      ShiftInAgrees(acc, GroupOf(b), k);
      result := ShiftIn32(result, GroupOf(b), GroupAt(bitpos));
      acc := WithGroup(acc, GroupOf(b), k);
      bitpos := bitpos + 7;
      k := k + 1;
    }
    dest := result;
  }

  lemma StartContinues(s: seq<byte>, left: nat)
    ensures Continues(ReadGroups(s, left), s, left, 0, 0)
  {
  }

  lemma FirstGroup(group: nat)
    ensures WithGroup(0, group, 0) == group
  {
  }

  /** The two ways a varint stops: nothing left, or too many groups. */
  lemma ContinuesStop(whole: Read<nat>, s: seq<byte>, left: nat, acc: nat, k: nat)
    requires Continues(whole, s, left, acc, k) && (s == [] || left == 0)
    ensures whole == Failed(s)
  {
  }

  /** pb_decode_varint */
  method DecodeVarintFrom(stream: IStream) returns (ok: bool, dest: nat)
    requires stream.Valid()
    modifies stream
    ensures stream.Confined()
    ensures ok <==> DecodeVarint(old(stream.Rest())).Got?
    ensures ok ==> dest == DecodeVarint(old(stream.Rest())).value
    ensures stream.Leaves(DecodeVarint(old(stream.Rest())).rest)
  {
    hide ReadGroups, Exp128, ShiftIn32, ShiftIn64, WithGroup, Continues, Low32, Low64, GroupOf, GroupAt;
    ghost var whole := ReadGroups(stream.Rest(), MAX_VARINT64);
    StartContinues(stream.Rest(), MAX_VARINT64);
    dest := 0;
    var b: byte := 0x80;
    SmallLow(0);
    var bitpos := 0;
    var result: nat := 0;
    ghost var acc: nat, k: nat := 0, 0;
    while b >= 0x80
      invariant stream.Confined() && stream.End() == old(stream.End())
      invariant bitpos == 7 * k && k <= MAX_VARINT64
      invariant result == Low64(acc)
      invariant b >= 0x80 ==> Continues(whole, stream.Rest(), MAX_VARINT64 - k, acc, k)
      invariant b < 0x80 ==> whole == Got(acc, stream.Rest())
      decreases MAX_VARINT64 - k, b >= 0x80
    {
      ghost var s := stream.Rest();
      if bitpos >= 64 {
        ContinuesStop(whole, s, MAX_VARINT64 - k, acc, k);
        return false, 0;
      }
      ok, b := stream.ReadByte();
      if !ok {
        ContinuesStop(whole, s, MAX_VARINT64 - k, acc, k);
        return;
      }
      ContinuesStep(whole, s, MAX_VARINT64 - k, acc, k);
      Groups(k, b);
      ShiftInAgrees(acc, GroupOf(b), k);
      result := ShiftIn64(result, GroupOf(b), GroupAt(bitpos));
      acc := WithGroup(acc, GroupOf(b), k);
      bitpos := bitpos + 7;
      k := k + 1;
    }
    ok := true;
    dest := result;
  }

  // ---------------------------------------------------------------------------
  // Tags, skipping, substreams
  // ---------------------------------------------------------------------------

  /** pb_decode_tag */
  method DecodeTagFrom(stream: IStream) returns (ok: bool, eof: bool, tag: nat, wireType: nat)
    requires stream.Valid()
    modifies stream
    ensures stream.Confined()
    ensures match DecodeTag(old(stream.Rest()))
            case Tag(t, w, rest) => ok && tag == t && wireType == w && stream.Leaves(rest)
            case Stop(rest) => !ok && eof && stream.Leaves(rest)
            case CutOff => !ok && eof && stream.Leaves([])
            case Bad => !ok && !eof && stream.Leaves(DecodeVarint32(old(stream.Rest())).rest)
  {
    hide ReadGroups;
    eof, tag, wireType := false, 0, 0;
    var temp;
    ok, temp := DecodeVarint32From(stream);
    if !ok {
      if stream.bytesLeft == 0 {
        eof := true;
      }
      assert stream.Rest() == [] <==> stream.bytesLeft == 0;
      return;
    }
    if temp == 0 {
      return false, true, 0, 0;
    }
    tag := temp / 8;
    wireType := temp % 8;
  }

  method SkipVarintFrom(stream: IStream) returns (ok: bool)
    requires stream.Valid()
    modifies stream
    ensures stream.Confined()
    ensures ok <==> SkipVarint(old(stream.Rest())).Ok?
    ensures ok ==> stream.Leaves(SkipVarint(old(stream.Rest())).rest)
  {
    var b: byte := 0x80;
    while b >= 0x80
      invariant stream.Confined() && stream.End() == old(stream.End())
      invariant SkipVarint(old(stream.Rest()))
                == if b >= 0x80 then SkipVarint(stream.Rest()) else Ok((), stream.Rest())
      decreases stream.bytesLeft, b >= 0x80
    {
      ok, b := stream.ReadByte();
      if !ok {
        return;
      }
    }
    ok := true;
  }

  lemma SplitSlice(buf: seq<byte>, from: nat, n: nat, to: nat)
    requires from + n <= to <= |buf|
    ensures buf[from..from + n] == buf[from..to][..n] && buf[from + n..to] == buf[from..to][n..]
  {
  }

  /** pb_make_string_substream: the parent gives up `size` bytes but does not move. */
  method MakeSubstream(stream: IStream) returns (ok: bool, substream: IStream)
    requires stream.Valid()
    modifies stream
    ensures stream.Confined() && fresh(substream) && substream.Valid() && substream.buf == stream.buf
    ensures ok <==> Substream(old(stream.Rest())).Ok?
    ensures ok ==> var r := Substream(old(stream.Rest()));
                   && substream.Rest() == r.value && substream.state == stream.state
                   && stream.End() + substream.bytesLeft == old(stream.End())
                   && stream.bytesLeft == |r.rest|
                   && stream.buf[substream.End()..old(stream.End())] == r.rest
    ensures ok ==> substream.bytesLeft < old(stream.bytesLeft)
  {
    hide ReadGroups;
    GroupsProgress(stream.Rest(), MAX_VARINT32);
    var size;
    ok, size := DecodeVarint32From(stream);
    ghost var rest := stream.Rest();
    substream := new IStream(stream.buf, stream.state, stream.bytesLeft);
    if !ok {
      return;
    }
    if substream.bytesLeft < size {
      return false, substream;
    }
    substream.bytesLeft := size;
    stream.bytesLeft := stream.bytesLeft - size;
    SplitSlice(stream.buf, stream.state, size, substream.state + size + stream.bytesLeft);
  }

  /** pb_close_string_substream: skips what was not read and moves the parent there. */
  method CloseSubstream(stream: IStream, substream: IStream) returns (ok: bool)
    requires stream.Valid() && substream.Valid() && stream != substream && stream.buf == substream.buf
    requires substream.End() + stream.bytesLeft <= |stream.buf|
    modifies stream, substream
    ensures ok && stream.Valid() && stream.bytesLeft == old(stream.bytesLeft)
    ensures stream.state == old(substream.End())
  {
    ok := true;
    if substream.bytesLeft != 0 {
      var skipped;
      ok, skipped := substream.Read(substream.bytesLeft);
    }
    stream.state := substream.state;
  }

  method SkipStringFrom(stream: IStream) returns (ok: bool)
    requires stream.Valid()
    modifies stream
    ensures stream.Confined()
    ensures ok <==> Substream(old(stream.Rest())).Ok?
    ensures ok ==> stream.Leaves(Substream(old(stream.Rest())).rest)
  {
    hide ReadGroups;
    var length;
    ok, length := DecodeVarint32From(stream);
    if !ok {
      return;
    }
    var skipped;
    ok, skipped := stream.Read(length);
  }

  /** pb_skip_field */
  method SkipFieldFrom(stream: IStream, wireType: nat) returns (ok: bool)
    requires stream.Valid()
    modifies stream
    ensures stream.Confined()
    ensures ok <==> SkipField(wireType, old(stream.Rest())).Ok?
    ensures ok ==> stream.Leaves(SkipField(wireType, old(stream.Rest())).rest)
  {
    var skipped;
    if wireType == Encoding.WT_VARINT {
      ok := SkipVarintFrom(stream);
    } else if wireType == Encoding.WT_64BIT {
      ok, skipped := stream.Read(8);
    } else if wireType == Encoding.WT_STRING {
      ok := SkipStringFrom(stream);
    } else if wireType == Encoding.WT_32BIT {
      ok, skipped := stream.Read(4);
    } else {
      ok := false;
    }
  }

  // ---------------------------------------------------------------------------
  // Entries
  // ---------------------------------------------------------------------------

  /** What an entry decoder did, for the pure result `r`; `left` is in the member in any case. */
  twostate predicate Stored(stream: IStream, ok: bool, v: Value, r: Dec<Value>, left: Value)
    reads stream
  {
    stream.Confined() && (ok <==> r.Ok?) && (ok ==> v == r.value && stream.Leaves(r.rest)) && v == left
  }

  method DecodeIntegerFrom(stream: IStream, f: Field, prev: Value) returns (ok: bool, v: Value)
    requires stream.Valid() && WellFormedField(f) && ValueFits(f, prev)
    requires f.ltype.VARINT? || f.ltype.UVARINT? || f.ltype.SVARINT?
    modifies stream
    ensures Stored(stream, ok, v, DecodeScalar(f, prev, old(stream.Rest())), ScalarLeft(f, prev, old(stream.Rest())))
  {
    hide ReadGroups;
    v := prev;
    var u;
    ok, u := DecodeVarintFrom(stream);
    if !ok {
      return;
    }
    match f.ltype {
      case VARINT =>
        var svalue := VarintAsSigned(f.dataSize, u);
        var clamped := ToSigned(svalue, HalfRange(f.dataSize));
        v := Num(clamped);
        ok := clamped == svalue;
      case UVARINT =>
        var clamped := u % (2 * HalfRange(f.dataSize));
        v := Num(clamped);
        ok := clamped == u;
      case SVARINT =>
        var svalue := UnZigZag(u);
        var clamped := ToSigned(svalue, HalfRange(f.dataSize));
        v := Num(clamped);
        ok := clamped == svalue;
    }
  }

  /** The shifts and ors of pb_decode_fixed32: the bytes do not overlap, so the ors are sums. */
  function ComposeFour(b0: int, b1: int, b2: int, b3: int): int {
    b0 + 0x100 * b1 + 0x1_0000 * b2 + 0x100_0000 * b3
  }

  lemma FromStep(b: seq<byte>)
    ensures FromLittleEndian(b) == if b == [] then 0 else b[0] + 0x100 * FromLittleEndian(b[1..])
    ensures FromLittleEndian([]) == 0
  {
  }

  lemma FromFour(b: seq<byte>, tail: seq<byte>)
    requires |b| == 4
    ensures FromLittleEndian(b + tail) == ComposeFour(b[0], b[1], b[2], b[3]) + TWO32 * FromLittleEndian(tail)
  {
    var s := b + tail;
    FromStep(s);
    FromStep(s[1..]);
    FromStep(s[2..]);
    FromStep(s[3..]);
    assert s[1..][1..] == s[2..] && s[2..][1..] == s[3..] && s[3..][1..] == tail;
  }

  lemma FromEight(b: seq<byte>)
    requires |b| == 8
    ensures FromLittleEndian(b)
            == ComposeFour(b[0], b[1], b[2], b[3]) + TWO32 * ComposeFour(b[4], b[5], b[6], b[7])
  {
    FromFour(b[..4], b[4..]);
    FromFour(b[4..], []);
    FromStep([]);
    assert b[..4] + b[4..] == b && b[4..] + [] == b[4..];
  }

  method DecodeFixedFrom(stream: IStream, f: Field, prev: Value) returns (ok: bool, v: Value)
    requires stream.Valid() && WellFormedField(f) && ValueFits(f, prev)
    requires f.ltype.FIXED32? || f.ltype.FIXED64?
    modifies stream
    ensures Stored(stream, ok, v, DecodeScalar(f, prev, old(stream.Rest())), ScalarLeft(f, prev, old(stream.Rest())))
  {
    hide FromLittleEndian;
    v := prev;
    var b;
    if f.ltype.FIXED32? {
      ok, b := stream.Read(4);
      if ok {
        FromFour(b, []);
        FromStep([]);
        assert b + [] == b;
        v := Num(ComposeFour(b[0], b[1], b[2], b[3]));
      }
    } else {
      ok, b := stream.Read(8);
      if ok {
        FromEight(b);
        v := Num(ComposeFour(b[0], b[1], b[2], b[3]) + TWO32 * ComposeFour(b[4], b[5], b[6], b[7]));
      }
    }
  }

  /** A bytes member or a string: the length has to be there, then room for it, then the payload. */
  lemma BufferOutcome(f: Field, prev: Value, s: seq<byte>)
    requires WellFormedField(f) && ValueFits(f, prev) && (f.ltype.BYTES? || f.ltype.STRING?)
    ensures var len := DecodeVarint32(s);
            var r, left := DecodeScalar(f, prev, s), ScalarLeft(f, prev, s);
            match len
            case Failed(_) => r == Err && left == prev
            case Got(size, rest) =>
              var alloc := if f.ltype.BYTES? then size + BYTES_HEADER else size + 1;
              if alloc > f.dataSize then r == Err && left == prev
              else if |rest| < size then
                r == Err && left == if f.ltype.BYTES? then Blob(size, prev.data) else Text(prev.buf[size := 0])
              else
                && r == Ok(left, rest[size..])
                && left == if f.ltype.BYTES? then Blob(size, rest[..size] + prev.data[size..])
                           else Text(rest[..size] + [0] + prev.buf[size + 1..])
  {
    hide DecodeVarint32;
  }

  /** pb_dec_bytes and pb_dec_string */
  method DecodeBufferFrom(stream: IStream, f: Field, prev: Value) returns (ok: bool, v: Value)
    requires stream.Valid() && WellFormedField(f) && ValueFits(f, prev)
    requires f.ltype.BYTES? || f.ltype.STRING?
    modifies stream
    ensures Stored(stream, ok, v, DecodeScalar(f, prev, old(stream.Rest())), ScalarLeft(f, prev, old(stream.Rest())))
  {
    hide DecodeScalar, ScalarLeft, DecodeVarint32;
    BufferOutcome(f, prev, stream.Rest());
    v := prev;
    var size;
    ok, size := DecodeVarint32From(stream);
    if !ok {
      return;
    }
    var allocSize := if f.ltype.BYTES? then size + BYTES_HEADER else size + 1;
    if allocSize > f.dataSize {
      return false, prev;
    }
    if f.ltype.BYTES? {
      v := Blob(size, prev.data);
    }
    var payload;
    ok, payload := stream.Read(size);
    if f.ltype.BYTES? {
      if ok {
        v := Blob(size, payload + prev.data[size..]);
      }
    } else {
      v := if ok then Text(payload + [0] + prev.buf[size + 1..]) else Text(prev.buf[size := 0]);
    }
  }

  method DecodeScalarFrom(stream: IStream, f: Field, prev: Value) returns (ok: bool, v: Value)
    requires stream.Valid() && WellFormedField(f) && ValueFits(f, prev) && !f.ltype.SUBMESSAGE?
    modifies stream
    ensures Stored(stream, ok, v, DecodeScalar(f, prev, old(stream.Rest())), ScalarLeft(f, prev, old(stream.Rest())))
  {
    hide DecodeScalar, ScalarLeft;
    if f.ltype.FIXED32? || f.ltype.FIXED64? {
      ok, v := DecodeFixedFrom(stream, f, prev);
    } else if f.ltype.BYTES? || f.ltype.STRING? {
      ok, v := DecodeBufferFrom(stream, f, prev);
    } else {
      ok, v := DecodeIntegerFrom(stream, f, prev);
    }
  }

  /** pb_message_set_to_defaults */
  method SetToDefaults(fields: seq<Field>, slots: seq<Slot>) returns (z: seq<Slot>)
    requires WellFormed(fields) && MsgFits(fields, slots)
    ensures z == Defaults(fields, slots)
    decreases fields
  {
    hide Defaults;
    z := slots;
    var iter := new FieldIter(fields, 0);
    if fields == [] {
      return;
    }
    var more := true;
    while more
      invariant iter.Valid() && iter.start == fields && |z| == |fields|
      invariant forall k | 0 <= k < (if more then iter.pos else |fields|) :: z[k] == Defaults(fields, slots)[k]
      invariant more ==> forall k | iter.pos <= k < |fields| :: z[k] == slots[k]
      decreases more, |fields| - iter.pos
    {
      var f := fields[iter.pos];
      var slot := slots[iter.pos];
      assert SlotFits(f, slot) && WellFormedField(f);
      DefaultsAt(fields, slots, iter.pos);
      var cleared;
      if slot.Many? {
        cleared := Many(0, slot.items);
      } else {
        var v := slot.v;
        if f.ltype.SUBMESSAGE? {
          var inner := SetToDefaults(f.sub, v.slots);
          v := Msg(inner);
        } else {
          v := ZeroValue(f, v);
        }
        cleared := if f.HasFlag() then Flagged(false, v) else One(v);
      }
      z := z[iter.pos := cleared];
      more := iter.Next();
    }
  }

  lemma DefaultsAt(fields: seq<Field>, slots: seq<Slot>, i: nat)
    requires MsgFits(fields, slots) && i < |fields| && SlotFits(fields[i], slots[i])
    ensures |Defaults(fields, slots)| == |fields| && Defaults(fields, slots)[i] == DefaultSlot(fields[i], slots[i])
  {
  }

  // ---------------------------------------------------------------------------
  // Fields and messages
  // ---------------------------------------------------------------------------

  method DecodeValueFrom(stream: IStream, f: Field, prev: Value) returns (ok: bool, v: Value)
    requires stream.Valid() && WellFormedField(f) && ValueFits(f, prev)
    requires f.ltype.SUBMESSAGE? ==> PresenceTestable(f.sub)
    modifies stream
    ensures Stored(stream, ok, v, DecodeValue(f, prev, old(stream.Rest())), ValueLeft(f, prev, old(stream.Rest())))
    decreases stream.bytesLeft, 1
  {
    hide DecodeScalar, ScalarLeft, DecodeMessage, MessageLeft, Substream;
    if f.ltype.SUBMESSAGE? {
      ok, v := DecodeSubmessage(stream, f, prev);
    } else {
      ok, v := DecodeScalarFrom(stream, f, prev);
    }
  }

  /** pb_dec_submessage */
  method DecodeSubmessage(stream: IStream, f: Field, prev: Value) returns (ok: bool, v: Value)
    requires stream.Valid() && WellFormedField(f) && ValueFits(f, prev) && f.ltype.SUBMESSAGE?
    requires PresenceTestable(f.sub)
    modifies stream
    ensures Stored(stream, ok, v, DecodeValue(f, prev, old(stream.Rest())), ValueLeft(f, prev, old(stream.Rest())))
    decreases stream.bytesLeft, 0
  {
    hide DecodeMessage, MessageLeft, Substream, Defaults;
    v := prev;
    var substream;
    ok, substream := MakeSubstream(stream);
    if !ok {
      return;
    }
    var base := prev.slots;
    if f.htype.REPEATED? {
      base := SetToDefaults(f.sub, prev.slots);
    }
    var status, inner := DecodeNoInit(substream, f.sub, base);
    v := Msg(inner);
    ok := CloseSubstream(stream, substream);
    ok := status;
  }

  /** The entry loop of a packed array on its substream. */
  method DecodePackedFrom(stream: IStream, f: Field, count: nat, items: seq<Value>) returns (ok: bool, slot: Slot)
    requires stream.Valid() && WellFormedField(f) && f.Packable() && SlotFits(f, Many(count, items))
    requires f.htype.REPEATED?
    modifies stream
    ensures stream.Confined()
    ensures ok <==> DecodePacked(f, items, count, old(stream.Rest())).Ok?
    ensures ok ==> slot == DecodePacked(f, items, count, old(stream.Rest())).value && stream.Leaves([])
    ensures slot == PackedLeft(f, items, count, old(stream.Rest()))
  {
    hide DecodeScalar, ScalarLeft;
    var size: nat := count;
    var data := items;
    ok := true;
    while stream.bytesLeft > 0 && size < f.arraySize
      invariant stream.Confined() && stream.End() == old(stream.End()) && SlotFits(f, Many(size, data))
      invariant DecodePacked(f, items, count, old(stream.Rest())) == DecodePacked(f, data, size, stream.Rest())
      invariant PackedLeft(f, items, count, old(stream.Rest())) == PackedLeft(f, data, size, stream.Rest())
      invariant ok
      decreases stream.bytesLeft
    {
      var v;
      ok, v := DecodeScalarFrom(stream, f, data[size]);
      data := data[size := v];
      if !ok {
        break;
      }
      size := size + 1;
    }
    slot := Many(size, data);
    if stream.bytesLeft != 0 {
      ok := false;
    }
  }

  /** decode_static_field */
  method DecodeFieldFrom(stream: IStream, f: Field, slot: Slot, wireType: nat) returns (ok: bool, result: Slot)
    requires stream.Valid() && WellFormedField(f) && SlotFits(f, slot)
    requires f.ltype.SUBMESSAGE? ==> PresenceTestable(f.sub)
    modifies stream
    ensures stream.Confined()
    ensures ok <==> DecodeSlot(f, slot, wireType, old(stream.Rest())).Ok?
    ensures ok ==> result == DecodeSlot(f, slot, wireType, old(stream.Rest())).value
                   && stream.Leaves(DecodeSlot(f, slot, wireType, old(stream.Rest())).rest)
    ensures result == SlotLeft(f, slot, wireType, old(stream.Rest()))
    decreases stream.bytesLeft, 2
  {
    hide DecodeValue, DecodePacked, Substream, ValueLeft, PackedLeft;
    result := slot;
    var v;
    match f.htype {
      case REQUIRED =>
        ok, v := DecodeValueFrom(stream, f, slot.v);
        result := One(v);
      case OPTIONAL =>
        ok, v := DecodeValueFrom(stream, f, slot.v);
        result := if f.HasFlag() then Flagged(true, v) else One(v);
      case REPEATED =>
        if wireType == Encoding.WT_STRING && f.Packable() {
          var substream;
          ok, substream := MakeSubstream(stream);
          if !ok {
            return;
          }
          ok, result := DecodePackedFrom(substream, f, slot.count, slot.items);
          if !ok {
            return;
          }
          ok := CloseSubstream(stream, substream);
        } else {
          if slot.count >= f.arraySize {
            return false, slot;
          }
          ok, v := DecodeValueFrom(stream, f, slot.items[slot.count]);
          result := Many(slot.count + 1, slot.items[slot.count := v]);
        }
    }
  }

  /** The final test: seek to the last field to count the required ones, then compare the words. */
  method CheckRequired(iter: FieldIter, w0: nat, w1: nat, ghost seen: set<nat>) returns (ok: bool)
    requires iter.Valid() && WellFormed(iter.start) && PresenceTestable(iter.start)
    requires RequiredOnly(iter.start, seen) && Represents(iter.start, seen, w0, w1)
    modifies iter
    ensures ok <==> AllRequired(iter.start, seen)
  {
    hide LowBits, Word, ShiftRight, RequiredCount, OffsetOf, WordsComplete, AllRequired, Represents;
    var fields := iter.start;
    var count := iter.requiredFieldIndex;
    var lastRequired := fields == [] || fields[iter.pos].htype.REQUIRED?;
    ghost var last := iter.pos;
    var more := iter.Next();
    while more
      invariant iter.Valid() && iter.start == fields
      invariant more ==> iter.pos < |fields| && last + 1 == iter.pos
      invariant !more ==> iter.pos == 0 && (last + 1 == |fields| || fields == [])
      invariant last < |fields| || (fields == [] && last == 0)
      invariant count == Ordinal(fields, last) && lastRequired == (fields == [] || fields[last].htype.REQUIRED?)
      decreases more, |fields| - last
    {
      count := iter.requiredFieldIndex;
      lastRequired := fields[iter.pos].htype.REQUIRED?;
      last := iter.pos;
      more := iter.Next();
    }
    if lastRequired && TagAt(fields, iter.pos) != 0 {
      count := count + 1;
    }
    if fields != [] { OrdinalStep(fields, |fields| - 1); }
    assert fields[..|fields|] == fields;
    WordsCompleteExact(fields, seen, w0, w1);
    ok := WordsComplete(count, w0, w1);
  }

  /** fields_seen[index >> 5] |= 1 << (index & 31) */
  method MarkSeen(fields: seq<Field>, i: nat, index: nat, w0: nat, w1: nat, ghost seen: set<nat>)
    returns (v0: nat, v1: nat)
    requires i < |fields| && fields[i].htype.REQUIRED? && index == Ordinal(fields, i) && index < MAX_REQUIRED_FIELDS
    requires Represents(fields, seen, w0, w1)
    ensures Represents(fields, seen + {i}, v0, v1)
  {
    hide LowBits, Word, SetBit;
    assert Ordinals(fields, seen + {i}) == Ordinals(fields, seen) + {index};
    v0, v1 := w0, w1;
    if index / WORD_BITS == 0 {
      SetBitIsInsert(Ordinals(fields, seen), 0, WORD_BITS, index);
      WordIgnores(Ordinals(fields, seen), index, WORD_BITS, WORD_BITS);
      v0 := SetBit(w0, index % WORD_BITS);
    } else {
      SetBitIsInsert(Ordinals(fields, seen), WORD_BITS, WORD_BITS, index - WORD_BITS);
      WordIgnores(Ordinals(fields, seen), index, 0, WORD_BITS);
      v1 := SetBit(w1, index % WORD_BITS);
    }
  }

  /** The turns of the field loop, one lemma a branch. */
  lemma {:induction false} LoopEnds(fields: seq<Field>, slots: seq<Slot>, seen: set<nat>, s: seq<byte>)
    requires WellFormed(fields) && MsgFits(fields, slots) && (s == [] || !DecodeTag(s).Tag?)
    ensures DecodeLoop(fields, slots, seen, s)
            == if s == [] then Done(slots, seen, [], false)
               else match DecodeTag(s)
                    case Stop(rest) => Done(slots, seen, rest, true)
                    case CutOff => Done(slots, seen, [], true)
                    case _ => Fail
    ensures MessageLeft(fields, slots, s) == slots
  {
  }

  lemma {:induction false} LoopSkips(fields: seq<Field>, slots: seq<Slot>, seen: set<nat>, s: seq<byte>)
    requires WellFormed(fields) && MsgFits(fields, slots) && s != [] && DecodeTag(s).Tag?
    requires Find(fields, DecodeTag(s).tag) == |fields|
    ensures DecodeLoop(fields, slots, seen, s)
            == if fields == [] && DecodeTag(s).tag == 0 then Fail
               else match SkipField(DecodeTag(s).wireType, DecodeTag(s).rest)
                    case Err => Fail
                    case Ok(_, rest) => DecodeLoop(fields, slots, seen, rest)
    ensures MessageLeft(fields, slots, s)
            == if fields == [] && DecodeTag(s).tag == 0 then slots
               else match SkipField(DecodeTag(s).wireType, DecodeTag(s).rest)
                    case Err => slots
                    case Ok(_, rest) => MessageLeft(fields, slots, rest)
  {
    TagProgress(s);
    SkipProgress(DecodeTag(s).wireType, DecodeTag(s).rest);
  }

  lemma {:induction false} LoopDecodes(fields: seq<Field>, slots: seq<Slot>, seen: set<nat>, s: seq<byte>, i: nat)
    requires WellFormed(fields) && MsgFits(fields, slots) && s != [] && DecodeTag(s).Tag?
    requires Find(fields, DecodeTag(s).tag) == i < |fields| && WellFormedField(fields[i])
    requires SlotFits(fields[i], slots[i])
    ensures DecodeLoop(fields, slots, seen, s)
            == match DecodeSlot(fields[i], slots[i], DecodeTag(s).wireType, DecodeTag(s).rest)
               case Err => Fail
               case Ok(slot, rest) => DecodeLoop(fields, slots[i := slot], seen + Seen(fields[i], i), rest)
    ensures MessageLeft(fields, slots, s)
            == var left := slots[i := SlotLeft(fields[i], slots[i], DecodeTag(s).wireType, DecodeTag(s).rest)];
               match DecodeSlot(fields[i], slots[i], DecodeTag(s).wireType, DecodeTag(s).rest)
               case Err => left
               case Ok(_, rest) => MessageLeft(fields, left, rest)
  {
    TagProgress(s);
  }

  /** pb_decode_noinit */
  method DecodeNoInit(stream: IStream, fields: seq<Field>, slots: seq<Slot>) returns (ok: bool, dest: seq<Slot>)
    requires stream.Valid() && WellFormed(fields) && MsgFits(fields, slots)
    requires PresenceTestable(fields)
    modifies stream
    ensures stream.Confined()
    ensures ok <==> DecodeMessage(fields, slots, old(stream.Rest())).Ok?
    ensures ok ==> dest == DecodeMessage(fields, slots, old(stream.Rest())).value
                   && stream.Leaves(DecodeMessage(fields, slots, old(stream.Rest())).rest)
    ensures dest == MessageLeft(fields, slots, old(stream.Rest()))
    decreases stream.bytesLeft, 3
  {
    hide DecodeLoop, DecodeSlot, MessageLeft, SlotLeft, SkipField, DecodeTag, Represents, Find, CircularFind;
    hide RequiredCount, OffsetOf;
    ghost var whole := DecodeLoop(fields, slots, {}, stream.Rest());
    ghost var left := MessageLeft(fields, slots, stream.Rest());
    dest := slots;
    var iter := new FieldIter(fields, 0);
    var w0: nat, w1: nat := 0, 0;
    ghost var seen: set<nat> := {};
    ghost var early := false;
    NothingMarked(fields);
    while stream.bytesLeft != 0
      invariant stream.Confined() && stream.End() == old(stream.End())
      invariant iter.Valid() && iter.start == fields && MsgFits(fields, dest)
      invariant RequiredOnly(fields, seen) && Represents(fields, seen, w0, w1)
      invariant whole == DecodeLoop(fields, dest, seen, stream.Rest())
      invariant left == MessageLeft(fields, dest, stream.Rest())
      decreases stream.bytesLeft
    {
      ghost var s := stream.Rest();
      TagProgress(s);
      var eof, tag, wireType;
      ok, eof, tag, wireType := DecodeTagFrom(stream);
      if !ok {
        LoopEnds(fields, dest, seen, s);
        if eof {
          early := true;
          assert whole == Done(dest, seen, stream.Rest(), true);
          break;
        }
        return;
      }
      ghost var rest := stream.Rest();
      var found := iter.Find(tag);
      if !found {
        LoopSkips(fields, dest, seen, s);
        SkipProgress(wireType, rest);
        ok := SkipFieldFrom(stream, wireType);
        if !ok {
          return;
        }
        continue;
      }
      if fields == [] {
        LoopSkips(fields, dest, seen, s);
        return false, dest;
      }
      CircleRefinesScan(fields, tag);
      var i := iter.pos;
      assert WellFormedField(fields[i]) && SlotFits(fields[i], dest[i]);
      LoopDecodes(fields, dest, seen, s, i);
      if fields[i].htype.REQUIRED? {
        OrdinalBelow(fields, i, |fields|);
        assert fields[..|fields|] == fields;
        w0, w1 := MarkSeen(fields, i, iter.requiredFieldIndex, w0, w1, seen);
      } else {
        assert seen + Seen(fields[i], i) == seen;
      }
      var result;
      ok, result := DecodeFieldFrom(stream, fields[i], dest[i], wireType);
      dest := dest[i := result];
      if !ok {
        return;
      }
      seen := seen + Seen(fields[i], i);
    }
    if !early {
      assert stream.Rest() == [];
      LoopEnds(fields, dest, seen, []);
    }
    assert whole == Done(dest, seen, stream.Rest(), early);
    ok := CheckRequired(iter, w0, w1, seen);
  }

  lemma NothingMarked(fields: seq<Field>)
    ensures Represents(fields, {}, 0, 0) && RequiredOnly(fields, {})
  {
    hide Word;
    assert Ordinals(fields, {}) == {};
    EmptyWord(0, WORD_BITS);
    EmptyWord(WORD_BITS, WORD_BITS);
  }

  /** pb_decode */
  method DecodeFrom(stream: IStream, fields: seq<Field>, slots: seq<Slot>) returns (ok: bool, dest: seq<Slot>)
    requires stream.Valid() && WellFormed(fields) && MsgFits(fields, slots)
    requires PresenceTestable(fields)
    modifies stream
    ensures stream.Confined()
    ensures ok <==> Decode(fields, slots, old(stream.Rest())).Ok?
    ensures ok ==> dest == Decode(fields, slots, old(stream.Rest())).value
                   && stream.Leaves(Decode(fields, slots, old(stream.Rest())).rest)
    ensures dest == DecodeLeft(fields, slots, old(stream.Rest()))
  {
    hide DecodeMessage, MessageLeft, Defaults;
    dest := SetToDefaults(fields, slots);
    ok, dest := DecodeNoInit(stream, fields, dest);
  }

  /** pb_decode_delimited */
  method DecodeDelimitedFrom(stream: IStream, fields: seq<Field>, slots: seq<Slot>) returns (ok: bool, dest: seq<Slot>)
    requires stream.Valid() && WellFormed(fields) && MsgFits(fields, slots)
    requires PresenceTestable(fields)
    modifies stream
    ensures stream.Confined()
    ensures ok <==> DecodeDelimited(fields, slots, old(stream.Rest())).Ok?
    ensures ok ==> dest == DecodeDelimited(fields, slots, old(stream.Rest())).value
                   && stream.Leaves(DecodeDelimited(fields, slots, old(stream.Rest())).rest)
    ensures dest == DelimitedLeft(fields, slots, old(stream.Rest()))
  {
    hide Decode, DecodeLeft, Substream;
    dest := slots;
    var substream;
    ok, substream := MakeSubstream(stream);
    if !ok {
      return;
    }
    var status;
    status, dest := DecodeFrom(substream, fields, slots);
    ok := CloseSubstream(stream, substream);
    ok := status;
  }
}
