/**
  The scalar layer of the Protocol Buffers wire format as nanopb reads and writes it:
  base-128 varints, zigzag integers and little-endian fixed words
  (sections "Base 128 Varints" and "Signed Integers" of the Encoding document).

  Everything here is a value-level specification; the streams of Encoder.dfy and
  Decoder.dfy compute exactly these functions byte by byte.
 */
module Wire {

  type byte = b: int | 0 <= b < 0x100

  const TWO32: nat := 0x1_0000_0000
  const TWO64: nat := 0x1_0000_0000_0000_0000

  /** The most bytes a 64-bit and a 32-bit varint may take. */
  const MAX_VARINT64: nat := 10
  const MAX_VARINT32: nat := 5

  /** A read that either yields a value or stops; both say what is left of the stream. */
  datatype Read<+T> = Got(value: T, rest: seq<byte>) | Failed(rest: seq<byte>)

  // ---------------------------------------------------------------------------
  // Varints
  // ---------------------------------------------------------------------------

  function EncodeVarint(v: nat): seq<byte> {
    if v <= 0x7F then [v] else [v % 0x80 + 0x80] + EncodeVarint(v / 0x80)
  }

  /** Reads seven-bit groups, low group first, while at most `left` bytes may still be consumed. */
  function ReadGroups(s: seq<byte>, left: nat): Read<nat>
    decreases |s|
  {
    if left == 0 || s == [] then Failed(s)
    else if s[0] < 0x80 then Got(s[0], s[1..])
    else
      match ReadGroups(s[1..], left - 1)
      case Got(v, rest) => Got(s[0] - 0x80 + 0x80 * v, rest)
      case Failed(rest) => Failed(rest)
  }

  /** The bits a 32-bit and a 64-bit word keep. */
  function Low32(n: nat): nat { n % TWO32 }
  function Low64(n: nat): nat { n % TWO64 }

  /** pb_decode_varint: shifts 0, 7, ..., 63, bits above the 64th are dropped. */
  function DecodeVarint(s: seq<byte>): Read<nat> {
    match ReadGroups(s, MAX_VARINT64)
    case Got(v, rest) => Got(Low64(v), rest)
    case Failed(rest) => Failed(rest)
  }

  /** pb_decode_varint32: shifts 0, 7, ..., 28, bits above the 32nd are dropped. */
  function DecodeVarint32(s: seq<byte>): Read<nat> {
    match ReadGroups(s, MAX_VARINT32)
    case Got(v, rest) => Got(Low32(v), rest)
    case Failed(rest) => Failed(rest)
  }

  function Exp128(n: nat): nat {
    if n == 0 then 1 else 0x80 * Exp128(n - 1)
  }

  lemma {:induction false} VarintSize(v: nat, n: nat)
    requires 0 < n && v < Exp128(n)
    ensures 1 <= |EncodeVarint(v)| <= n
    decreases n
  {
    if v > 0x7F {
      if n == 1 {
        Exp128Values();
        assert false;
      } else {
        VarintSize(v / 0x80, n - 1);
      }
    }
  }

  lemma Exp128Values()
    ensures Exp128(1) == 0x80 && TWO32 < Exp128(MAX_VARINT32)
    ensures Exp128(MAX_VARINT64 - 1) < TWO64 < Exp128(MAX_VARINT64)
  {
    assert Exp128(1) == 0x80 * Exp128(0);
    assert Exp128(3) == 0x80 * 0x80 * Exp128(1);
    assert Exp128(5) == 0x80 * 0x80 * Exp128(3);
    assert Exp128(7) == 0x80 * 0x80 * Exp128(5);
    assert Exp128(9) == 0x80 * 0x80 * Exp128(7);
  }

  lemma Varint64Size(v: nat)
    requires v < TWO64
    ensures 1 <= |EncodeVarint(v)| <= 10
    ensures v < TWO32 ==> |EncodeVarint(v)| <= 5
    ensures v < 0x80 ==> |EncodeVarint(v)| == 1
  {
    Exp128Values();
    VarintSize(v, MAX_VARINT64);
    if v < TWO32 { VarintSize(v, MAX_VARINT32); }
  }

  /** Reading inverts writing, whatever follows, and consumes exactly the bytes written. */
  lemma {:induction false} GroupsRoundTrip(v: nat, left: nat, rest: seq<byte>)
    requires |EncodeVarint(v)| <= left
    ensures ReadGroups(EncodeVarint(v) + rest, left) == Got(v, rest)
    decreases v
  {
    var s := EncodeVarint(v) + rest;
    if v <= 0x7F {
      assert s[1..] == rest;
    } else {
      assert s[1..] == EncodeVarint(v / 0x80) + rest;
      GroupsRoundTrip(v / 0x80, left - 1, rest);
    }
  }

  lemma {:induction false} VarintRoundTrip(v: nat, rest: seq<byte>)
    requires v < TWO64
    ensures DecodeVarint(EncodeVarint(v) + rest) == Got(v, rest)
  {
    Varint64Size(v);
    GroupsRoundTrip(v, MAX_VARINT64, rest);
  }

  lemma {:induction false} Varint32RoundTrip(v: nat, rest: seq<byte>)
    requires v < TWO32
    ensures DecodeVarint32(EncodeVarint(v) + rest) == Got(v, rest)
  {
    Varint64Size(v);
    GroupsRoundTrip(v, MAX_VARINT32, rest);
  }

  lemma {:induction false} GroupsBound(s: seq<byte>, left: nat)
    requires ReadGroups(s, left).Got?
    ensures var r := ReadGroups(s, left);
            |r.rest| < |s| <= |r.rest| + left && r.value < Exp128(|s| - |r.rest|)
    decreases left
  {
    if s[0] >= 0x80 {
      GroupsBound(s[1..], left - 1);
    } else {
      assert Exp128(1) == 0x80 * Exp128(0);
    }
  }

  /** The written form is minimal among everything the raw reader maps to the same number. */
  lemma GroupsShortest(s: seq<byte>, left: nat)
    requires ReadGroups(s, left).Got?
    ensures var r := ReadGroups(s, left); |EncodeVarint(r.value)| <= |s| - |r.rest|
  {
    GroupsBound(s, left);
    var r := ReadGroups(s, left);
    VarintSize(r.value, |s| - |r.rest|);
  }

  /** A number of 64 bits or more takes at least ten groups. */
  lemma {:induction false} WideTakesTen(s: seq<byte>)
    requires ReadGroups(s, MAX_VARINT64).Got? && ReadGroups(s, MAX_VARINT64).value >= TWO64
    ensures |s| - |ReadGroups(s, MAX_VARINT64).rest| >= 10
  {
    hide ReadGroups, Exp128;
    GroupsBound(s, MAX_VARINT64);
    Exp128Values();
    var used := |s| - |ReadGroups(s, MAX_VARINT64).rest|;
    if used < 10 { Exp128Mono(used, MAX_VARINT64 - 1); }
  }

  lemma Low64Bound(v: nat)
    ensures Low64(v) < TWO64 && (v < TWO64 ==> Low64(v) == v)
  {
  }

  /** No byte string that decodes to `v` is shorter than what pb_encode_varint writes. */
  lemma {:induction false} VarintShortest(s: seq<byte>)
    requires DecodeVarint(s).Got?
    ensures var r := DecodeVarint(s); |EncodeVarint(r.value)| <= |s| - |r.rest|
  {
    hide ReadGroups, EncodeVarint, Low64;
    var raw := ReadGroups(s, MAX_VARINT64);
    Low64Bound(raw.value);
    if raw.value < TWO64 {
      GroupsShortest(s, MAX_VARINT64);
    } else {
      WideTakesTen(s);
      Varint64Size(Low64(raw.value));
    }
  }

  lemma {:induction false} Exp128Mono(m: nat, n: nat)
    requires m <= n
    ensures 0 < Exp128(m) <= Exp128(n)
    decreases n
  {
    if m < n { Exp128Mono(m, n - 1); }
    else if n > 0 { Exp128Mono(m - 1, n - 1); }
  }

  lemma {:induction false} GroupsWiden(s: seq<byte>, left: nat, wider: nat)
    requires left <= wider && ReadGroups(s, left).Got?
    ensures ReadGroups(s, wider) == ReadGroups(s, left)
    decreases left
  {
    if s[0] >= 0x80 { GroupsWiden(s[1..], left - 1, wider - 1); }
  }

  lemma LowOfLow(v: nat)
    ensures Low64(v) % TWO32 == Low32(v)
  {
    var words := TWO32 * (v / TWO64);
    assert v == Low64(v) + TWO32 * words;
    DropWords(Low64(v), words);
  }

  lemma DropWords(a: nat, k: nat)
    ensures (a + TWO32 * k) % TWO32 == a % TWO32
  {
  }

  /** Whenever the 32-bit reader succeeds, the 64-bit one reads the same bytes and agrees modulo 2^32. */
  lemma {:induction false} Varint32Agrees(s: seq<byte>)
    requires DecodeVarint32(s).Got?
    ensures DecodeVarint(s).Got?
    ensures DecodeVarint(s).rest == DecodeVarint32(s).rest
    ensures DecodeVarint(s).value % TWO32 == DecodeVarint32(s).value
  {
    hide ReadGroups, Low32, Low64;
    GroupsWiden(s, MAX_VARINT32, MAX_VARINT64);
    LowOfLow(ReadGroups(s, MAX_VARINT32).value);
  }

  /** Bytes after the ones a read needs do not change it. */
  lemma {:induction false} GroupsLocal(s: seq<byte>, left: nat, more: seq<byte>)
    ensures ReadGroups(s, left).Got? ==>
              ReadGroups(s + more, left) == Got(ReadGroups(s, left).value, ReadGroups(s, left).rest + more)
    ensures ReadGroups(s, left).Failed? && ReadGroups(s, left).rest != [] ==>
              ReadGroups(s + more, left) == Failed(ReadGroups(s, left).rest + more)
    decreases left
  {
    if left != 0 && s != [] {
      if s[0] >= 0x80 {
        assert (s + more)[1..] == s[1..] + more;
        GroupsLocal(s[1..], left - 1, more);
      } else {
        assert (s + more)[1..] == s[1..] + more;
      }
    }
  }

  lemma {:induction false} GroupsProgress(s: seq<byte>, left: nat)
    ensures |ReadGroups(s, left).rest| <= |s|
    ensures ReadGroups(s, left).Got? ==> |ReadGroups(s, left).rest| < |s|
    decreases left
  {
    if left != 0 && s != [] && s[0] >= 0x80 { GroupsProgress(s[1..], left - 1); }
  }

  // ---------------------------------------------------------------------------
  // Two's complement views and zigzag
  // ---------------------------------------------------------------------------

  function ToUnsigned64(n: int): (u: nat)
    ensures u < TWO64
  {
    n % TWO64
  }

  /** The value of the low `half * 2` range read as a signed number. */
  function ToSigned(u: int, half: nat): int
    requires 0 < half
  {
    (u + half) % (2 * half) - half
  }

  function ToInt64(u: int): int { ToSigned(u, 0x8000_0000_0000_0000) }
  function ToInt32(u: int): int { ToSigned(u, 0x8000_0000) }

  /** pb_encode_svarint: `value << 1`, complemented for negative values, in 64 bits. */
  function ZigZag(n: int): nat {
    var doubled := (2 * ToUnsigned64(n)) % TWO64;
    if n < 0 then TWO64 - 1 - doubled else doubled
  }

  /** pb_decode_svarint: `value >> 1`, complemented when the low bit is set. */
  function UnZigZag(u: nat): int {
    if u % 2 == 1 then ToInt64(TWO64 - 1 - u / 2) else ToInt64(u / 2)
  }

  predicate IsInt64(n: int) { -0x8000_0000_0000_0000 <= n < 0x8000_0000_0000_0000 }

  /** Zigzag numbers the signed 64-bit integers 0, -1, 1, -2, ... and is inverted by the decoder. */
  lemma ZigZagRoundTrip(n: int)
    requires IsInt64(n)
    ensures ZigZag(n) == (if n < 0 then -2 * n - 1 else 2 * n) < TWO64
    ensures UnZigZag(ZigZag(n)) == n
  {
    if n < 0 {
      assert ToUnsigned64(n) == n + TWO64;
      assert 2 * ToUnsigned64(n) == (2 * n + TWO64) + TWO64;
      assert (2 * ToUnsigned64(n)) % TWO64 == 2 * n + TWO64;
      assert ZigZag(n) / 2 == -n - 1;
    }
  }

  /** ... and every 64-bit code is the zigzag form of exactly the integer it decodes to. */
  lemma ZigZagOnto(u: nat)
    requires u < TWO64
    ensures IsInt64(UnZigZag(u)) && ZigZag(UnZigZag(u)) == u
  {
    var n := if u % 2 == 1 then -(u / 2) - 1 else u / 2;
    assert UnZigZag(u) == n;
    ZigZagRoundTrip(n);
  }

  // ---------------------------------------------------------------------------
  // Fixed-width words
  // ---------------------------------------------------------------------------

  function LittleEndian(v: nat, n: nat): (bs: seq<byte>)
    ensures |bs| == n
  {
    if n == 0 then [] else [v % 0x100] + LittleEndian(v / 0x100, n - 1)
  }

  function FromLittleEndian(bs: seq<byte>): nat {
    if bs == [] then 0 else bs[0] + 0x100 * FromLittleEndian(bs[1..])
  }

  function Exp256(n: nat): nat {
    if n == 0 then 1 else 0x100 * Exp256(n - 1)
  }

  lemma {:induction false} FixedRoundTrip(v: nat, n: nat)
    requires v < Exp256(n)
    ensures FromLittleEndian(LittleEndian(v, n)) == v
    decreases n
  {
    if n > 0 {
      assert LittleEndian(v, n)[1..] == LittleEndian(v / 0x100, n - 1);
      FixedRoundTrip(v / 0x100, n - 1);
    }
  }

  lemma {:induction false} FixedBound(bs: seq<byte>)
    ensures FromLittleEndian(bs) < Exp256(|bs|)
    decreases |bs|
  {
    if bs != [] { FixedBound(bs[1..]); }
  }

  lemma Exp256Values()
    ensures Exp256(4) == TWO32 && Exp256(8) == TWO64
  {
    assert Exp256(2) == 0x100 * 0x100;
    assert Exp256(4) == 0x100 * 0x100 * Exp256(2);
    assert Exp256(6) == 0x100 * 0x100 * Exp256(4);
    assert Exp256(8) == 0x100 * 0x100 * Exp256(6);
  }
}
