/**
  The wire format in plain numbers: which bytes stand for which tag, varint and word, and
  what each kind of member makes of any payload, valid or not.

  The other modules relate writer and reader to each other. Here both are related to the
  numbers of the Protocol Buffers Encoding document.
 */
module WireFormat {
  import opened Wire
  import opened Schema
  import opened Encoding
  import opened Decoding
  import opened Aftermath
  import opened Merging
  import opened Truncation

  // ---------------------------------------------------------------------------
  // Varints and words, byte by byte
  // ---------------------------------------------------------------------------

  /** v >> 7k, and v >> 8k */
  function ShiftedBySevens(v: nat, k: nat): nat {
    if k == 0 then v else ShiftedBySevens(v / 128, k - 1)
  }

  function ShiftedByEights(v: nat, k: nat): nat {
    if k == 0 then v else ShiftedByEights(v / 256, k - 1)
  }

  /** Byte k of a written varint holds bits 7k to 7k + 6, and its top bit says whether more follow. */
  lemma {:induction false} VarintBytes(v: nat, k: nat)
    requires k < |EncodeVarint(v)|
    ensures EncodeVarint(v)[k]
            == ShiftedBySevens(v, k) % 128 + (if k + 1 < |EncodeVarint(v)| then 128 else 0)
    ensures k + 1 < |EncodeVarint(v)| <==> ShiftedBySevens(v, k) >= 128
    decreases k
  {
    if k > 0 { VarintBytes(v / 128, k - 1); }
  }

  /** Byte k of a written word holds bits 8k to 8k + 7. */
  lemma {:induction false} WordBytes(v: nat, n: nat, k: nat)
    requires k < n
    ensures LittleEndian(v, n)[k] == ShiftedByEights(v, k) % 256
    decreases k
  {
    if k > 0 { WordBytes(v / 256, n - 1, k - 1); }
  }

  /** Reading a word loses nothing either. */
  lemma {:induction false} WordOnto(bs: seq<byte>)
    ensures LittleEndian(FromLittleEndian(bs), |bs|) == bs
    decreases |bs|
  {
    if bs != [] {
      var high := FromLittleEndian(bs[1..]);
      var v := bs[0] + 256 * high;
      assert v % 256 == bs[0] && v / 256 == high;
      WordOnto(bs[1..]);
    }
  }

  /** The seven-bit groups of the first `n` bytes, each in its place. */
  function Weighted(s: seq<byte>, n: nat): nat
    requires n <= |s|
  {
    if n == 0 then 0 else Weighted(s, n - 1) + s[n - 1] % 128 * Exp128(n - 1)
  }

  /** The first byte below 128 is the one at `k`. */
  predicate EndsAt(s: seq<byte>, k: nat) {
    k < |s| && s[k] < 128 && forall j | 0 <= j < k :: s[j] >= 128
  }

  lemma {:induction false} WeightedShift(s: seq<byte>, n: nat)
    requires 0 < n <= |s|
    ensures Weighted(s, n) == s[0] % 128 + 128 * Weighted(s[1..], n - 1)
    decreases n
  {
    if n == 1 {
      assert Exp128(0) == 1 && Weighted(s, 0) == 0 && Weighted(s[1..], 0) == 0;
    } else {
      WeightedShift(s, n - 1);
      var g, e := s[n - 1] % 128, Exp128(n - 2);
      assert s[1..][n - 2] == s[n - 1];
      assert g * (128 * e) == 128 * (g * e);
    }
  }

  /** Any byte string read as a varint, also one with more groups than its number needs. */
  lemma {:induction false} GroupsExactly(s: seq<byte>, left: nat, k: nat)
    requires EndsAt(s, k)
    ensures k < left ==> ReadGroups(s, left) == Got(Weighted(s, k + 1), s[k + 1..])
    ensures k >= left ==> ReadGroups(s, left).Failed?
    decreases k
  {
    WeightedShift(s, k + 1);
    if left > 0 && k > 0 {
      assert EndsAt(s[1..], k - 1);
      GroupsExactly(s[1..], left - 1, k - 1);
      assert s[1..][k..] == s[k + 1..];
      assert s[0] % 128 == s[0] - 128;
    }
    if k == 0 && left > 0 {
      assert Weighted(s[1..], 0) == 0;
    }
  }

  lemma {:induction false} NeverEnds(s: seq<byte>, left: nat)
    requires forall k: nat | k < |s| :: s[k] >= 128
    ensures ReadGroups(s, left).Failed?
    decreases |s|
  {
    if s != [] && left > 0 {
      assert forall k: nat | k < |s| - 1 :: s[1..][k] == s[k + 1];
      NeverEnds(s[1..], left - 1);
    }
  }

  lemma {:induction false} EndsSomewhere(s: seq<byte>)
    ensures (exists k :: EndsAt(s, k)) || forall k: nat | k < |s| :: s[k] >= 128
    decreases |s|
  {
    if s != [] {
      if s[0] < 128 {
        assert EndsAt(s, 0);
      } else {
        EndsSomewhere(s[1..]);
        if k: nat :| EndsAt(s[1..], k) {
          assert forall j | 0 < j <= k :: s[j] == s[1..][j - 1];
          assert EndsAt(s, k + 1);
        } else {
          assert forall j: nat | 0 < j < |s| :: s[j] == s[1..][j - 1];
        }
      }
    }
  }

  /** A varint is at most ten bytes and keeps 64 bits, or at most five and keeps 32 ... */
  lemma VarintReadAt(s: seq<byte>, k: nat)
    requires EndsAt(s, k)
    ensures if k < 10 then DecodeVarint(s) == Got(Weighted(s, k + 1) % 0x1_0000_0000_0000_0000, s[k + 1..])
            else DecodeVarint(s).Failed?
    ensures if k < 5 then DecodeVarint32(s) == Got(Weighted(s, k + 1) % 0x1_0000_0000, s[k + 1..])
            else DecodeVarint32(s).Failed?
  {
    hide ReadGroups, Weighted;
    GroupsExactly(s, 10, k);
    GroupsExactly(s, 5, k);
  }

  /** ... and nothing else is read. */
  lemma VarintReadExactly(s: seq<byte>)
    ensures DecodeVarint(s).Got? <==> exists k: nat :: EndsAt(s, k) && k < 10
    ensures DecodeVarint32(s).Got? <==> exists k: nat :: EndsAt(s, k) && k < 5
  {
    hide DecodeVarint, DecodeVarint32;
    if k: nat :| EndsAt(s, k) {
      assert forall j: nat | EndsAt(s, j) :: j == k;
      VarintReadAt(s, k);
    } else {
      EndsSomewhere(s);
      NothingRead(s);
    }
  }

  lemma NothingRead(s: seq<byte>)
    requires forall k: nat | k < |s| :: s[k] >= 128
    ensures DecodeVarint(s).Failed? && DecodeVarint32(s).Failed?
  {
    NeverEnds(s, 10);
    NeverEnds(s, 5);
  }

  /** The number that stands for an integer: a negative `int` is its 64-bit complement, whatever the member's size. */
  lemma WrittenNumber(f: Field, n: int, rest: seq<byte>)
    requires WellFormedField(f) && ValueFits(f, Num(n)) && (f.ltype.VARINT? || f.ltype.UVARINT? || f.ltype.SVARINT?)
    ensures EncodeScalar(f, Num(n)).Some?
    ensures DecodeVarint(EncodeScalar(f, Num(n)).value + rest)
            == Got(if f.ltype.SVARINT? then (if n < 0 then -2 * n - 1 else 2 * n)
                   else if n < 0 then n + 0x1_0000_0000_0000_0000 else n, rest)
  {
    hide EncodeVarint, DecodeVarint, ZigZag;
    if f.ltype.SVARINT? {
      ZigZagRoundTrip(n);
      VarintRoundTrip(ZigZag(n), rest);
    } else {
      VarintRoundTrip(ToUnsigned64(n), rest);
    }
  }

  /** What is written for everything else: a word of four or eight bytes, or a length and the live bytes. */
  lemma {:induction false} WrittenBytes(f: Field, v: Value, rest: seq<byte>)
    requires WellFormedField(f) && ValueFits(f, v)
    requires f.ltype.FIXED32? || f.ltype.FIXED64? || f.ltype.BYTES? || f.ltype.STRING?
    requires EncodeScalar(f, v).Some? && |EncodeScalar(f, v).value| < TWO32
    ensures var e := EncodeScalar(f, v).value;
            match v
            case Num(n) => e == LittleEndian(n, if f.ltype.FIXED32? then 4 else 8)
            case Blob(size, data) => size <= |data| && DecodeVarint32(e + rest) == Got(size, data[..size] + rest)
            case Text(buf) => DecodeVarint32(e + rest) == Got(|CString(buf)|, CString(buf) + rest)
            case Msg(_) => false
  {
    hide EncodeVarint, DecodeVarint32, CString;
    if !v.Num? {
      var bs := if v.Blob? then v.data[..v.size] else CString(v.buf);
      assert Delimited(bs) + rest == EncodeVarint(|bs|) + (bs + rest);
      Varint32RoundTrip(|bs|, bs + rest);
    }
  }

  /** The two examples of the Encoding document. */
  lemma DocumentExamples()
    ensures EncodeVarint(1) == [0x01] && EncodeVarint(150) == [0x96, 0x01]
    ensures EncodeTag(WireType(VARINT), 1) + EncodeVarint(150) == [0x08, 0x96, 0x01]
  {
    assert EncodeVarint(150) == [0x96] + EncodeVarint(1);
  }

  // ---------------------------------------------------------------------------
  // Tags
  // ---------------------------------------------------------------------------

  /** The number under which each kind of entry is announced. */
  function WireTypeNumber(t: LType): nat {
    if t.FIXED64? then 1 else if t.FIXED32? then 5
    else if t.BYTES? || t.STRING? || t.SUBMESSAGE? then 2 else 0
  }

  /** An entry begins with eight times its tag and its wire type, as one varint. */
  lemma EntryTagNumber(f: Field, v: Value, rest: seq<byte>)
    requires WellFormedField(f) && ValueFits(f, v) && EncodeTagged(f, v).Some?
    ensures EncodeValue(f, v).Some?
    ensures DecodeVarint32(EncodeTagged(f, v).value + rest)
            == Got(8 * f.tag + WireTypeNumber(f.ltype), EncodeValue(f, v).value + rest)
  {
    hide EncodeValue, EncodeVarint, DecodeVarint32;
    var t := EncodeTag(WireType(f.ltype), f.tag);
    var p := EncodeValue(f, v).value;
    Varint32RoundTrip(8 * f.tag + WireTypeNumber(f.ltype), p + rest);
    assert t + p + rest == t + (p + rest);
  }

  /** A reader takes every number but 0 apart as a tag, also with tag 0; only the number 0 ends the message. */
  lemma TagReadExactly(t: nat, rest: seq<byte>)
    requires t < TWO32
    ensures DecodeTag(EncodeVarint(t) + rest) == if t == 0 then Stop(rest) else Tag(t / 8, t % 8, rest)
  {
    hide DecodeVarint32, EncodeVarint;
    Varint32RoundTrip(t, rest);
  }

  /** A non-empty array of numbers is announced once, with wire type 2 and its length. */
  lemma ArrayTagNumber(f: Field, count: nat, items: seq<Value>)
    requires WellFormedField(f) && SlotFits(f, Many(count, items)) && f.htype.REPEATED? && 0 < count <= |items|
    requires !f.ltype.BYTES? && !f.ltype.STRING? && !f.ltype.SUBMESSAGE?
    ensures EncodePacked(f, items[..count]).Some? && EncodeSlot(f, Many(count, items)).Some?
    ensures DecodeVarint32(EncodeSlot(f, Many(count, items)).value)
            == Got(8 * f.tag + 2, Delimited(EncodePacked(f, items[..count]).value))
  {
    hide EncodePacked, EncodeVarint, DecodeVarint32, Delimited;
    PackedEncodable(f, items[..count]);
    Varint32RoundTrip(8 * f.tag + 2, Delimited(EncodePacked(f, items[..count]).value));
  }

  /** What a reader passes over for each wire type; every other wire type is an error. */
  lemma {:induction false} SkipExactly(wireType: nat, s: seq<byte>)
    ensures wireType == 0 ==>
              (SkipField(wireType, s).Ok? <==> exists k :: EndsAt(s, k))
              && forall k | EndsAt(s, k) :: SkipField(wireType, s) == Ok((), s[k + 1..])
    ensures wireType == 1 ==> SkipField(wireType, s) == if |s| < 8 then Err else Ok((), s[8..])
    ensures wireType == 2 ==>
              SkipField(wireType, s) == match DecodeVarint32(s)
                                        case Failed(_) => Err
                                        case Got(n, rest) => if |rest| < n then Err else Ok((), rest[n..])
    ensures wireType == 5 ==> SkipField(wireType, s) == if |s| < 4 then Err else Ok((), s[4..])
    ensures wireType !in {0, 1, 2, 5} ==> SkipField(wireType, s) == Err
  {
    hide DecodeVarint32;
    if wireType == 0 {
      forall k | EndsAt(s, k) ensures SkipField(wireType, s) == Ok((), s[k + 1..]) {
        SkipToEnd(s, k);
      }
      EndsSomewhere(s);
      if !exists k :: EndsAt(s, k) { SkipNoEnd(s); }
    }
  }

  lemma {:induction false} SkipToEnd(s: seq<byte>, k: nat)
    requires EndsAt(s, k)
    ensures SkipVarint(s) == Ok((), s[k + 1..])
    decreases k
  {
    if k > 0 {
      assert EndsAt(s[1..], k - 1);
      SkipToEnd(s[1..], k - 1);
      assert s[1..][k..] == s[k + 1..];
    }
  }

  lemma {:induction false} SkipNoEnd(s: seq<byte>)
    requires forall k: nat | k < |s| :: s[k] >= 128
    ensures SkipVarint(s).Err?
    decreases |s|
  {
    if s != [] {
      assert forall k: nat | k < |s| - 1 :: s[1..][k] == s[k + 1];
      SkipNoEnd(s[1..]);
    }
  }

  /** Only an array of numbers looks at the wire type, and only whether it is 2. */
  lemma WireTypeIgnored(f: Field, slot: Slot, w: nat, w': nat, s: seq<byte>)
    requires WellFormedField(f) && SlotFits(f, slot)
    requires f.htype.REPEATED? && !f.ltype.BYTES? && !f.ltype.STRING? && !f.ltype.SUBMESSAGE? ==> (w == 2 <==> w' == 2)
    ensures DecodeSlot(f, slot, w, s) == DecodeSlot(f, slot, w', s)
    ensures SlotLeft(f, slot, w, s) == SlotLeft(f, slot, w', s)
  {
  }

  /** On the table of an empty message a field numbered 0 fails, where every other table skips it. */
  lemma {:induction false} ZeroFieldExactly(fields: seq<Field>, d: seq<Slot>, seen: set<nat>, s: seq<byte>)
    requires WellFormed(fields) && MsgFits(fields, d) && s != [] && DecodeTag(s).Tag? && DecodeTag(s).tag == 0
    ensures DecodeLoop(fields, d, seen, s)
            == match SkipField(DecodeTag(s).wireType, DecodeTag(s).rest)
               case Err => Fail
               case Ok(_, rest) => if fields == [] then Fail else DecodeLoop(fields, d, seen, rest)
  {
    hide SkipField, DecodeTag;
    TagProgress(s);
    SkipProgress(DecodeTag(s).wireType, DecodeTag(s).rest);
    forall i | 0 <= i < |fields| ensures fields[i].tag != 0 {
      assert WellFormedField(fields[i]);
    }
    assert Find(fields, 0) == |fields|;
  }

  // ---------------------------------------------------------------------------
  // Members of every kind, on any payload
  // ---------------------------------------------------------------------------

  /** How many numbers a member of `size` bytes can tell apart. */
  function Words(size: nat): (n: nat)
    ensures n > 0
  {
    if size == 1 then 256 else if size == 2 then 65536 else if size == 4 then 4294967296 else 18446744073709551616
  }

  predicate InUnsigned(size: nat, n: int) {
    0 <= n < Words(size)
  }

  predicate InSigned(size: nat, n: int) {
    -(Words(size) / 2) <= n < Words(size) / 2
  }

  /** They agree in the bits of a member of `size` bytes. */
  predicate SameLowBits(size: nat, a: int, b: int) {
    if size == 1 then (a - b) % 256 == 0 else if size == 2 then (a - b) % 65536 == 0
    else if size == 4 then (a - b) % 4294967296 == 0 else (a - b) % 18446744073709551616 == 0
  }

  /**
    What an integer decoder does with the number `n` that was sent: store it if the member
    can hold it; otherwise it is an error, and what is left in the member agrees with `n` in
    the bits that the member has.
   */
  ghost predicate TakesInteger(f: Field, prev: Value, s: seq<byte>, n: int, fits: bool)
    requires WellFormedField(f) && ValueFits(f, prev) && !f.ltype.SUBMESSAGE? && DecodeVarint(s).Got?
  {
    && DecodeScalar(f, prev, s) == (if fits then Ok(Num(n), DecodeVarint(s).rest) else Err)
    && ScalarLeft(f, prev, s).Num? && SameLowBits(f.dataSize, n, ScalarLeft(f, prev, s).n)
  }

  lemma UnsignedExactly(f: Field, prev: Value, s: seq<byte>)
    requires WellFormedField(f) && ValueFits(f, prev) && f.ltype.UVARINT? && DecodeVarint(s).Got?
    ensures var u := DecodeVarint(s).value;
            && TakesInteger(f, prev, s, u, InUnsigned(f.dataSize, u))
            && InUnsigned(f.dataSize, ScalarLeft(f, prev, s).n)
  {
    hide DecodeVarint;
    UnsignedCut(f.dataSize, DecodeVarint(s).value);
  }

  /** What is cut off is a multiple of the number of values. */
  lemma CutOff(size: nat, n: int)
    requires IntegerSize(size)
    ensures SameLowBits(size, n, n % Words(size)) && 0 <= n % Words(size) < Words(size)
  {
    if size == 1 { CutOff1(n); }
    else if size == 2 { CutOff2(n); }
    else if size == 4 { CutOff4(n); }
    else { CutOff8(n); }
  }

  lemma CutOff1(n: int)
    ensures (n - n % 256) % 256 == 0
  {
  }

  lemma CutOff2(n: int)
    ensures (n - n % 65536) % 65536 == 0
  {
  }

  lemma CutOff4(n: int)
    ensures (n - n % 4294967296) % 4294967296 == 0
  {
  }

  lemma CutOff8(n: int)
    ensures (n - n % 18446744073709551616) % 18446744073709551616 == 0
  {
  }

  lemma SameLowBitsShift(size: nat, a: int, b: int, h: int)
    requires SameLowBits(size, a + h, b + h)
    ensures SameLowBits(size, a, b)
  {
    assert (a + h) - (b + h) == a - b;
  }

  lemma RangesMatch(size: nat)
    requires IntegerSize(size)
    ensures Words(size) == 2 * HalfRange(size) && Words(size) / 2 == HalfRange(size)
  {
  }

  lemma Small(n: int, m: nat)
    requires 0 < m
    ensures n % m == n <==> 0 <= n < m
  {
  }

  lemma UnsignedCut(size: nat, u: nat)
    requires IntegerSize(size)
    ensures var n := u % (2 * HalfRange(size));
            SameLowBits(size, u, n) && InUnsigned(size, n) && (n == u <==> InUnsigned(size, u))
  {
    hide SameLowBits, Words, HalfRange;
    RangesMatch(size);
    CutOff(size, u);
    Small(u, Words(size));
  }

  lemma SignedCut(size: nat, m: int)
    requires IntegerSize(size)
    ensures var n := ToSigned(m, HalfRange(size));
            SameLowBits(size, m, n) && InSigned(size, n) && (n == m <==> InSigned(size, m))
  {
    hide SameLowBits, Words, HalfRange;
    RangesMatch(size);
    var h := HalfRange(size);
    CutOff(size, m + h);
    Small(m + h, Words(size));
    SameLowBitsShift(size, m, ToSigned(m, h), h);
  }

  /** An `int` member reads the low 32 bits with their sign; only one of eight bytes reads all 64. */
  lemma SignedExactly(f: Field, prev: Value, s: seq<byte>)
    requires WellFormedField(f) && ValueFits(f, prev) && f.ltype.VARINT? && DecodeVarint(s).Got?
    ensures var u := DecodeVarint(s).value;
            exists n ::
              && (if f.dataSize == 8 then InSigned(8, n) && SameLowBits(8, u, n)
                  else InSigned(4, n) && SameLowBits(4, u, n))
              && TakesInteger(f, prev, s, n, InSigned(f.dataSize, n)) && InSigned(f.dataSize, ScalarLeft(f, prev, s).n)
  {
    hide DecodeVarint;
    var n := VarintAsSigned(f.dataSize, DecodeVarint(s).value);
    SignedCut(if f.dataSize == 8 then 8 else 4, DecodeVarint(s).value);
    SignedCut(f.dataSize, n);
    assert TakesInteger(f, prev, s, n, InSigned(f.dataSize, n));
  }

  lemma ZigZagExactly(f: Field, prev: Value, s: seq<byte>)
    requires WellFormedField(f) && ValueFits(f, prev) && f.ltype.SVARINT? && DecodeVarint(s).Got?
    ensures var u := DecodeVarint(s).value;
            var n := if u % 2 == 0 then u / 2 else -(u / 2) - 1;
            TakesInteger(f, prev, s, n, InSigned(f.dataSize, n)) && InSigned(f.dataSize, ScalarLeft(f, prev, s).n)
  {
    UnZigZagExactly(DecodeVarint(s).value);
    hide DecodeVarint, UnZigZag;
    SignedCut(f.dataSize, UnZigZag(DecodeVarint(s).value));
  }

  /** 0, -1, 1, -2, 2, ... */
  lemma UnZigZagExactly(u: nat)
    requires u < TWO64
    ensures UnZigZag(u) == if u % 2 == 0 then u / 2 else -(u / 2) - 1
  {
  }

  /** A bytes member of `dataSize` bytes, one of them its size, takes any payload with room; what lies behind stays. */
  lemma BytesExactly(f: Field, prev: Value, payload: seq<byte>, rest: seq<byte>)
    requires WellFormedField(f) && ValueFits(f, prev) && f.ltype.BYTES? && |payload| < TWO32
    ensures DecodeScalar(f, prev, Delimited(payload) + rest)
            == if |payload| + 1 <= f.dataSize then Ok(Blob(|payload|, payload + prev.data[|payload|..]), rest) else Err
    ensures |payload| + 1 > f.dataSize ==> ScalarLeft(f, prev, Delimited(payload) + rest) == prev
  {
    hide DecodeVarint32, EncodeVarint;
    assert Delimited(payload) + rest == EncodeVarint(|payload|) + (payload + rest);
    Varint32RoundTrip(|payload|, payload + rest);
    assert (payload + rest)[..|payload|] == payload && (payload + rest)[|payload|..] == rest;
  }

  /** A string member takes any payload that leaves room for a NUL, which follows it; what lies behind stays. */
  lemma StringExactly(f: Field, prev: Value, payload: seq<byte>, rest: seq<byte>)
    requires WellFormedField(f) && ValueFits(f, prev) && f.ltype.STRING? && |payload| < TWO32
    ensures DecodeScalar(f, prev, Delimited(payload) + rest)
            == if |payload| + 1 <= f.dataSize then Ok(Text(payload + [0] + prev.buf[|payload| + 1..]), rest) else Err
    ensures |payload| + 1 > f.dataSize ==> ScalarLeft(f, prev, Delimited(payload) + rest) == prev
  {
    hide DecodeVarint32, EncodeVarint;
    assert Delimited(payload) + rest == EncodeVarint(|payload|) + (payload + rest);
    Varint32RoundTrip(|payload|, payload + rest);
    assert (payload + rest)[..|payload|] == payload && (payload + rest)[|payload|..] == rest;
  }

  /** Words are the four or eight bytes that come next, low byte first. */
  lemma WordExactly(f: Field, prev: Value, s: seq<byte>)
    requires WellFormedField(f) && ValueFits(f, prev) && (f.ltype.FIXED32? || f.ltype.FIXED64?)
    ensures var width := if f.ltype.FIXED32? then 4 else 8;
            if |s| < width then DecodeScalar(f, prev, s) == Err && ScalarLeft(f, prev, s) == prev
            else exists v: nat ::
                   DecodeScalar(f, prev, s) == Ok(Num(v), s[width..]) && LittleEndian(v, width) == s[..width]
  {
    hide FromLittleEndian, LittleEndian;
    var width := if f.ltype.FIXED32? then 4 else 8;
    if |s| >= width {
      WordOnto(s[..width]);
      assert DecodeScalar(f, prev, s) == Ok(Num(FromLittleEndian(s[..width])), s[width..]);
    }
  }

  /** A packed run that does not fit is an error, and has filled the array up to its last entry. */
  lemma {:induction false} PackedOverflow(f: Field, items: seq<Value>, count: nat, vs: seq<Value>)
    requires WellFormedField(f) && f.Packable() && f.htype.REPEATED? && |items| == f.arraySize && count <= |items|
    requires AllFit(f, items) && AllFit(f, vs) && EncodePacked(f, vs).Some? && count + |vs| > f.arraySize
    ensures var room := f.arraySize - count;
            PackedLeft(f, items, count, EncodePacked(f, vs).value) == Many(f.arraySize, items[..count] + vs[..room])
    decreases |vs|
  {
    hide EncodeScalar, DecodeScalar, ScalarLeft, ValueFits;
    var e := EncodePacked(f, vs).value;
    ScalarFits(f, vs[0]);
    if count == f.arraySize {
      assert items[..count] + vs[..0] == items;
    } else {
      var more := EncodePacked(f, vs[1..]).value;
      ScalarExact(f, items[count], vs[0], more);
      PlainNumber(f, items[count], vs[0]);
      ScalarAgrees(f, items[count], e);
      var next := items[count := vs[0]];
      PackedOverflow(f, next, count + 1, vs[1..]);
      assert next[..count + 1] + vs[1..][..f.arraySize - count - 1] == items[..count] + vs[..f.arraySize - count];
    }
  }

  lemma ScalarFits(f: Field, v: Value)
    requires WellFormedField(f) && ValueFits(f, v) && f.Packable()
    ensures EncodeScalar(f, v).Some? && 0 < |EncodeScalar(f, v).value| < TWO32
  {
    match f.ltype
    case VARINT => Varint64Size(ToUnsigned64(v.n));
    case UVARINT => Varint64Size(v.n);
    case SVARINT =>
      ZigZagRoundTrip(v.n);
      Varint64Size(ZigZag(v.n));
    case FIXED32 =>
    case FIXED64 =>
  }

  /** An array without room does not even count the entry. */
  lemma FullArray(f: Field, slot: Slot, wireType: nat, s: seq<byte>)
    requires WellFormedField(f) && SlotFits(f, slot) && f.htype.REPEATED? && slot.count >= f.arraySize
    requires wireType == 2 ==> f.ltype.BYTES? || f.ltype.STRING? || f.ltype.SUBMESSAGE?
    ensures DecodeSlot(f, slot, wireType, s).Err? && SlotLeft(f, slot, wireType, s) == slot
  {
  }

  /** A number that is too large for the array's entries is not counted, but has been written over the next entry. */
  lemma PackedRejected(f: Field, items: seq<Value>, count: nat, s: seq<byte>)
    requires WellFormedField(f) && f.ltype.UVARINT? && f.htype.REPEATED? && |items| == f.arraySize && AllFit(f, items)
    requires count < |items| && DecodeVarint(s).Got? && !InUnsigned(f.dataSize, DecodeVarint(s).value)
    ensures DecodePacked(f, items, count, s).Err?
    ensures exists v: nat ::
              && PackedLeft(f, items, count, s) == Many(count, items[count := Num(v)])
              && InUnsigned(f.dataSize, v) && SameLowBits(f.dataSize, DecodeVarint(s).value, v)
  {
    assert s != [];
    UnsignedExactly(f, items[count], s);
    hide DecodeVarint, DecodeScalar, ScalarLeft, SameLowBits, InUnsigned;
    var v := ScalarLeft(f, items[count], s);
    assert PackedLeft(f, items, count, s) == Many(count, items[count := v]);
    assert ValueFits(f, v);
    assert v == Num(v.n);
  }

  /** pb_decode_delimited on a message that is all there decodes it; cut short it does not even clear the struct. */
  lemma DelimitedExactly(fields: seq<Field>, slots: seq<Slot>, p: seq<byte>, rest: seq<byte>, n: nat)
    requires WellFormed(fields) && MsgFits(fields, slots) && |p| < TWO32 && n < |Delimited(p)|
    ensures DelimitedLeft(fields, slots, Delimited(p) + rest) == DecodeLeft(fields, slots, p)
    ensures DelimitedLeft(fields, slots, Delimited(p)[..n]) == slots
    ensures DecodeDelimited(fields, slots, Delimited(p)[..n]).Err?
  {
    hide Delimited, Substream;
    SubstreamRoundTrip(p, rest);
    DelimitedCut(p, n);
  }
}
