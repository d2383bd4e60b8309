/**
  The presence test for required fields: fields_seen, two 32-bit words with one bit per
  required field, against the set of fields the decoder has met.
 */
module RequiredBits {
  import opened Schema
  import opened Decoding

  const WORD_BITS: nat := 32
  const MAX_REQUIRED_FIELDS: nat := 64

  /**
    The final presence test is defined for the table and the tables of its submessages: its
    shift by 32 - (n & 31) and its two words of bits leave out n required fields for n a
    nonzero multiple of 32 and for n from 64 on, though nothing keeps a table from having them.
   */
  ghost predicate PresenceTestable(fields: seq<Field>)
    decreases fields
  {
    && (RequiredCount(fields) % WORD_BITS != 0 || RequiredCount(fields) == 0)
    && RequiredCount(fields) < MAX_REQUIRED_FIELDS
    && forall i | 0 <= i < |fields| && fields[i].ltype.SUBMESSAGE? :: PresenceTestable(fields[i].sub)
  }

  /** So any number of required fields up to 63 will do, except 32. */
  lemma {:induction false} PresenceTestableExactly(fields: seq<Field>)
    ensures PresenceTestable(fields)
            <==> RequiredCount(fields) <= 63 && RequiredCount(fields) != 32
                 && forall i | 0 <= i < |fields| && fields[i].ltype.SUBMESSAGE? :: PresenceTestable(fields[i].sub)
  {
  }

  /** x | (1 << k) */
  function SetBit(x: nat, k: nat): nat {
    if k == 0 then x / 2 * 2 + 1 else x % 2 + 2 * SetBit(x / 2, k - 1)
  }

  /** The word with exactly the low `n` bits set. */
  function LowBits(n: nat): nat {
    if n == 0 then 0 else 1 + 2 * LowBits(n - 1)
  }

  /** x >> k */
  function ShiftRight(x: nat, k: nat): nat {
    if k == 0 then x else ShiftRight(x / 2, k - 1)
  }

  /** The `n`-bit word whose bit k says whether base + k is in `s`. */
  function Word(s: set<nat>, base: nat, n: nat): nat
    decreases n
  {
    if n == 0 then 0 else (if base in s then 1 else 0) + 2 * Word(s, base + 1, n - 1)
  }

  lemma {:induction false} SetBitIsInsert(s: set<nat>, base: nat, n: nat, k: nat)
    requires k < n
    ensures SetBit(Word(s, base, n), k) == Word(s + {base + k}, base, n)
    decreases n
  {
    if k == 0 {
      WordIgnores(s, base, base + 1, n - 1);
    } else {
      assert Word(s, base, n) / 2 == Word(s, base + 1, n - 1);
      SetBitIsInsert(s, base + 1, n - 1, k - 1);
    }
  }

  /** Elements outside the window do not show. */
  lemma {:induction false} WordIgnores(s: set<nat>, x: nat, base: nat, n: nat)
    requires x < base || base + n <= x
    ensures Word(s + {x}, base, n) == Word(s, base, n)
    decreases n
  {
    if n > 0 { WordIgnores(s, x, base + 1, n - 1); }
  }

  lemma {:induction false} EmptyWord(base: nat, n: nat)
    ensures Word({}, base, n) == 0
    decreases n
  {
    if n > 0 { EmptyWord(base + 1, n - 1); }
  }

  lemma {:induction false} WordIsLowBits(s: set<nat>, base: nat, n: nat, r: nat)
    requires r <= n
    ensures Word(s, base, n) == LowBits(r) <==> forall x: nat | base <= x < base + n :: x in s <==> x < base + r
    decreases n
  {
    if n > 0 {
      var r' := if r == 0 then 0 else r - 1;
      WordIsLowBits(s, base + 1, n - 1, r');
      if forall x: nat | base <= x < base + n :: x in s <==> x < base + r {
        assert base in s <==> 0 < r;
      }
    }
  }

  lemma {:induction false} ShiftedOnes(k: nat, r: nat)
    ensures ShiftRight(LowBits(k + r), k) == LowBits(r)
    decreases k
  {
    if k > 0 {
      assert LowBits(k + r) / 2 == LowBits(k - 1 + r);
      ShiftedOnes(k - 1, r);
    }
  }

  // ---------------------------------------------------------------------------
  // Ordinals of required fields
  // ---------------------------------------------------------------------------

  /** required_field_index when the iterator stands on field `i`. */
  function Ordinal(fields: seq<Field>, i: nat): nat
    requires i <= |fields|
  {
    RequiredCount(fields[..i])
  }

  /** The bits that stand for a set of required fields. */
  ghost function Ordinals(fields: seq<Field>, seen: set<nat>): set<nat> {
    set i | i in seen && i < |fields| :: Ordinal(fields, i)
  }

  lemma OrdinalStep(fields: seq<Field>, i: nat)
    requires i < |fields|
    ensures Ordinal(fields, i + 1) == Ordinal(fields, i) + if fields[i].htype.REQUIRED? then 1 else 0
  {
    assert fields[..i + 1][..i] == fields[..i];
  }

  lemma {:induction false} OrdinalMonotone(fields: seq<Field>, i: nat, j: nat)
    requires i <= j <= |fields|
    ensures Ordinal(fields, i) <= Ordinal(fields, j)
    decreases j
  {
    if i < j {
      OrdinalMonotone(fields, i, j - 1);
      OrdinalStep(fields, j - 1);
    }
  }

  /** A required field's ordinal is below the total and below that of every later required field. */
  lemma OrdinalBelow(fields: seq<Field>, i: nat, j: nat)
    requires i < j <= |fields| && fields[i].htype.REQUIRED?
    ensures Ordinal(fields, i) < Ordinal(fields, j)
  {
    OrdinalStep(fields, i);
    OrdinalMonotone(fields, i + 1, j);
  }

  /** Every number below the total is the ordinal of some required field. */
  lemma {:induction false} OrdinalOnto(fields: seq<Field>, n: nat, k: nat) returns (i: nat)
    requires n <= |fields| && k < Ordinal(fields, n)
    ensures i < n && fields[i].htype.REQUIRED? && Ordinal(fields, i) == k
    decreases n
  {
    OrdinalStep(fields, n - 1);
    if k < Ordinal(fields, n - 1) { i := OrdinalOnto(fields, n - 1, k); } else { i := n - 1; }
  }

  /** Only required fields are ever recorded. */
  ghost predicate RequiredOnly(fields: seq<Field>, seen: set<nat>) {
    forall i | i in seen :: i < |fields| && fields[i].htype.REQUIRED?
  }

  lemma OrdinalsBelow(fields: seq<Field>, seen: set<nat>)
    requires RequiredOnly(fields, seen)
    ensures forall k | k in Ordinals(fields, seen) :: k < RequiredCount(fields)
  {
    assert fields[..|fields|] == fields;
    forall k | k in Ordinals(fields, seen) ensures k < RequiredCount(fields) {
      var i :| i in seen && i < |fields| && Ordinal(fields, i) == k;
      OrdinalBelow(fields, i, |fields|);
    }
  }

  /** All required fields were met exactly when their bits are 0, 1, ..., n - 1 and nothing else. */
  lemma AllOrdinals(fields: seq<Field>, seen: set<nat>)
    requires RequiredOnly(fields, seen)
    ensures AllRequired(fields, seen) <==> forall k: nat :: k in Ordinals(fields, seen) <==> k < RequiredCount(fields)
  {
    var s := Ordinals(fields, seen);
    assert fields[..|fields|] == fields;
    OrdinalsBelow(fields, seen);
    if AllRequired(fields, seen) {
      forall k: nat | k < RequiredCount(fields) ensures k in s {
        var i := OrdinalOnto(fields, |fields|, k);
      }
    }
    if forall k: nat :: k in s <==> k < RequiredCount(fields) {
      forall i | 0 <= i < |fields| && fields[i].htype.REQUIRED? ensures i in seen {
        OrdinalBelow(fields, i, |fields|);
        assert Ordinal(fields, i) in s;
        var j :| j in seen && j < |fields| && Ordinal(fields, j) == Ordinal(fields, i);
        if i < j { OrdinalBelow(fields, i, j); }
        if j < i { OrdinalBelow(fields, j, i); }
      }
    }
  }

  /** The two words that stand for `seen`. */
  ghost predicate Represents(fields: seq<Field>, seen: set<nat>, w0: nat, w1: nat) {
    && w0 == Word(Ordinals(fields, seen), 0, WORD_BITS)
    && w1 == Word(Ordinals(fields, seen), WORD_BITS, WORD_BITS)
  }

  /** The code's test: whole words first, then the remaining low bits. */
  predicate WordsComplete(count: nat, w0: nat, w1: nat)
    requires count < MAX_REQUIRED_FIELDS
  {
    count > 0 ==>
      && (count / WORD_BITS > 0 ==> w0 == LowBits(WORD_BITS))
      && (if count / WORD_BITS == 0 then w0 else w1)
         == ShiftRight(LowBits(WORD_BITS), WORD_BITS - count % WORD_BITS)
  }

  /**
    For fewer than 64 required fields, not a multiple of 32, the word test passes exactly
    when every required field has been met.
   */
  lemma WordsCompleteExact(fields: seq<Field>, seen: set<nat>, w0: nat, w1: nat)
    requires RequiredOnly(fields, seen) && Represents(fields, seen, w0, w1)
    requires PresenceTestable(fields)
    ensures WordsComplete(RequiredCount(fields), w0, w1) <==> AllRequired(fields, seen)
  {
    hide LowBits, Word, ShiftRight, Ordinals;
    var n := RequiredCount(fields);
    var s := Ordinals(fields, seen);
    AllOrdinals(fields, seen);
    OrdinalsBelow(fields, seen);
    if n > 0 {
      var r := n % WORD_BITS;
      ShiftedOnes(WORD_BITS - r, r);
      assert WORD_BITS - r + r == WORD_BITS;
      WordIsLowBits(s, 0, WORD_BITS, if n < WORD_BITS then r else WORD_BITS);
      WordIsLowBits(s, WORD_BITS, WORD_BITS, r);
    }
  }
}
