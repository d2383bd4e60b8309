/**
  Angle normalisation over the reals: the two loops of the repository and the one
  representative they both reach.
 */
module Angles {

  const PI: real := 3.1415926
  const TWO_PI: real := 2.0 * PI

  function Fabs(v: real): real {
    if v >= 0.0 then v else -1.0 * v
  }

  /** C's conversion of a floating value to an integer: towards zero. */
  function Truncate(v: real): int {
    if v >= 0.0 then v.Floor else -(-v).Floor
  }

  ghost predicate SameDirection(a: real, b: real) {
    exists k: int :: Turned(a, b, k)
  }

  /** `a` is `b` after `k` whole turns. */
  ghost predicate Turned(a: real, b: real, k: int) {
    a == b + k as real * TWO_PI
  }

  predicate InRange(a: real) {
    -PI < a <= PI
  }

  /** The direction's representative in (-PI, PI]. */
  function Representative(a: real): real {
    a + ((PI - a) / TWO_PI).Floor as real * TWO_PI
  }

  lemma RepresentativeInRange(a: real)
    ensures InRange(Representative(a)) && SameDirection(Representative(a), a)
  {
    var q := (PI - a) / TWO_PI;
    var k := q.Floor;
    assert k as real <= q < k as real + 1.0;
    assert q * TWO_PI == PI - a;
    assert Turned(Representative(a), a, k);
  }

  lemma TurnedUnique(a: real, b: real, k: int)
    requires Turned(a, b, k) && InRange(a) && InRange(b)
    ensures a == b
  {
    assert -1.0 < k as real < 1.0;
    assert k == 0;
  }

  lemma TurnedCompose(a: real, b: real, c: real, j: int, k: int)
    requires Turned(a, b, j) && Turned(b, c, k)
    ensures Turned(a, c, j + k) && Turned(b, a, -j)
  {
  }

  /** A direction has only one representative. */
  lemma OneRepresentative(r: real, a: real)
    requires InRange(r) && SameDirection(r, a)
    ensures r == Representative(a)
  {
    RepresentativeInRange(a);
    var q := Representative(a);
    var j :| Turned(r, a, j);
    var k :| Turned(q, a, k);
    TurnedCompose(q, a, q, k, -k);
    TurnedCompose(r, a, q, j, -k);
    TurnedUnique(r, q, j - k);
  }

  /** The wrapping loops at the end of doCalc: up first, then down. */
  method WrapHeading(angle: real) returns (r: real)
    ensures r == Representative(angle) && InRange(r)
  {
    r := angle;
    ghost var k := 0;
    while r <= -PI
      invariant Turned(r, angle, k)
      decreases -PI - r
    {
      r := r + TWO_PI;
      k := k + 1;
    }
    while r > PI
      invariant Turned(r, angle, k) && r > -PI
      decreases r - PI
    {
      r := r - TWO_PI;
      k := k - 1;
    }
    OneRepresentative(r, angle);
  }

  /** Utils::Normalize: the remainder first, then the loops, down first. */
  method Normalize(angle: real) returns (r: real)
    ensures r == Representative(angle) && InRange(r)
  {
    r := angle;
    ghost var k := 0;
    if Fabs(angle) > TWO_PI {
      var turns := Truncate(angle / TWO_PI);
      r := angle - turns as real * TWO_PI;
      k := -turns;
    }
    while r > PI
      invariant Turned(r, angle, k)
      decreases r - PI
    {
      r := r - TWO_PI;
      k := k - 1;
    }
    while r <= -PI
      invariant Turned(r, angle, k) && r <= PI
      decreases -PI - r
    {
      r := r + TWO_PI;
      k := k + 1;
    }
    OneRepresentative(r, angle);
  }

  /** After the remainder step at most one turn is left, so the loops run at most once. */
  lemma RemainderLeavesOneTurn(angle: real)
    ensures Fabs(angle - Truncate(angle / TWO_PI) as real * TWO_PI) < TWO_PI
  {
    var q := angle / TWO_PI;
    assert q * TWO_PI == angle;
    var t := Truncate(q);
    assert -1.0 < q - t as real < 1.0;
    assert angle - t as real * TWO_PI == (q - t as real) * TWO_PI;
  }
}
