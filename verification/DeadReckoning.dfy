/**
  Odometry in plain numbers: which way the robot moves, how far, and what the constants of
  the configuration amount to.
 */
module DeadReckoning {
  import opened Angles
  import opened Mileage

  // ---------------------------------------------------------------------------
  // One sample
  // ---------------------------------------------------------------------------

  /** Wheels that rolled `l` and `r` make half their sum in distance, and their difference in turn, right minus left. */
  lemma ForwardExactly(g: Params, left: real, right: real, l: real, r: real)
    requires g.Valid() && l * g.posRate == left * g.scaleL && r * g.posRate == right * g.scaleR
    ensures var (d, turn) := Forward(g, left, right);
            2.0 * d == l + r && turn * g.e == r - l
  {
    hide Over;
    OverUnique(left * g.scaleL, g.posRate, l);
    OverUnique(right * g.scaleR, g.posRate, r);
  }

  /** The inverse: speeds of the two wheels on the ground, ten times in motor units. */
  lemma InverseExactly(g: Params, vx: real, w: real)
    requires g.Valid()
    ensures var (l, r) := Inverse(g, vx, w);
            && l * g.scaleL == 10.0 * g.posRate * (vx - g.e * w * 0.5)
            && r * g.scaleR == 10.0 * g.posRate * (vx + g.e * w * 0.5)
  {
    hide Over;
    assert LeftSpeed(vx, w, g.e) == vx - g.e * w * 0.5 && RightSpeed(vx, w, g.e) == vx + g.e * w * 0.5;
  }

  ghost function Moved(g: Params, o: Odometry, s: Reading): real
    requires g.Valid() && |o.last| == |s.p| == MAX_WHEEL_NUM
  {
    Forward(g, Counts(o.last, s.p, 0) as real, Counts(o.last, s.p, 1) as real).0
  }

  /** An accepted sample moves the robot by its distance along the heading and not at all across it. */
  lemma StepHasDirection(g: Params, o: Odometry, s: Reading)
    requires g.Valid() && ReadingFits(o, s) && Calc(g, o, s).1 == 0
    ensures var o' := Calc(g, o, s).0;
            && (o'.x - o.x) * s.cosA + (o'.y - o.y) * s.sinA == Moved(g, o, s)
            && (o'.y - o.y) * s.cosA - (o'.x - o.x) * s.sinA == 0.0
            && o'.moved.dx == Moved(g, o, s) && o'.moved.dy == 0.0
  {
    hide Forward;
    var d := Moved(g, o, s);
    var c, t := s.cosA, s.sinA;
    var o' := Calc(g, o, s).0;
    assert o'.x - o.x == d * c && o'.y - o.y == d * t;
    assert (d * c) * c + (d * t) * t == d * (c * c + t * t);
    assert (d * t) * c == (d * c) * t;
  }

  /** The first sample only takes over the readings, whatever they are. */
  lemma FirstSampleExactly(g: Params, o: Odometry, s: Reading)
    requires g.Valid() && ReadingFits(o, s)
    ensures Calc(g, o, s).1 == 1 <==> o.firstIn
    ensures var o' := Calc(g, o, s).0;
            !o'.firstIn && o'.last[0] == s.p[0] && o'.last[1] == s.p[1]
            && (o.firstIn ==> o'.x == o.x && o'.y == o.y && o'.angle == o.angle && o'.moved == o.moved
                              && o'.stopped == o.stopped)
  {
  }

  /** A later one is rejected exactly when a wheel moved by more than two million counts, up to rollovers. */
  lemma RejectedExactly(g: Params, o: Odometry, s: Reading)
    requires g.Valid() && ReadingFits(o, s) && !o.firstIn
    ensures Calc(g, o, s).1 == 2
            <==> exists i | 0 <= i < 2 :: Counts(o.last, s.p, i) > 2_000_000 || Counts(o.last, s.p, i) < -2_000_000
    ensures Calc(g, o, s).1 == 0 || Calc(g, o, s).1 == 2
  {
    hide Forward, Counts, Representative;
    if Calc(g, o, s).1 == 2 {
      assert Counts(o.last, s.p, 0) > 2_000_000 || Counts(o.last, s.p, 0) < -2_000_000
             || Counts(o.last, s.p, 1) > 2_000_000 || Counts(o.last, s.p, 1) < -2_000_000;
    }
  }

  /**
    An accepted sample clears the "stopped" flag exactly when a wheel moved by more than the
    noise; a rejected one when the left wheel did so and the right one jumped.
   */
  lemma StoppedExactly(g: Params, o: Odometry, s: Reading)
    requires g.Valid() && ReadingFits(o, s) && !o.firstIn
    ensures var l, r := Fabs(Counts(o.last, s.p, 0) as real), Fabs(Counts(o.last, s.p, 1) as real);
            Calc(g, o, s).0.stopped
            <==> o.stopped && !(l <= 2_000_000.0 && l > g.criticalDelta)
                           && !(l <= 2_000_000.0 && r <= 2_000_000.0 && r > g.criticalDelta)
  {
    hide Forward, Counts, Representative;
  }

  // ---------------------------------------------------------------------------
  // A run along one heading
  // ---------------------------------------------------------------------------

  /** The distance that a pair of wheel counts stands for. */
  function DistanceOf(g: Params, left: int, right: int): real
    requires g.Valid()
  {
    Forward(g, left as real, right as real).0
  }

  lemma DistancesAdd(g: Params, a: int, b: int, c: int, d: int)
    requires g.Valid()
    ensures DistanceOf(g, a + c, b + d) == DistanceOf(g, a, b) + DistanceOf(g, c, d)
  {
    hide WheelDistance, TurnAngle;
    DistanceAdds(a, c, g.scaleL, g.posRate);
    DistanceAdds(b, d, g.scaleR, g.posRate);
  }

  lemma NoDistance(g: Params)
    requires g.Valid()
    ensures DistanceOf(g, 0, 0) == 0.0
  {
    hide Forward;
    DistancesAdd(g, 0, 0, 0, 0);
  }

  /** The distance between the first and the last readings of a run, with what rolled over in between. */
  ghost function Travelled(g: Params, o: Odometry, run: seq<Reading>): real
    requires g.Valid() && RunFits(o, run)
  {
    var last, rolled := Drive(g, o, run).last, RolledOver(g, o, run);
    DistanceOf(g, last[0] - o.last[0] + rolled.0, last[1] - o.last[1] + rolled.1)
  }

  /**
    As long as the heading that the samples are given does not change, a run of accepted
    samples is one straight line, as long as the first and last readings say.
   */
  lemma {:induction false} StraightRun(g: Params, o: Odometry, run: seq<Reading>, c: real, t: real)
    requires g.Valid() && RunFits(o, run) && AllAccepted(g, o, run)
    requires forall k | 0 <= k < |run| :: run[k].cosA == c && run[k].sinA == t
    ensures var r := Drive(g, o, run);
            && r.x == o.x + Travelled(g, o, run) * c
            && r.y == o.y + Travelled(g, o, run) * t
    decreases |run|
  {
    hide DistanceOf, Calc, Travelled, Moved, RolledOver;
    if run != [] {
      var o' := Calc(g, o, run[0]).0;
      StepMoves(g, o, run[0]);
      StraightRun(g, o', run[1..], c, t);
      TravelledStep(g, o, run);
      Distribute(Moved(g, o, run[0]), Travelled(g, o', run[1..]), c);
      Distribute(Moved(g, o, run[0]), Travelled(g, o', run[1..]), t);
    } else {
      NothingTravelled(g, o);
    }
  }

  lemma StepMoves(g: Params, o: Odometry, s: Reading)
    requires g.Valid() && |o.last| == |s.p| == MAX_WHEEL_NUM && Calc(g, o, s).1 == 0
    ensures var o' := Calc(g, o, s).0;
            && |o'.last| == MAX_WHEEL_NUM
            && o'.x == o.x + Moved(g, o, s) * s.cosA && o'.y == o.y + Moved(g, o, s) * s.sinA
  {
    hide Forward, Representative, Jumps, SeenRotating, Counts;
  }

  lemma Distribute(a: real, b: real, k: real)
    ensures (a + b) * k == a * k + b * k
  {
  }

  lemma NothingTravelled(g: Params, o: Odometry)
    requires g.Valid() && RunFits(o, [])
    ensures Travelled(g, o, []) == 0.0
  {
    hide DistanceOf;
    NoDistance(g);
  }

  lemma TravelledStep(g: Params, o: Odometry, run: seq<Reading>)
    requires g.Valid() && RunFits(o, run) && run != [] && Calc(g, o, run[0]).1 == 0
    ensures var o' := Calc(g, o, run[0]).0;
            Travelled(g, o, run) == Moved(g, o, run[0]) + Travelled(g, o', run[1..])
  {
    var o' := Calc(g, o, run[0]).0;
    assert o'.last == Rebased(o.last, run[0].p);
    hide DistanceOf, Calc, Counts, Rollovers;
    var last := Drive(g, o, run).last;
    var (l, r) := RolledOver(g, o', run[1..]);
    CountsRollOver(o.last, run[0].p, 0);
    CountsRollOver(o.last, run[0].p, 1);
    DistancesAdd(g, Counts(o.last, run[0].p, 0), Counts(o.last, run[0].p, 1),
      last[0] - o'.last[0] + l, last[1] - o'.last[1] + r);
    MovedIsDistance(g, o, run[0]);
  }

  lemma MovedIsDistance(g: Params, o: Odometry, s: Reading)
    requires g.Valid() && |o.last| == |s.p| == MAX_WHEEL_NUM
    ensures Moved(g, o, s) == DistanceOf(g, Counts(o.last, s.p, 0), Counts(o.last, s.p, 1))
  {
  }

  // ---------------------------------------------------------------------------
  // The constants
  // ---------------------------------------------------------------------------

  /** What the configuration, in millimetres, encoder lines and revolutions a minute, comes to. */
  lemma ConfigExactly(
    axleMm: real, radiusMmL: real, radiusMmR: real, inverseL: bool, inverseR: bool,
    encoderLines: int, reductionRatio: real, maxRpm: int)
    ensures var p := ParamsFromConfig(
              axleMm, radiusMmL, radiusMmR, inverseL, inverseR, encoderLines, reductionRatio, maxRpm);
            && p.e * 1000.0 == axleMm
            && p.scaleL * 1000.0 == (if inverseL then -2.0 else 2.0) * PI * radiusMmL
            && p.scaleR * 1000.0 == (if inverseR then -2.0 else 2.0) * PI * radiusMmR
            && p.posRate == 4.0 * encoderLines as real * reductionRatio
            && p.maxSpeed * 60.0 == 40.0 * encoderLines as real * maxRpm as real
  {
    var lines := encoderLines as real;
    Reassociate(maxRpm as real / 60.0, lines);
  }

  lemma Reassociate(rps: real, lines: real)
    ensures rps * 4.0 * lines * 10.0 * 60.0 == 40.0 * lines * (rps * 60.0)
  {
  }

  /** A wheel counts as rotating from one, two, three or four counts on, the more the finer its encoder. */
  lemma RotatesExactly(rate: real, counts: int)
    ensures Fabs(counts as real) > CriticalDelta(rate)
            <==> var most := if rate < 10000.0 then 0 else if rate < 150000.0 then 1
                             else if rate < 350000.0 then 2 else 3;
                 counts > most || -counts > most
  {
  }

  /** Half a unit goes away from zero, and everything nearer to an integer goes there. */
  lemma TiesGoAway(k: nat)
    ensures MotorSpeed(k as real + 0.5, 1, 1) == k + 1 && MotorSpeed(-(k as real) - 0.5, 1, 1) == -(k + 1) as int
  {
    assert (1 as real) == 1.0;
    assert (k as real + 1.0).Floor == k + 1;
    assert HalfAway(k as real + 0.5) == k as real + 1.0;
    assert HalfAway(-(k as real) - 0.5) == -(k as real) - 1.0;
    OrientedSign(k as real + 1.0, 1, 1);
    OrientedSign(-(k as real) - 1.0, 1, 1);
  }

  /** The wheels whose motors turn against their wheels: the left one of two, the middle ones of four. */
  lemma MirroredExactly(n: nat, i: nat)
    requires n <= MAX_WHEEL_NUM && i < Driven(n)
    ensures MountSign(n, i) == if (n == 2 && i == 0) || (n == 4 && (i == 1 || i == 2)) then -1 else 1
    ensures Driven(n) == n && 2 <= n <= 4
  {
  }

  /** Half a turn, to seven places. */
  lemma HalfTurn()
    ensures 3.1415926 <= PI < 3.1415927
    ensures forall a: real | -3.1415926 < a <= 3.1415926 :: Representative(a) == a
  {
    forall a: real | -3.1415926 < a <= 3.1415926 ensures Representative(a) == a {
      assert Turned(a, a, 0);
      OneRepresentative(a, a);
    }
  }
}
