/**
  Odometry and kinematics of the two-wheel differential chassis, over the reals.

  Encoder readings are 32-bit integers; lengths and angles are reals. Sine and cosine of
  the heading are handed in as two numbers with c*c + s*s == 1.
 */
module Mileage {
  import opened Angles

  const ENCODER_MAX_DIFF: int := 2000000
  const MAX_WHEEL_NUM: nat := 4

  // ---------------------------------------------------------------------------
  // Geometry
  // ---------------------------------------------------------------------------

  /** What initializeParam leaves behind for a differential chassis. */
  datatype Params = Params(
    e: real,                       // m_e, distance between the wheels
    scaleL: real, scaleR: real,    // m_scale[0], m_scale[1]: signed circumference
    posRate: real,                 // m_pos_reduce_rate; m_vel_reduce_scale is ten times this
    maxSpeed: real,                // m_motor_max_speed
    criticalDelta: real)           // critical_delta, the counts from which a wheel is said to rotate
  {
    predicate Valid() {
      e != 0.0 && scaleL != 0.0 && scaleR != 0.0 && posRate != 0.0 && 0.0 <= maxSpeed
    }
  }

  /** The finer the encoder, the more counts are noise. */
  function CriticalDelta(posRate: real): real {
    if posRate < 10000.0 then 0.1 else if posRate < 150000.0 then 1.1 else if posRate < 350000.0 then 2.1 else 3.1
  }

  /** The scale set-up of initializeParam for two configured wheels. */
  function ParamsFromConfig(
    axleMm: real, radiusMmL: real, radiusMmR: real, inverseL: bool, inverseR: bool,
    encoderLines: int, reductionRatio: real, maxRpm: int): (p: Params)
    ensures (axleMm != 0.0 && radiusMmL != 0.0 && radiusMmR != 0.0 && encoderLines > 0 && reductionRatio != 0.0
             && maxRpm >= 0) ==> p.Valid()
  {
    var lines := encoderLines as real;
    Params(
      axleMm / 1000.0,
      2.0 * PI * radiusMmL / 1000.0 * (if inverseL then -1.0 else 1.0),
      2.0 * PI * radiusMmR / 1000.0 * (if inverseR then -1.0 else 1.0),
      lines * 4.0 * reductionRatio,
      maxRpm as real / 60.0 * 4.0 * lines * 10.0,
      CriticalDelta(lines * 4.0 * reductionRatio))
  }

  /** Division, with the one fact about it that the proofs use. */
  function Over(a: real, b: real): (q: real)
    requires b != 0.0
    ensures q * b == a
  {
    a / b
  }

  /** Encoder counts of one wheel as a length. */
  function WheelDistance(counts: real, scale: real, rate: real): real
    requires rate != 0.0
  {
    Over(counts * scale, rate)
  }

  function Mean(l: real, r: real): real {
    (r + l) * 0.5
  }

  function TurnAngle(l: real, r: real, e: real): real
    requires e != 0.0
  {
    Over(r - l, e)
  }

  /** forwardKinematicsTransDiff: distance and turn of a pair of wheel movements. */
  function Forward(p: Params, left: real, right: real): (real, real)
    requires p.Valid()
  {
    var l := WheelDistance(left, p.scaleL, p.posRate);
    var r := WheelDistance(right, p.scaleR, p.posRate);
    (Mean(l, r), TurnAngle(l, r, p.e))
  }

  /** A wheel's ground speed in the motor's unit. */
  function WheelSpeed(v: real, scale: real, rate: real): real
    requires scale != 0.0
  {
    Over(10.0 * rate * v, scale)
  }

  function LeftSpeed(vx: real, w: real, e: real): real {
    (2.0 * vx - e * w) * 0.5
  }

  function RightSpeed(vx: real, w: real, e: real): real {
    (2.0 * vx + e * w) * 0.5
  }

  /** inverseKinematicsTransDiff: wheel speeds for a forward speed and a turn rate. */
  function Inverse(p: Params, vx: real, w: real): (real, real)
    requires p.Valid()
  {
    (WheelSpeed(LeftSpeed(vx, w, p.e), p.scaleL, p.posRate), WheelSpeed(RightSpeed(vx, w, p.e), p.scaleR, p.posRate))
  }

  lemma Cancel(x: real, y: real, c: real)
    requires c != 0.0 && x * c == y * c
    ensures x == y
  {
    assert (x - y) * c == 0.0;
  }

  lemma OverUnique(a: real, b: real, q: real)
    requires b != 0.0 && q * b == a
    ensures Over(a, b) == q
  {
    hide Over;
    Cancel(Over(a, b), q, b);
  }

  /** Converting a speed to counts and back: only the unit factor 10 is left. */
  lemma CountsAndBack(v: real, scale: real, rate: real)
    requires rate != 0.0 && scale != 0.0
    ensures WheelDistance(WheelSpeed(v, scale, rate), scale, rate) == 10.0 * v
  {
    assert 10.0 * v * rate == 10.0 * rate * v;
    OverUnique(WheelSpeed(v, scale, rate) * scale, rate, 10.0 * v);
  }

  lemma MeanAndTurn(vx: real, w: real, e: real)
    requires e != 0.0
    ensures Mean(10.0 * LeftSpeed(vx, w, e), 10.0 * RightSpeed(vx, w, e)) == 10.0 * vx
    ensures TurnAngle(10.0 * LeftSpeed(vx, w, e), 10.0 * RightSpeed(vx, w, e), e) == 10.0 * w
  {
    var arc := e * w;
    assert 10.0 * w * e == 10.0 * arc;
    OverUnique(10.0 * RightSpeed(vx, w, e) - 10.0 * LeftSpeed(vx, w, e), e, 10.0 * w);
  }

  /** Forward undoes inverse, up to the factor 10 between the velocity and position units. */
  lemma ForwardOfInverse(p: Params, vx: real, w: real)
    requires p.Valid()
    ensures var (l, r) := Inverse(p, vx, w); Forward(p, l, r).0 == 10.0 * vx && Forward(p, l, r).1 == 10.0 * w
  {
    hide WheelDistance, WheelSpeed, Mean, TurnAngle, LeftSpeed, RightSpeed;
    CountsAndBack(LeftSpeed(vx, w, p.e), p.scaleL, p.posRate);
    CountsAndBack(RightSpeed(vx, w, p.e), p.scaleR, p.posRate);
    MeanAndTurn(vx, w, p.e);
  }

  /** Counts of one wheel turn, and the speed a motor at its rated rpm gives that wheel, in metres a second. */
  function CountsPerTurn(encoderLines: int, reductionRatio: real): real {
    encoderLines as real * 4.0 * reductionRatio
  }

  function RatedSpeed(maxRpm: int, reductionRatio: real, circumference: real): real
    requires reductionRatio != 0.0
  {
    Over(maxRpm as real / 60.0, reductionRatio) * circumference
  }

  /**
    The configured scales mean what they are for: one turn of both wheels, each counted in
    its own mounting direction, moves the robot by the mean circumference and turns it by
    their difference over the axle length; and a wheel driven by its motor at the rated rpm
    runs at exactly the speed limit, in magnitude.
   */
  lemma ConfigMeansMetres(
    axleMm: real, radiusMmL: real, radiusMmR: real, inverseL: bool, inverseR: bool,
    encoderLines: int, reductionRatio: real, maxRpm: int)
    requires axleMm != 0.0 && radiusMmL != 0.0 && radiusMmR != 0.0
    requires encoderLines > 0 && reductionRatio != 0.0 && maxRpm >= 0
    ensures var p := ParamsFromConfig(
              axleMm, radiusMmL, radiusMmR, inverseL, inverseR, encoderLines, reductionRatio, maxRpm);
            var c := CountsPerTurn(encoderLines, reductionRatio);
            var roundL, roundR := TWO_PI * radiusMmL / 1000.0, TWO_PI * radiusMmR / 1000.0;
            && p.Valid()
            && Forward(p, if inverseL then -c else c, if inverseR then -c else c)
               == (Mean(roundL, roundR), TurnAngle(roundL, roundR, axleMm / 1000.0))
            && WheelSpeed(RatedSpeed(maxRpm, reductionRatio, p.scaleL), p.scaleL, p.posRate) == p.maxSpeed
            && WheelSpeed(RatedSpeed(maxRpm, reductionRatio, p.scaleR), p.scaleR, p.posRate) == p.maxSpeed
  {
    hide Over, WheelDistance, WheelSpeed, Mean, TurnAngle, RatedSpeed;
    var p := ParamsFromConfig(axleMm, radiusMmL, radiusMmR, inverseL, inverseR, encoderLines, reductionRatio, maxRpm);
    var c := CountsPerTurn(encoderLines, reductionRatio);
    OneTurn(c, TWO_PI * radiusMmL / 1000.0, inverseL);
    OneTurn(c, TWO_PI * radiusMmR / 1000.0, inverseR);
    RatedIsMax(encoderLines as real, reductionRatio, maxRpm, p.scaleL);
    RatedIsMax(encoderLines as real, reductionRatio, maxRpm, p.scaleR);
  }

  lemma OneTurn(c: real, round: real, inverse: bool)
    requires c != 0.0
    ensures WheelDistance(if inverse then -c else c, round * (if inverse then -1.0 else 1.0), c) == round
  {
    var counts, scale := if inverse then -c else c, round * (if inverse then -1.0 else 1.0);
    assert counts * scale == round * c;
    OverUnique(counts * scale, c, round);
  }

  lemma RatedIsMax(lines: real, ratio: real, maxRpm: int, scale: real)
    requires ratio != 0.0 && scale != 0.0
    ensures WheelSpeed(RatedSpeed(maxRpm, ratio, scale), scale, lines * 4.0 * ratio)
            == maxRpm as real / 60.0 * 4.0 * lines * 10.0
  {
    hide Over;
    var rps := maxRpm as real / 60.0;
    var q := Over(rps, ratio);
    assert q * ratio == rps;
    var rate := lines * 4.0 * ratio;
    assert 10.0 * rate * (q * scale) == 40.0 * lines * (q * ratio) * scale;
    assert 40.0 * lines * rps * scale == (rps * 4.0 * lines * 10.0) * scale;
    OverUnique(10.0 * rate * (q * scale), scale, rps * 4.0 * lines * 10.0);
  }

  lemma DistanceScales(k: real, c: real, kc: real, scale: real, rate: real)
    requires rate != 0.0 && kc == k * c
    ensures WheelDistance(kc, scale, rate) == k * WheelDistance(c, scale, rate)
  {
    hide Over;
    var q := WheelDistance(c, scale, rate);
    assert q * rate == c * scale;
    assert (k * q) * rate == k * (c * scale) == kc * scale;
    OverUnique(kc * scale, rate, k * q);
  }

  lemma MeanAndTurnScale(k: real, l: real, r: real, kl: real, kr: real, e: real)
    requires e != 0.0 && kl == k * l && kr == k * r
    ensures Mean(kl, kr) == k * Mean(l, r)
    ensures TurnAngle(kl, kr, e) == k * TurnAngle(l, r, e)
  {
    hide Over;
    var t := TurnAngle(l, r, e);
    assert t * e == r - l;
    assert (k * t) * e == k * (r - l) == kr - kl;
    OverUnique(kr - kl, e, k * t);
  }

  /** Forward is linear: scaling both wheels scales distance and turn alike. */
  lemma ForwardScales(p: Params, l: real, r: real, k: real, kl: real, kr: real)
    requires p.Valid() && kl == k * l && kr == k * r
    ensures Forward(p, kl, kr).0 == k * Forward(p, l, r).0 && Forward(p, kl, kr).1 == k * Forward(p, l, r).1
  {
    hide WheelDistance, Mean, TurnAngle;
    DistanceScales(k, l, kl, p.scaleL, p.posRate);
    DistanceScales(k, r, kr, p.scaleR, p.posRate);
    MeanAndTurnScale(k, WheelDistance(l, p.scaleL, p.posRate), WheelDistance(r, p.scaleR, p.posRate),
      WheelDistance(kl, p.scaleL, p.posRate), WheelDistance(kr, p.scaleR, p.posRate), p.e);
  }

  // ---------------------------------------------------------------------------
  // The speed limit
  // ---------------------------------------------------------------------------

  ghost predicate AllWithin(v: seq<real>, limit: real) {
    forall i | 0 <= i < |v| :: Fabs(v[i]) <= limit
  }

  /** The largest magnitude among the wheels. */
  function Top(v: seq<real>): (top: real)
    ensures 0.0 <= top
  {
    if v == [] then 0.0
    else
      var rest, last := Top(v[..|v| - 1]), Fabs(v[|v| - 1]);
      if last > rest then last else rest
  }

  lemma {:induction false} TopIsLargest(v: seq<real>)
    ensures AllWithin(v, Top(v))
    ensures v != [] ==> exists i | 0 <= i < |v| :: Fabs(v[i]) == Top(v)
    decreases |v|
  {
    if v != [] {
      var front := v[..|v| - 1];
      TopIsLargest(front);
      assert forall i | 0 <= i < |front| :: front[i] == v[i];
      if Top(v) == Fabs(v[|v| - 1]) {
        assert Fabs(v[|v| - 1]) == Top(v);
      } else {
        assert front != [];
        var i :| 0 <= i < |front| && Fabs(front[i]) == Top(front);
        assert Fabs(v[i]) == Top(v);
      }
    }
  }

  lemma EmptyTop()
    ensures Top([]) == 0.0
  {
  }

  /** The one factor all wheels are slowed down by. */
  function LimitFactor(v: seq<real>, limit: real): real
    requires 0.0 <= limit
  {
    if Top(v) <= limit then 1.0 else Over(limit, Top(v))
  }

  function ScaledBy(v: seq<real>, k: real): (s: seq<real>)
    ensures |s| == |v| && forall i | 0 <= i < |v| :: s[i] == v[i] * k
  {
    seq(|v|, i requires 0 <= i < |v| => v[i] * k)
  }

  /** The two loops at the end of inverseKinematicsTrans. */
  method LimitSpeeds(wheelVel: array<real>, n: nat, limit: real)
    requires n <= wheelVel.Length && 0.0 <= limit
    modifies wheelVel
    ensures wheelVel[..n] == ScaledBy(old(wheelVel[..n]), LimitFactor(old(wheelVel[..n]), limit))
    ensures wheelVel[n..] == old(wheelVel[n..])
  {
    ghost var v := wheelVel[..n];
    var overspeed, maxSpeed := false, 0.0;
    var i := 0;
    while i < n
      invariant i <= n
      invariant overspeed <==> Top(v[..i]) > limit
      invariant maxSpeed == if overspeed then Top(v[..i]) else 0.0
      invariant wheelVel[..] == old(wheelVel[..])
    {
      assert v[..i + 1][..i] == v[..i];
      var magnitude := if wheelVel[i] > 0.0 then wheelVel[i] else -1.0 * wheelVel[i];
      assert magnitude == Fabs(v[..i + 1][i]);
      if magnitude > limit {
        if magnitude > maxSpeed {
          maxSpeed := magnitude;
        }
        overspeed := true;
      }
      i := i + 1;
    }
    assert v[..n] == v;
    if overspeed {
      ScaleAll(wheelVel, n, Over(limit, maxSpeed));
    } else {
      assert ScaledBy(v, 1.0) == v;
      assert wheelVel[..n] == v;
    }
  }

  /** Every wheel by the same factor. */
  method ScaleAll(wheelVel: array<real>, n: nat, k: real)
    requires n <= wheelVel.Length
    modifies wheelVel
    ensures wheelVel[..n] == ScaledBy(old(wheelVel[..n]), k)
    ensures wheelVel[n..] == old(wheelVel[n..])
  {
    ghost var scaled := ScaledBy(wheelVel[..n], k);
    var i := 0;
    while i < n
      invariant i <= n
      invariant wheelVel[..i] == scaled[..i]
      invariant wheelVel[i..] == old(wheelVel[i..])
    {
      assert wheelVel[i] == old(wheelVel[..n])[i];
      wheelVel[i] := wheelVel[i] * k;
      assert wheelVel[i] == scaled[i];
      i := i + 1;
    }
    assert wheelVel[..n] == scaled[..n] == scaled;
  }

  lemma FactorInUnit(limit: real, top: real)
    requires 0.0 <= limit < top
    ensures 0.0 <= Over(limit, top) < 1.0
    ensures 0.0 < limit ==> 0.0 < Over(limit, top)
  {
    hide Over;
    var k := Over(limit, top);
    if k >= 1.0 { TimesMono(1.0, k, top); }
    if k <= 0.0 { TimesMono(k, 0.0, top); }
    if k < 0.0 { Negative(k, top); }
  }

  lemma Negative(k: real, t: real)
    requires k < 0.0 < t
    ensures k * t < 0.0
  {
  }

  lemma FabsScales(v: real, k: real)
    requires 0.0 <= k
    ensures Fabs(v * k) == Fabs(v) * k
  {
    if v >= 0.0 { assert v * k >= 0.0; } else { assert v * k <= 0.0; assert (-1.0 * v) * k == -1.0 * (v * k); }
  }

  lemma TimesMono(a: real, b: real, k: real)
    requires a <= b && 0.0 <= k
    ensures a * k <= b * k
  {
    assert (b - a) * k >= 0.0;
  }

  lemma TimesCommute(a: real, b: real)
    ensures a * b == b * a
  {
  }

  /** After limiting no wheel exceeds the limit, and if anything was limited some wheel runs at it. */
  lemma LimitHolds(v: seq<real>, limit: real)
    requires 0.0 <= limit
    ensures var r := ScaledBy(v, LimitFactor(v, limit));
            AllWithin(r, limit) && (!AllWithin(v, limit) ==> exists i | 0 <= i < |r| :: Fabs(r[i]) == limit)
  {
    hide Fabs, Over, Top;
    TopIsLargest(v);
    if v == [] { EmptyTop(); }
    var top := Top(v);
    var k := LimitFactor(v, limit);
    var r := ScaledBy(v, k);
    if top <= limit {
      NoLimit(v);
    } else {
      FactorInUnit(limit, top);
      forall i | 0 <= i < |r| ensures Fabs(r[i]) <= limit {
        Slowed(v[i], k, top, limit, r[i]);
      }
      var i :| 0 <= i < |v| && Fabs(v[i]) == top;
      Slowed(v[i], k, top, limit, r[i]);
      assert Fabs(r[i]) == limit;
    }
  }

  lemma NoLimit(v: seq<real>)
    ensures ScaledBy(v, 1.0) == v
  {
  }

  /** A wheel no faster than the fastest ends up no faster than the limit, the fastest at it. */
  lemma Slowed(v: real, k: real, top: real, limit: real, r: real)
    requires 0.0 <= k && Fabs(v) <= top && k * top == limit && r == v * k
    ensures Fabs(r) <= limit && (Fabs(v) == top ==> Fabs(r) == limit)
  {
    FabsScales(v, k);
    TimesMono(Fabs(v), top, k);
  }

  /**
    Limiting slows the robot down along the commanded curve: speed and turn rate shrink by
    one factor, which is 1 exactly when no wheel was too fast and positive if the limit is.
   */
  lemma LimitKeepsCurvature(p: Params, vx: real, w: real)
    requires p.Valid()
    ensures var (a, b) := Inverse(p, vx, w);
            var k := LimitFactor([a, b], p.maxSpeed);
            var r := ScaledBy([a, b], k);
            && Forward(p, r[0], r[1]).0 == k * (10.0 * vx) && Forward(p, r[0], r[1]).1 == k * (10.0 * w)
            && 0.0 <= k <= 1.0 && (p.maxSpeed > 0.0 ==> 0.0 < k)
            && (k == 1.0 <==> AllWithin([a, b], p.maxSpeed))
  {
    hide Forward, Inverse, Over, Top;
    var (a, b) := Inverse(p, vx, w);
    var v := [a, b];
    var k := LimitFactor(v, p.maxSpeed);
    var r := ScaledBy(v, k);
    FactorRange(v, p.maxSpeed);
    TimesCommute(a, k);
    TimesCommute(b, k);
    assert v[0] == a && v[1] == b;
    ForwardOfInverse(p, vx, w);
    ForwardScales(p, a, b, k, r[0], r[1]);
  }

  /** The factor lies in [0, 1], is positive if the limit is, and is 1 exactly when nothing was too fast. */
  lemma FactorRange(v: seq<real>, limit: real)
    requires 0.0 <= limit
    ensures var k := LimitFactor(v, limit);
            0.0 <= k <= 1.0 && (limit > 0.0 ==> 0.0 < k) && (k == 1.0 <==> AllWithin(v, limit))
  {
    hide Over, Top, Fabs;
    TopIsLargest(v);
    if v == [] { EmptyTop(); }
    if Top(v) > limit {
      FactorInUnit(limit, Top(v));
      var i :| 0 <= i < |v| && Fabs(v[i]) == Top(v);
      assert !AllWithin(v, limit);
    }
  }

  // ---------------------------------------------------------------------------
  // Wheel frames and rounding
  // ---------------------------------------------------------------------------

  /** Which way each motor is mounted, by the number of wheels. */
  function MountSign(n: nat, i: nat): int {
    if n == 2 then (if i == 0 then -1 else 1)
    else if n == 4 then (if i == 1 || i == 2 then -1 else 1)
    else 1
  }

  /** How many wheels the sign tables cover: a chassis of fewer than two wheels is left alone. */
  function Driven(n: nat): nat {
    if n < 2 then 0 else n
  }

  /** Half a unit away from zero, as setVelocities adds it. */
  function HalfAway(v: real): real {
    if v < 0.0 then v - 0.5 else if v > 0.0 then v + 0.5 else 0.0
  }

  /** In the motor's direction: the mounting sign and the chassis-wide inversion. */
  function Oriented(t: real, sign: int, inverse: int): real {
    t * sign as real * inverse as real
  }

  /** setVelocities on one wheel: half a unit away from zero, the signs, then truncation. */
  function MotorSpeed(v: real, sign: int, inverse: int): int {
    Truncate(Oriented(HalfAway(v), sign, inverse))
  }

  lemma OrientedSign(t: real, sign: int, inverse: int)
    requires (sign == 1 || sign == -1) && (inverse == 1 || inverse == -1)
    ensures Oriented(t, sign, inverse) == if sign * inverse == 1 then t else -t
  {
    assert 1 as real == 1.0 && (-1) as real == -1.0;
  }

  /** The stored speed is an integer within half a unit of the wheel's, in the motor's direction. */
  lemma MotorSpeedRounds(v: real, sign: int, inverse: int)
    requires (sign == 1 || sign == -1) && (inverse == 1 || inverse == -1)
    ensures Fabs(Truncate(HalfAway(v)) as real - v) <= 0.5
    ensures MotorSpeed(v, sign, inverse) == sign * inverse * Truncate(HalfAway(v))
    ensures MotorSpeed(-v, sign, inverse) == -MotorSpeed(v, sign, inverse)
  {
    OrientedSign(HalfAway(v), sign, inverse);
    OrientedSign(HalfAway(-v), sign, inverse);
  }

  /** setVelocities */
  method SetVelocities(v: array<real>, n: nat, inverse: int, vel: array<int>)
    requires n <= MAX_WHEEL_NUM == v.Length == vel.Length && (inverse == 1 || inverse == -1)
    modifies vel
    ensures forall i | 0 <= i < Driven(n) :: vel[i] == MotorSpeed(v[i], MountSign(n, i), inverse)
    ensures vel[Driven(n)..] == old(vel[Driven(n)..])
  {
    hide Truncate, Oriented;
    var temp := new real[MAX_WHEEL_NUM](_ => 0.0);
    var i := 0;
    while i < n
      invariant i <= n && forall j | 0 <= j < i :: temp[j] == HalfAway(v[j])
      invariant vel[..] == old(vel[..])
    {
      if v[i] < 0.0 {
        temp[i] := v[i] - 0.5;
      } else if v[i] > 0.0 {
        temp[i] := v[i] + 0.5;
      } else {
        temp[i] := 0.0;
      }
      i := i + 1;
    }
    if n == 2 {
      vel[0] := Truncate(Oriented(temp[0], -1, inverse));
      vel[1] := Truncate(Oriented(temp[1], 1, inverse));
    } else if n == 3 {
      vel[0] := Truncate(Oriented(temp[0], 1, inverse));
      vel[1] := Truncate(Oriented(temp[1], 1, inverse));
      vel[2] := Truncate(Oriented(temp[2], 1, inverse));
    } else if n == 4 {
      vel[0] := Truncate(Oriented(temp[0], 1, inverse));
      vel[1] := Truncate(Oriented(temp[1], -1, inverse));
      vel[2] := Truncate(Oriented(temp[2], -1, inverse));
      vel[3] := Truncate(Oriented(temp[3], 1, inverse));
    }
    assert forall j | Driven(n) <= j < vel.Length :: vel[j] == old(vel[j]);
  }

  /** getPositions */
  method GetPositions(pos: array<int>, n: nat, inverse: int, wheelPos: array<int>)
    requires n <= MAX_WHEEL_NUM == pos.Length == wheelPos.Length && pos != wheelPos
    modifies wheelPos
    ensures forall i | 0 <= i < Driven(n) :: wheelPos[i] == MountSign(n, i) * inverse * pos[i]
    ensures wheelPos[Driven(n)..] == old(wheelPos[Driven(n)..])
  {
    if n == 2 {
      wheelPos[0] := -1 * inverse * pos[0];
      wheelPos[1] := inverse * pos[1];
    } else if n == 3 {
      wheelPos[0] := inverse * pos[0];
      wheelPos[1] := inverse * pos[1];
      wheelPos[2] := inverse * pos[2];
    } else if n == 4 {
      wheelPos[0] := inverse * pos[0];
      wheelPos[1] := -1 * inverse * pos[1];
      wheelPos[2] := -1 * inverse * pos[2];
      wheelPos[3] := inverse * pos[3];
    }
  }

  /** A motor that moves by the speed it was given is read back as the wheel speed, rounded. */
  lemma MountSignsCancel(n: nat, i: nat, inverse: int, v: real)
    requires inverse == 1 || inverse == -1
    ensures var reading := MountSign(n, i) * inverse * MotorSpeed(v, MountSign(n, i), inverse);
            Fabs(reading as real - v) <= 0.5
  {
    hide MotorSpeed, Truncate, HalfAway, MountSign;
    var sign := MountSign(n, i);
    MountSignIsUnit(n, i);
    MotorSpeedRounds(v, sign, inverse);
    SignsCancel(sign, inverse, Truncate(HalfAway(v)));
  }

  lemma MountSignIsUnit(n: nat, i: nat)
    ensures MountSign(n, i) == 1 || MountSign(n, i) == -1
  {
  }

  lemma SignsCancel(a: int, b: int, t: int)
    requires (a == 1 || a == -1) && (b == 1 || b == -1)
    ensures a * b * (a * b * t) == t
  {
    assert a * b == 1 || a * b == -1;
  }

  // ---------------------------------------------------------------------------
  // Odometry
  // ---------------------------------------------------------------------------

  /** The last accepted movement: m_delta_x, m_delta_y, m_delta_angle. */
  datatype Movement = Movement(dx: real, dy: real, turn: real)

  /** The pose, the encoder readings it belongs to, the last movement and the "stopped" flag. */
  datatype Odometry = Odometry(
    x: real, y: real, angle: real, last: seq<int>, firstIn: bool, moved: Movement, stopped: bool)

  datatype Reading = Reading(p: seq<int>, cosA: real, sinA: real)

  ghost predicate ReadingFits(o: Odometry, s: Reading) {
    && |o.last| == |s.p| == MAX_WHEEL_NUM
    && s.cosA * s.cosA + s.sinA * s.sinA == 1.0
  }

  const WORD: int := 0x1_0000_0000

  /** A difference of two 32-bit readings, which comes out right when the encoder has rolled over. */
  function Wrap32(n: int): int {
    (n + WORD / 2) % WORD - WORD / 2
  }

  /** The counts wheel `i` moved by between two readings. */
  function Counts(last: seq<int>, p: seq<int>, i: nat): int
    requires |last| == |p| == MAX_WHEEL_NUM && i < 2
  {
    Wrap32(p[i] - last[i])
  }

  /** How often, and which way, wheel `i` rolled over between two readings. */
  function Rollovers(last: seq<int>, p: seq<int>, i: nat): int
    requires |last| == |p| == MAX_WHEEL_NUM && i < 2
  {
    -((p[i] - last[i] + WORD / 2) / WORD)
  }

  lemma CountsRollOver(last: seq<int>, p: seq<int>, i: nat)
    requires |last| == |p| == MAX_WHEEL_NUM && i < 2
    ensures Counts(last, p, i) == p[i] - last[i] + WORD * Rollovers(last, p, i)
    ensures -(WORD / 2) <= p[i] - last[i] < WORD / 2 ==> Rollovers(last, p, i) == 0
  {
  }

  /** Wheel `i` moved further than a sample can. */
  predicate WheelJumps(last: seq<int>, p: seq<int>, i: nat)
    requires |last| == |p| == MAX_WHEEL_NUM && i < 2
  {
    Counts(last, p, i) > ENCODER_MAX_DIFF || -Counts(last, p, i) > ENCODER_MAX_DIFF
  }

  predicate Jumps(last: seq<int>, p: seq<int>)
    requires |last| == |p| == MAX_WHEEL_NUM
  {
    WheelJumps(last, p, 0) || WheelJumps(last, p, 1)
  }

  predicate WheelRotates(g: Params, last: seq<int>, p: seq<int>, i: nat)
    requires |last| == |p| == MAX_WHEEL_NUM && i < 2
  {
    Fabs(Counts(last, p, i) as real) > g.criticalDelta
  }

  /** One of the first `n` wheels rotates. */
  predicate RotatesBefore(g: Params, last: seq<int>, p: seq<int>, n: nat)
    requires |last| == |p| == MAX_WHEEL_NUM && n <= 2
  {
    (n > 0 && WheelRotates(g, last, p, 0)) || (n > 1 && WheelRotates(g, last, p, 1))
  }

  /** The wheel loop sees a wheel rotate before it meets a jump, if it meets one. */
  predicate SeenRotating(g: Params, last: seq<int>, p: seq<int>)
    requires |last| == |p| == MAX_WHEEL_NUM
  {
    && !WheelJumps(last, p, 0)
    && (WheelRotates(g, last, p, 0) || (!WheelJumps(last, p, 1) && WheelRotates(g, last, p, 1)))
  }

  function Rebased(last: seq<int>, p: seq<int>): seq<int>
    requires |last| == |p| == MAX_WHEEL_NUM
  {
    [p[0], p[1]] + last[2..]
  }

  /** One call of doCalc: the new state and the return code. */
  function Calc(g: Params, o: Odometry, s: Reading): (Odometry, int)
    requires g.Valid() && |o.last| == |s.p| == MAX_WHEEL_NUM
  {
    var last := Rebased(o.last, s.p);
    var stopped := o.stopped && !SeenRotating(g, o.last, s.p);
    if o.firstIn then (o.(last := last, firstIn := false), 1)
    else if Jumps(o.last, s.p) then (o.(last := last, stopped := stopped), 2)
    else
      var (d, turn) := Forward(g, Counts(o.last, s.p, 0) as real, Counts(o.last, s.p, 1) as real);
      (o.(x := o.x + d * s.cosA, y := o.y + d * s.sinA, angle := Representative(o.angle + turn), last := last,
          moved := Movement(d, 0.0, turn), stopped := stopped), 0)
  }

  class Mileage {
    const params: Params
    const staticP: array<int>
    var mX: real
    var mY: real
    var mAngle: real
    var mDeltaX: real
    var mDeltaY: real
    var mDeltaAngle: real
    var mStopped: bool
    var firstIn: bool

    ghost predicate Valid()
      reads this
    {
      params.Valid() && staticP.Length == MAX_WHEEL_NUM
    }

    ghost function State(): Odometry
      reads this, staticP
    {
      Odometry(mX, mY, mAngle, staticP[..], firstIn, Movement(mDeltaX, mDeltaY, mDeltaAngle), mStopped)
    }

    /** The constructor and reset. */
    constructor (g: Params)
      requires g.Valid()
      ensures Valid() && params == g && firstIn && mX == mY == mAngle == 0.0 && mStopped
    {
      params := g;
      staticP := new int[MAX_WHEEL_NUM](_ => 0);
      mX, mY, mAngle := 0.0, 0.0, 0.0;
      mDeltaX, mDeltaY, mDeltaAngle := 0.0, 0.0, 0.0;
      mStopped := true;
      firstIn := true;
    }

    /** The loop that takes over the readings of all wheels. */
    method Rebase(p: array<int>)
      requires Valid() && p.Length == MAX_WHEEL_NUM && p != staticP
      modifies staticP
      ensures staticP[..] == Rebased(old(staticP[..]), p[..])
    {
      var j := 0;
      while j < 2
        invariant j <= 2
        invariant forall k | 0 <= k < j :: staticP[k] == p[k]
        invariant forall k | j <= k < MAX_WHEEL_NUM :: staticP[k] == old(staticP[k])
      {
        staticP[j] := p[j];
        j := j + 1;
      }
    }

    /** The wheel loop of doCalc: it re-bases each wheel as it goes, and all of them on a jump. */
    method TakeMovements(p: array<int>) returns (ok: bool, wheelPos: array<int>)
      requires Valid() && p.Length == MAX_WHEEL_NUM && p != staticP
      modifies this`mStopped, staticP
      ensures staticP[..] == Rebased(old(staticP[..]), p[..])
      ensures mStopped == (old(mStopped) && !SeenRotating(params, old(staticP[..]), p[..]))
      ensures ok <==> !Jumps(old(staticP[..]), p[..])
      ensures ok ==> wheelPos.Length == MAX_WHEEL_NUM
                     && wheelPos[0] == Counts(old(staticP[..]), p[..], 0)
                     && wheelPos[1] == Counts(old(staticP[..]), p[..], 1)
    {
      hide Wrap32;
      ghost var last := staticP[..];
      ghost var reading := p[..];
      wheelPos := new int[MAX_WHEEL_NUM](_ => 0);
      var i := 0;
      while i < 2
        invariant i <= 2 && p[..] == reading
        invariant forall k | 0 <= k < i :: staticP[k] == p[k] && wheelPos[k] == Counts(last, reading, k)
        invariant forall k | 0 <= k < i :: !WheelJumps(last, reading, k)
        invariant forall k | i <= k < MAX_WHEEL_NUM :: staticP[k] == last[k]
        invariant mStopped == (old(mStopped) && !RotatesBefore(params, last, reading, i))
      {
        assert Wrap32(p[i] - staticP[i]) == Counts(last, reading, i);
        if Fabs(Wrap32(p[i] - staticP[i]) as real) > ENCODER_MAX_DIFF as real {
          assert WheelJumps(last, reading, i);
          Rebase(p);
          assert staticP[..] == Rebased(last, reading);
          return false, wheelPos;
        }
        wheelPos[i] := Wrap32(p[i] - staticP[i]);
        staticP[i] := p[i];
        if Fabs(wheelPos[i] as real) > params.criticalDelta {
          mStopped := false;
        }
        i := i + 1;
      }
      assert staticP[..] == Rebased(last, reading);
      ok := true;
    }

    /** doCalc */
    method DoCalc(p: array<int>, cosA: real, sinA: real) returns (ret: int)
      requires Valid() && p.Length == MAX_WHEEL_NUM && p != staticP
      modifies this, staticP
      ensures Valid()
      ensures (State(), ret) == Calc(params, old(State()), Reading(p[..], cosA, sinA))
    {
      hide Forward, Representative, Jumps, SeenRotating, Counts;
      ghost var reading := p[..];
      if firstIn {
        firstIn := false;
        Rebase(p);
        return 1;
      }
      var ok, wheelPos := TakeMovements(p);
      if !ok {
        return 2;
      }
      var (d, turn) := Forward(params, wheelPos[0] as real, wheelPos[1] as real);
      mDeltaX, mDeltaY, mDeltaAngle := d, 0.0, turn;
      mX := mX + (d * cosA - 0.0 * sinA);
      mY := mY + (d * sinA + 0.0 * cosA);
      mAngle := WrapHeading(mAngle + turn);
      ghost var after := Calc(params, old(State()), Reading(reading, cosA, sinA)).0;
      assert mX == after.x && mY == after.y && mAngle == after.angle && State().last == after.last;
      return 0;
    }
  }

  ghost predicate RunFits(o: Odometry, run: seq<Reading>) {
    |o.last| == MAX_WHEEL_NUM && forall k | 0 <= k < |run| :: |run[k].p| == MAX_WHEEL_NUM
  }

  /** A run of samples. */
  ghost function Drive(g: Params, o: Odometry, run: seq<Reading>): (r: Odometry)
    requires g.Valid() && RunFits(o, run)
    ensures |r.last| == MAX_WHEEL_NUM
    decreases |run|
  {
    if run == [] then o else Drive(g, Calc(g, o, run[0]).0, run[1..])
  }

  /** The turn that a pair of wheel counts stands for. */
  function TurnOf(g: Params, left: int, right: int): real
    requires g.Valid()
  {
    Forward(g, left as real, right as real).1
  }

  /** ... and a pair of absolute readings. */
  function Heading(g: Params, p: seq<int>): real
    requires g.Valid() && |p| == MAX_WHEEL_NUM
  {
    TurnOf(g, p[0], p[1])
  }

  /** What the samples that were not accepted would have turned. */
  ghost function Skipped(g: Params, o: Odometry, run: seq<Reading>): real
    requires g.Valid() && RunFits(o, run)
    decreases |run|
  {
    if run == [] then 0.0
    else
      var (o', ret) := Calc(g, o, run[0]);
      (if ret == 0 then 0.0 else Heading(g, o'.last) - Heading(g, o.last)) + Skipped(g, o', run[1..])
  }

  /** The counts the two wheels rolled over by in the samples that were accepted. */
  ghost function RolledOver(g: Params, o: Odometry, run: seq<Reading>): (int, int)
    requires g.Valid() && RunFits(o, run)
    decreases |run|
  {
    if run == [] then (0, 0)
    else
      var (o', ret) := Calc(g, o, run[0]);
      var (l, r) := RolledOver(g, o', run[1..]);
      if ret == 0 then (WORD * Rollovers(o.last, run[0].p, 0) + l, WORD * Rollovers(o.last, run[0].p, 1) + r)
      else (l, r)
  }

  lemma DistanceAdds(a: int, b: int, scale: real, rate: real)
    requires rate != 0.0
    ensures WheelDistance((a + b) as real, scale, rate)
            == WheelDistance(a as real, scale, rate) + WheelDistance(b as real, scale, rate)
  {
    hide Over;
    var x, y := WheelDistance(a as real, scale, rate), WheelDistance(b as real, scale, rate);
    assert x * rate == a as real * scale && y * rate == b as real * scale;
    assert (x + y) * rate == x * rate + y * rate == (a as real + b as real) * scale;
    assert (a + b) as real == a as real + b as real;
    OverUnique((a + b) as real * scale, rate, x + y);
  }

  lemma TurnAngleAdds(l: real, r: real, l': real, r': real, e: real)
    requires e != 0.0
    ensures TurnAngle(l + l', r + r', e) == TurnAngle(l, r, e) + TurnAngle(l', r', e)
  {
    hide Over;
    var t, u := TurnAngle(l, r, e), TurnAngle(l', r', e);
    assert t * e == r - l && u * e == r' - l';
    assert (t + u) * e == t * e + u * e;
    OverUnique((r + r') - (l + l'), e, t + u);
  }

  /** Turns add up as the counts do. */
  lemma TurnsAdd(g: Params, a: int, b: int, c: int, d: int)
    requires g.Valid()
    ensures TurnOf(g, a + c, b + d) == TurnOf(g, a, b) + TurnOf(g, c, d)
  {
    hide WheelDistance, Mean, TurnAngle;
    DistanceAdds(a, c, g.scaleL, g.posRate);
    DistanceAdds(b, d, g.scaleR, g.posRate);
    TurnAngleAdds(
      WheelDistance(a as real, g.scaleL, g.posRate), WheelDistance(b as real, g.scaleR, g.posRate),
      WheelDistance(c as real, g.scaleL, g.posRate), WheelDistance(d as real, g.scaleR, g.posRate), g.e);
  }

  lemma NoTurn(g: Params)
    requires g.Valid()
    ensures TurnOf(g, 0, 0) == 0.0
  {
    hide Forward;
    TurnsAdd(g, 0, 0, 0, 0);
  }

  /** The turn of a movement is the difference of the turns of its ends and the turn of what rolled over. */
  lemma HeadingDifference(g: Params, last: seq<int>, p: seq<int>)
    requires g.Valid() && |last| == |p| == MAX_WHEEL_NUM
    ensures TurnOf(g, Counts(last, p, 0), Counts(last, p, 1))
            == Heading(g, p) - Heading(g, last)
               + TurnOf(g, WORD * Rollovers(last, p, 0), WORD * Rollovers(last, p, 1))
  {
    hide TurnOf, Counts, Rollovers;
    var a, b := WORD * Rollovers(last, p, 0), WORD * Rollovers(last, p, 1);
    CountsRollOver(last, p, 0);
    CountsRollOver(last, p, 1);
    TurnsAdd(g, Counts(last, p, 0), Counts(last, p, 1), last[0], last[1]);
    TurnsAdd(g, p[0], p[1], a, b);
  }

  /** The heading that the end readings, the samples not accepted and the rollovers account for. */
  ghost function Expected(g: Params, o: Odometry, run: seq<Reading>): real
    requires g.Valid() && RunFits(o, run)
  {
    var (l, r) := RolledOver(g, o, run);
    o.angle + Heading(g, Drive(g, o, run).last) - Heading(g, o.last) - Skipped(g, o, run) + TurnOf(g, l, r)
  }

  /**
    Over any run the heading depends only on the first and the last encoder reading, on how
    often each encoder rolled over, and on what the samples that were not accepted jumped,
    whatever lies between.
   */
  lemma {:induction false} HeadingTelescopes(g: Params, o: Odometry, run: seq<Reading>)
    requires g.Valid() && RunFits(o, run)
    ensures SameDirection(Drive(g, o, run).angle, Expected(g, o, run))
    decreases |run|
  {
    hide TurnOf, Forward, Representative, Jumps, SeenRotating;
    NoTurn(g);
    if run == [] {
      assert Turned(o.angle, Expected(g, o, run), 0);
    } else {
      var o' := Calc(g, o, run[0]).0;
      HeadingTelescopes(g, o', run[1..]);
      var j :| Turned(Drive(g, o', run[1..]).angle, Expected(g, o', run[1..]), j);
      var k := CalcTurns(g, o, run[0]);
      ExpectedStep(g, o, run);
      assert Turned(Drive(g, o, run).angle, Expected(g, o, run), j + k);
    }
  }

  /** What one sample adds to the heading, up to whole turns. */
  ghost function Added(g: Params, o: Odometry, s: Reading): real
    requires g.Valid() && |o.last| == |s.p| == MAX_WHEEL_NUM
  {
    if Calc(g, o, s).1 == 0 then TurnOf(g, Counts(o.last, s.p, 0), Counts(o.last, s.p, 1)) else 0.0
  }

  lemma ExpectedStep(g: Params, o: Odometry, run: seq<Reading>)
    requires g.Valid() && RunFits(o, run) && run != []
    ensures var o' := Calc(g, o, run[0]).0;
            Expected(g, o, run) - o.angle == Expected(g, o', run[1..]) - o'.angle + Added(g, o, run[0])
  {
    var (o', ret) := Calc(g, o, run[0]);
    assert o'.last == Rebased(o.last, run[0].p);
    hide TurnOf, Calc, Counts, Rollovers;
    var (l, r) := RolledOver(g, o', run[1..]);
    HeadingDifference(g, o.last, run[0].p);
    TurnsAdd(g, WORD * Rollovers(o.last, run[0].p, 0), WORD * Rollovers(o.last, run[0].p, 1), l, r);
    assert Heading(g, o'.last) == Heading(g, run[0].p);
  }

  /** One sample turns the heading by its wheels' counts up to whole turns, or not at all. */
  lemma CalcTurns(g: Params, o: Odometry, s: Reading) returns (k: int)
    requires g.Valid() && |o.last| == |s.p| == MAX_WHEEL_NUM
    ensures Turned(Calc(g, o, s).0.angle, o.angle + Added(g, o, s), k)
  {
    hide Forward, Counts;
    k := 0;
    var turn := TurnOf(g, Counts(o.last, s.p, 0), Counts(o.last, s.p, 1));
    if Calc(g, o, s).1 == 0 {
      RepresentativeInRange(o.angle + turn);
      k :| Turned(Calc(g, o, s).0.angle, o.angle + turn, k);
    }
  }

  /** The end heading of any run, in closed form. */
  lemma HeadingClosedForm(g: Params, o: Odometry, run: seq<Reading>)
    requires g.Valid() && RunFits(o, run) && InRange(o.angle)
    ensures Drive(g, o, run).angle == Representative(Expected(g, o, run))
  {
    hide Expected;
    HeadingTelescopes(g, o, run);
    AnglesStayInRange(g, o, run);
    OneRepresentative(Drive(g, o, run).angle, Expected(g, o, run));
  }

  /** Every sample of the run moves the pose. */
  ghost predicate AllAccepted(g: Params, o: Odometry, run: seq<Reading>)
    requires g.Valid() && RunFits(o, run)
    decreases |run|
  {
    run == [] || (Calc(g, o, run[0]).1 == 0 && AllAccepted(g, Calc(g, o, run[0]).0, run[1..]))
  }

  /**
    When every sample is accepted nothing is skipped: only the first and last readings matter
    and how often the encoders rolled over between them.
   */
  lemma AcceptedRunHeading(g: Params, o: Odometry, run: seq<Reading>)
    requires g.Valid() && RunFits(o, run) && InRange(o.angle) && AllAccepted(g, o, run)
    ensures var r := Drive(g, o, run);
            var rolled := RolledOver(g, o, run);
            && r.angle == Representative(o.angle + Heading(g, r.last) - Heading(g, o.last)
                              + TurnOf(g, rolled.0, rolled.1))
            && (rolled == (0, 0) ==> r.angle == Representative(o.angle + Heading(g, r.last) - Heading(g, o.last)))
  {
    hide TurnOf, Calc;
    NothingSkipped(g, o, run);
    HeadingClosedForm(g, o, run);
    NoTurn(g);
  }

  lemma {:induction false} NothingSkipped(g: Params, o: Odometry, run: seq<Reading>)
    requires g.Valid() && RunFits(o, run) && AllAccepted(g, o, run)
    ensures Skipped(g, o, run) == 0.0
    decreases |run|
  {
    if run != [] { NothingSkipped(g, Calc(g, o, run[0]).0, run[1..]); }
  }

  lemma {:induction false} AnglesStayInRange(g: Params, o: Odometry, run: seq<Reading>)
    requires g.Valid() && RunFits(o, run) && InRange(o.angle)
    ensures InRange(Drive(g, o, run).angle)
    decreases |run|
  {
    if run != [] {
      var (d, turn) := Forward(g, Counts(o.last, run[0].p, 0) as real, Counts(o.last, run[0].p, 1) as real);
      RepresentativeInRange(o.angle + turn);
      AnglesStayInRange(g, Calc(g, o, run[0]).0, run[1..]);
    }
  }

  /** A rejected jump leaves the pose alone and re-bases both wheels, so it is forgotten at once. */
  lemma JumpOnlyRebases(g: Params, o: Odometry, s: Reading)
    requires g.Valid() && ReadingFits(o, s) && !o.firstIn
    ensures var (o', ret) := Calc(g, o, s);
            && (ret == 2 <==> Jumps(o.last, s.p))
            && (ret == 2 ==> o'.x == o.x && o'.y == o.y && o'.angle == o.angle && o'.moved == o.moved)
            && o'.last[0] == s.p[0] && o'.last[1] == s.p[1]
            && Calc(g, o', s).1 == 0
  {
  }

  /** An accepted sample moves the robot by exactly the distance its wheels rolled. */
  lemma StepHasLength(g: Params, o: Odometry, s: Reading)
    requires g.Valid() && ReadingFits(o, s) && Calc(g, o, s).1 == 0
    ensures var d := Forward(g, Counts(o.last, s.p, 0) as real, Counts(o.last, s.p, 1) as real).0;
            var o' := Calc(g, o, s).0;
            && (o'.x - o.x) * (o'.x - o.x) + (o'.y - o.y) * (o'.y - o.y) == d * d
            && o'.moved.dx == d && SameDirection(o'.angle, o.angle + o'.moved.turn)
  {
    var d := Forward(g, Counts(o.last, s.p, 0) as real, Counts(o.last, s.p, 1) as real).0;
    var c, t := s.cosA, s.sinA;
    assert (d * c) * (d * c) + (d * t) * (d * t) == d * d * (c * c + t * t);
    RepresentativeInRange(o.angle + Calc(g, o, s).0.moved.turn);
  }

  /** No sample of the run shows a wheel rotating, as far as the wheel loop gets to see. */
  ghost predicate AtRest(g: Params, o: Odometry, run: seq<Reading>)
    requires g.Valid() && RunFits(o, run)
    decreases |run|
  {
    run == [] || ((o.firstIn || !SeenRotating(g, o.last, run[0].p)) && AtRest(g, Calc(g, o, run[0]).0, run[1..]))
  }

  /** Nothing sets the "stopped" flag again: it says that no wheel has been seen rotating since the start. */
  lemma {:induction false} StoppedMeansNeverMoved(g: Params, o: Odometry, run: seq<Reading>)
    requires g.Valid() && RunFits(o, run)
    ensures Drive(g, o, run).stopped <==> o.stopped && AtRest(g, o, run)
    decreases |run|
  {
    hide Forward, Representative, SeenRotating;
    if run != [] { StoppedMeansNeverMoved(g, Calc(g, o, run[0]).0, run[1..]); }
  }
}
