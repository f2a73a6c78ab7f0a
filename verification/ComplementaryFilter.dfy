/**
  The complementary filter of lsm6ds3_fusion.c over real numbers: its error checks, how far its angles can go and how
  fast it forgets where it started.
*/
module ComplementaryFilter {

  function Abs(x: real): real { if x < 0.0 then -x else x }

  // ---- One angle ----------------------------------------------------------

  // An angle of the filter, roll or pitch.
  datatype Axis = Axis(initialized: bool, angle: real)

  // What an update brings for one angle: the turn since the last update (rate times dt) and, unless the
  // accelerometer vector is zero, the angle it indicates.
  datatype Input = Sensed(turn: real, tilt: real) | Blind(turn: real)

  // The weighted mean of the turned angle and the tilt
  function Blend(alpha: real, x: real, turn: real, tilt: real): real {
    alpha * (x + turn) + (1.0 - alpha) * tilt
  }

  // lsm6ds3_complementary_update, for one angle
  function Next(alpha: real, a: Axis, i: Input): Axis {
    match i
    case Sensed(turn, tilt) =>
      if a.initialized then a.(angle := Blend(alpha, a.angle, turn, tilt)) else Axis(true, tilt)
    case Blind(turn) =>
      if a.initialized then a.(angle := a.angle + turn) else a
  }

  function Run(alpha: real, a: Axis, inputs: seq<Input>): Axis {
    if inputs == [] then a
    else Next(alpha, Run(alpha, a, inputs[..|inputs| - 1]), inputs[|inputs| - 1])
  }

  // After lsm6ds3_complementary_init
  const AT_REST := Axis(false, 0.0)

  function Power(b: real, k: nat): real {
    if k == 0 then 1.0 else b * Power(b, k - 1)
  }

  // Updates with, and without, an angle from the accelerometer.
  function SensedCount(inputs: seq<Input>): nat {
    if inputs == [] then 0
    else SensedCount(inputs[..|inputs| - 1]) + if inputs[|inputs| - 1].Sensed? then 1 else 0
  }

  function BlindCount(inputs: seq<Input>): nat {
    if inputs == [] then 0
    else BlindCount(inputs[..|inputs| - 1]) + if inputs[|inputs| - 1].Blind? then 1 else 0
  }

  // ---- How far it can go --------------------------------------------------

  ghost predicate Within(i: Input, tilt: real, turn: real) {
    Abs(i.turn) <= turn && (i.Sensed? ==> Abs(i.tilt) <= tilt)
  }

  // The farthest angle with every tilt at most tilt and every turn at most turn.
  function Reach(alpha: real, tilt: real, turn: real): real
    requires alpha < 1.0
  {
    tilt + alpha * turn / (1.0 - alpha)
  }

  lemma Distribute(a: real, x: real, y: real)
    ensures a * (x + y) == a * x + a * y && a * (x - y) == a * x - a * y
  {
  }

  lemma ReachIsFixed(alpha: real, tilt: real, turn: real)
    requires alpha < 1.0
    ensures Blend(alpha, Reach(alpha, tilt, turn), turn, tilt) == Reach(alpha, tilt, turn)
  {
    var q := alpha * turn / (1.0 - alpha);
    assert q * (1.0 - alpha) == alpha * turn;
    Distribute(q, 1.0, alpha);
    Distribute(alpha, tilt + q, turn);
    Distribute(alpha, tilt, q);
    Distribute(tilt, 1.0, alpha);
  }

  lemma ReachIsFar(alpha: real, tilt: real, turn: real)
    requires 0.0 <= alpha < 1.0 && 0.0 <= turn
    ensures Reach(alpha, tilt, turn) >= tilt
  {
    ProductSign(alpha, turn);
    QuotientSign(alpha * turn, 1.0 - alpha);
  }

  lemma ProductSign(x: real, y: real)
    requires x >= 0.0 && y >= 0.0
    ensures x * y >= 0.0 && (x > 0.0 && y > 0.0 ==> x * y > 0.0)
  {
  }

  lemma QuotientSign(x: real, y: real)
    requires x >= 0.0 && y > 0.0
    ensures x / y >= 0.0
  {
  }

  lemma BlendIsMonotone(alpha: real, x: real, y: real, m: real, turn: real, t: real, tilt: real)
    requires 0.0 <= alpha < 1.0 && x <= y && m <= turn && t <= tilt
    ensures Blend(alpha, x, m, t) <= Blend(alpha, y, turn, tilt)
  {
    ProductSign(alpha, (y + turn) - (x + m));
    Distribute(alpha, y + turn, x + m);
    ProductSign(1.0 - alpha, tilt - t);
    Distribute(1.0 - alpha, tilt, t);
  }

  lemma BlendIsOdd(alpha: real, x: real, m: real, t: real)
    ensures Blend(alpha, -x, -m, -t) == -Blend(alpha, x, m, t)
  {
  }

  // One update that senses the tilt, from an angle beyond the reach by at most extra: not further up,
  lemma NotFurtherUp(alpha: real, x: real, m: real, t: real, tilt: real, turn: real, extra: real)
    requires 0.0 <= alpha < 1.0 && 0.0 <= extra && m <= turn && t <= tilt
    requires x <= Reach(alpha, tilt, turn) + extra
    ensures Blend(alpha, x, m, t) <= Reach(alpha, tilt, turn) + extra
  {
    hide Reach, Blend;
    var reach := Reach(alpha, tilt, turn);
    BlendIsMonotone(alpha, x, reach + extra, m, turn, t, tilt);
    ReachIsFixed(alpha, tilt, turn);
    Shrink(alpha, reach + extra, reach, turn, tilt, 1.0, extra);
    ProductSign(extra, 1.0 - alpha);
    Distribute(extra, 1.0, alpha);
  }

  // and, turned around, not further down.
  lemma SensedStep(alpha: real, x: real, i: Input, tilt: real, turn: real, extra: real)
    requires 0.0 <= alpha < 1.0 && 0.0 <= extra && i.Sensed? && Within(i, tilt, turn)
    requires Abs(x) <= Reach(alpha, tilt, turn) + extra
    ensures Abs(Blend(alpha, x, i.turn, i.tilt)) <= Reach(alpha, tilt, turn) + extra
  {
    hide Reach, Blend;
    NotFurtherUp(alpha, x, i.turn, i.tilt, tilt, turn, extra);
    NotFurtherUp(alpha, -x, -i.turn, -i.tilt, tilt, turn, extra);
    BlendIsOdd(alpha, x, i.turn, i.tilt);
  }

  // The angle never leaves the reach by more than what was turned blindly, in every run from rest.
  lemma {:induction false} AngleIsBounded(alpha: real, inputs: seq<Input>, tilt: real, turn: real)
    requires 0.0 <= alpha < 1.0 && 0.0 <= tilt && 0.0 <= turn
    requires forall i :: i in inputs ==> Within(i, tilt, turn)
    ensures Abs(Run(alpha, AT_REST, inputs).angle) <= Reach(alpha, tilt, turn) + BlindTurn(inputs, turn)
  {
    hide Reach, Blend, BlindTurn;
    ReachIsFar(alpha, tilt, turn);
    if inputs != [] {
      var before, i := inputs[..|inputs| - 1], inputs[|inputs| - 1];
      AngleIsBounded(alpha, before, tilt, turn);
      var x := Run(alpha, AT_REST, before);
      assert i in inputs && Within(i, tilt, turn);
      BlindTurnGrows(inputs, turn);
      if i.Sensed? && x.initialized {
        SensedStep(alpha, x.angle, i, tilt, turn, BlindTurn(before, turn));
      }
    }
  }

  // The most that blind updates can have turned.
  function BlindTurn(inputs: seq<Input>, turn: real): (r: real)
    requires turn >= 0.0
    ensures r >= 0.0
  {
    BlindCount(inputs) as real * turn
  }

  lemma BlindTurnGrows(inputs: seq<Input>, turn: real)
    requires turn >= 0.0 && inputs != []
    ensures BlindTurn(inputs, turn) ==
            BlindTurn(inputs[..|inputs| - 1], turn) + if inputs[|inputs| - 1].Blind? then turn else 0.0
  {
    Distribute(turn, BlindCount(inputs[..|inputs| - 1]) as real, 1.0);
  }

  // Two angles, p * c apart, on the same turn and tilt
  lemma Shrink(alpha: real, x: real, y: real, turn: real, tilt: real, p: real, c: real)
    requires x - y == p * c
    ensures Blend(alpha, x, turn, tilt) - Blend(alpha, y, turn, tilt) == alpha * p * c
  {
    Distribute(alpha, x + turn, y + turn);
    assert alpha * (p * c) == alpha * p * c;
  }

  // k updates that all bring the same turn and tilt.
  function Steady(turn: real, tilt: real, k: nat): (inputs: seq<Input>)
    ensures |inputs| == k && forall i :: i in inputs ==> i == Sensed(turn, tilt)
  {
    if k == 0 then [] else Steady(turn, tilt, k - 1) + [Sensed(turn, tilt)]
  }

  lemma SteadyStep(alpha: real, tilt: real, turn: real, k: nat)
    requires k > 0
    ensures Run(alpha, AT_REST, Steady(turn, tilt, k + 1))
            == Next(alpha, Run(alpha, AT_REST, Steady(turn, tilt, k)), Sensed(turn, tilt))
  {
    hide Next, Blend;
    var all := Steady(turn, tilt, k + 1);
    assert all[..k] == Steady(turn, tilt, k) && all[k] == Sensed(turn, tilt);
  }

  lemma FirstStep(alpha: real, tilt: real, turn: real)
    ensures Run(alpha, AT_REST, Steady(turn, tilt, 1)) == Axis(true, tilt)
  {
    assert Steady(turn, tilt, 1)[..0] == [] && Steady(turn, tilt, 1)[0] == Sensed(turn, tilt);
    assert Run(alpha, AT_REST, []) == AT_REST;
  }

  // With the largest turn and tilt all the time, the distance to the reach shrinks by alpha at every update.
  lemma {:induction false} ReachIsApproached(alpha: real, tilt: real, turn: real, k: nat)
    requires 0.0 <= alpha < 1.0
    ensures var x := Run(alpha, AT_REST, Steady(turn, tilt, k + 1));
            x.initialized && Reach(alpha, tilt, turn) - x.angle == Power(alpha, k) * (Reach(alpha, tilt, turn) - tilt)
  {
    hide Reach, Blend, Run, Steady;
    if k == 0 {
      FirstStep(alpha, tilt, turn);
    } else {
      ReachIsApproached(alpha, tilt, turn, k - 1);
      ReachIsFixed(alpha, tilt, turn);
      SteadyStep(alpha, tilt, turn, k);
      var x, reach := Run(alpha, AT_REST, Steady(turn, tilt, k)).angle, Reach(alpha, tilt, turn);
      Shrink(alpha, reach, x, turn, tilt, Power(alpha, k - 1), reach - tilt);
    }
  }

  // With alpha 1, which lsm6ds3_complementary_init accepts, the tilt has no effect after the first update.
  lemma {:induction false} AlphaOneDrifts(tilt: real, turn: real, k: nat)
    ensures Run(1.0, AT_REST, Steady(turn, tilt, k + 1)) == Axis(true, tilt + k as real * turn)
  {
    hide Run, Steady;
    if k == 0 {
      FirstStep(1.0, tilt, turn);
    } else {
      SteadyStep(1.0, tilt, turn, k);
      AlphaOneDrifts(tilt, turn, k - 1);
    }
  }

  ghost predicate Bounds(alpha: real, tilt: real, turn: real, bound: real) {
    forall inputs: seq<Input> :: (forall i :: i in inputs ==> i.Sensed? && Within(i, tilt, turn)) ==>
      Abs(Run(alpha, AT_REST, inputs).angle) <= bound
  }

  // For every alpha that is accepted: runs that always sense the tilt have a bound exactly when alpha is below 1.
  lemma BoundedIffBelowOne(alpha: real, tilt: real, turn: real)
    requires 0.0 <= alpha <= 1.0 && 0.0 <= tilt && 0.0 < turn
    ensures (exists bound :: Bounds(alpha, tilt, turn, bound)) <==> alpha < 1.0
  {
    hide Reach, Run;
    if alpha < 1.0 {
      forall inputs: seq<Input> | forall i :: i in inputs ==> i.Sensed? && Within(i, tilt, turn)
        ensures Abs(Run(alpha, AT_REST, inputs).angle) <= Reach(alpha, tilt, turn)
      {
        AngleIsBounded(alpha, inputs, tilt, turn);
        NoneBlind(inputs);
      }
      assert Bounds(alpha, tilt, turn, Reach(alpha, tilt, turn));
    } else {
      forall bound: real
        ensures !Bounds(alpha, tilt, turn, bound)
      {
        var k: nat := if bound <= 0.0 then 1 else (bound / turn).Floor + 1;
        MultipleExceeds(bound, turn);
        AlphaOneDrifts(tilt, turn, k);
      }
    }
  }

  // The reach is the least bound: of runs that always sense the tilt, exactly the numbers from it on are bounds.
  lemma ReachIsLeastBound(alpha: real, tilt: real, turn: real, bound: real)
    requires 0.0 <= alpha < 1.0 && 0.0 <= tilt && 0.0 <= turn
    ensures Bounds(alpha, tilt, turn, bound) <==> Reach(alpha, tilt, turn) <= bound
  {
    hide Reach, Run;
    var reach := Reach(alpha, tilt, turn);
    if bound < reach {
      ReachIsFar(alpha, tilt, turn);
      var k := PowerFallsBelow(alpha, reach - tilt, reach - bound);
      ReachIsApproached(alpha, tilt, turn, k);
      var inputs := Steady(turn, tilt, k + 1);
      assert Run(alpha, AT_REST, inputs).angle > bound;
      assert !Bounds(alpha, tilt, turn, bound);
    } else {
      forall inputs: seq<Input> | forall i :: i in inputs ==> i.Sensed? && Within(i, tilt, turn)
        ensures Abs(Run(alpha, AT_REST, inputs).angle) <= bound
      {
        AngleIsBounded(alpha, inputs, tilt, turn);
        NoneBlind(inputs);
      }
    }
  }

  // Powers of a number below 1 fall at least as fast as 1 / (1 + k (1 - b)),
  lemma {:induction false} PowerFalls(b: real, k: nat)
    requires 0.0 <= b <= 1.0
    ensures 0.0 <= Power(b, k) && (1.0 + k as real * (1.0 - b)) * Power(b, k) <= 1.0
  {
    if k > 0 {
      PowerFalls(b, k - 1);
      var d, p, n := 1.0 - b, Power(b, k - 1), (k - 1) as real;
      ProductSign(b, p);
      OneLess(d, n);
      ScaledLess(b * (1.0 + (n + 1.0) * d), 1.0 + n * d, p);
      Associate(1.0 + (n + 1.0) * d, b, p);
    }
  }

  lemma OneLess(d: real, n: real)
    requires 0.0 <= d && 0.0 <= n
    ensures (1.0 - d) * (1.0 + (n + 1.0) * d) <= 1.0 + n * d
  {
    ProductSign(d, d);
    ProductSign(n + 1.0, d * d);
    assert (1.0 - d) * (1.0 + (n + 1.0) * d) == 1.0 + n * d - (n + 1.0) * (d * d);
  }

  lemma ScaledLess(x: real, y: real, z: real)
    requires x <= y && 0.0 <= z
    ensures x * z <= y * z
  {
    ProductSign(y - x, z);
    Distribute(z, y, x);
  }

  lemma Associate(a: real, b: real, c: real)
    ensures a * (b * c) == b * a * c
  {
  }

  // and so below every positive gap.
  lemma PowerFallsBelow(b: real, far: real, gap: real) returns (k: nat)
    requires 0.0 <= b < 1.0 && 0.0 <= far && 0.0 < gap
    ensures Power(b, k) * far < gap
  {
    var d := 1.0 - b;
    ProductSign(d, gap);
    QuotientSign(far, d * gap);
    k := (far / (d * gap)).Floor + 1;
    MultipleExceeds(far, d * gap);
    PowerFalls(b, k);
    var n, p := 1.0 + k as real * d, Power(b, k);
    assert n * gap == gap + k as real * (d * gap);
    ScaledLess(n * p, 1.0, far);
    if p * far >= gap {
      ScaledLess(gap, p * far, n);
      assert false;
    }
  }

  lemma MultipleExceeds(bound: real, turn: real)
    requires turn > 0.0
    ensures ((bound / turn).Floor + 1) as real * turn > bound
  {
    QuotientTimes(bound, turn);
    ProductGrows((bound / turn).Floor as real + 1.0, bound / turn, turn);
  }

  lemma QuotientTimes(x: real, y: real)
    requires y > 0.0
    ensures x / y * y == x
  {
  }

  lemma ProductGrows(x: real, y: real, z: real)
    requires x > y && z > 0.0
    ensures x * z > y * z
  {
    ProductSign(x - y, z);
  }

  lemma {:induction false} NoneBlind(inputs: seq<Input>)
    requires forall i :: i in inputs ==> i.Sensed?
    ensures BlindCount(inputs) == 0
  {
    if inputs != [] {
      assert inputs[|inputs| - 1] in inputs;
      NoneBlind(inputs[..|inputs| - 1]);
    }
  }

  lemma PowerSteps(b: real, k: nat)
    ensures Power(b, 0) == 1.0
    ensures k > 0 ==> Power(b, k) == b * Power(b, k - 1)
  {
  }

  // ---- How fast it forgets ------------------------------------------------

  // Two runs on the same inputs from different angles: every update that senses the tilt shrinks their difference by
  // exactly alpha, a blind one leaves it.
  lemma {:induction false} DifferenceShrinks(alpha: real, a: real, b: real, inputs: seq<Input>)
    ensures var x, y := Run(alpha, Axis(true, a), inputs), Run(alpha, Axis(true, b), inputs);
            x.initialized && y.initialized && x.angle - y.angle == Power(alpha, SensedCount(inputs)) * (a - b)
  {
    hide Blend, Power;
    PowerSteps(alpha, SensedCount(inputs));
    if inputs != [] {
      var before, i := inputs[..|inputs| - 1], inputs[|inputs| - 1];
      DifferenceShrinks(alpha, a, b, before);
      if i.Sensed? {
        var x, y := Run(alpha, Axis(true, a), before).angle, Run(alpha, Axis(true, b), before).angle;
        Shrink(alpha, x, y, i.turn, i.tilt, Power(alpha, SensedCount(before)), a - b);
      }
    }
  }

  // ---- The filter object --------------------------------------------------

  datatype Error = Ok | InvalidArg

  // One update's arguments. rollTilt and pitchTilt stand for the angles that atan2f and asinf give for the
  // accelerometer vector.
  datatype Sample = Sample(x: real, y: real, z: real, rollTilt: real, pitchTilt: real,
                           rollRate: real, pitchRate: real, dt: real)

  // The length of the accelerometer vector is positive.
  predicate SensesTilt(s: Sample) { s.x * s.x + s.y * s.y + s.z * s.z > 0.0 }

  function RollInput(s: Sample): Input {
    if SensesTilt(s) then Sensed(s.rollRate * s.dt, s.rollTilt) else Blind(s.rollRate * s.dt)
  }

  function PitchInput(s: Sample): Input {
    if SensesTilt(s) then Sensed(s.pitchRate * s.dt, s.pitchTilt) else Blind(s.pitchRate * s.dt)
  }

  // An update in which the two rates or the two tilts are exchanged
  function Exchanged(s: Sample): Sample {
    s.(rollTilt := s.pitchTilt, pitchTilt := s.rollTilt, rollRate := s.pitchRate, pitchRate := s.rollRate)
  }

  // Each angle has its own rate and tilt: roll does not depend on those of pitch, nor pitch on those of roll, and an angle
  // turns by its own rate.
  lemma AnglesAreSeparate(alpha: real, a: Axis, s: Sample, tilt: real, rate: real)
    ensures Next(alpha, a, RollInput(s.(pitchTilt := tilt, pitchRate := rate))) == Next(alpha, a, RollInput(s))
    ensures Next(alpha, a, PitchInput(s.(rollTilt := tilt, rollRate := rate))) == Next(alpha, a, PitchInput(s))
    ensures Next(alpha, a, RollInput(Exchanged(s))) == Next(alpha, a, PitchInput(s))
    ensures a.initialized && !SensesTilt(s) ==> Next(alpha, a, RollInput(s)).angle == a.angle + s.rollRate * s.dt
    ensures !a.initialized ==> Next(alpha, a, RollInput(s)) == if SensesTilt(s) then Axis(true, s.rollTilt) else a
  {
    SameVector(s, s.(pitchTilt := tilt, pitchRate := rate));
    SameVector(s, s.(rollTilt := tilt, rollRate := rate));
    SameVector(s, Exchanged(s));
    hide Blend, SensesTilt;
  }

  lemma SameVector(s: Sample, t: Sample)
    requires s.x == t.x && s.y == t.y && s.z == t.z
    ensures SensesTilt(s) == SensesTilt(t)
  {
  }

  class Filter {
    var alpha: real
    var sampleRate: real
    var roll: real
    var pitch: real
    var initialized: bool

    function Roll(): Axis reads this { Axis(initialized, roll) }

    function Pitch(): Axis reads this { Axis(initialized, pitch) }

    // lsm6ds3_complementary_init; what it accepts is what the bound needs, except an alpha of 1
    method Init(alpha: real, sampleRate: real) returns (r: Error)
      modifies this
      ensures r == Ok <==> 0.0 <= alpha <= 1.0 && 0.0 < sampleRate <= 10000.0
      ensures r == Ok ==> this.alpha == alpha && this.sampleRate == sampleRate && Roll() == Pitch() == AT_REST
      ensures r != Ok ==> unchanged(this)
    {
      if alpha < 0.0 || alpha > 1.0 {
        return InvalidArg;
      }
      if sampleRate <= 0.0 || sampleRate > 10000.0 {
        return InvalidArg;
      }
      this.alpha, this.sampleRate := alpha, sampleRate;
      roll, pitch, initialized := 0.0, 0.0, false;
      return Ok;
    }

    // The mean of one angle
    method Mix(x: real, turn: real, tilt: real) returns (r: real)
      ensures r == Blend(alpha, x, turn, tilt)
    {
      r := alpha * (x + turn) + (1.0 - alpha) * tilt;
    }

    // lsm6ds3_complementary_update
    method Update(s: Sample) returns (r: Error)
      modifies `roll, `pitch, `initialized
      ensures r == Ok <==> 0.0 < s.dt <= 1.0
      ensures Roll() == if r == Ok then Next(alpha, old(Roll()), RollInput(s)) else old(Roll())
      ensures Pitch() == if r == Ok then Next(alpha, old(Pitch()), PitchInput(s)) else old(Pitch())
    {
      if s.dt <= 0.0 || s.dt > 1.0 {
        return InvalidArg;
      }
      var sensed := s.x * s.x + s.y * s.y + s.z * s.z > 0.0;
      assert sensed == SensesTilt(s);
      hide SensesTilt, Blend;
      if sensed {
        if !initialized {
          roll, pitch, initialized := s.rollTilt, s.pitchTilt, true;
        } else {
          roll := Mix(roll, s.rollRate * s.dt, s.rollTilt);
          pitch := Mix(pitch, s.pitchRate * s.dt, s.pitchTilt);
        }
      } else if initialized {
        roll := roll + s.rollRate * s.dt;
        pitch := pitch + s.pitchRate * s.dt;
      }
      return Ok;
    }
  }
}
