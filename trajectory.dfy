/** The trajectory that `goto_position` computes before it starts stepping
    the simulator: a number of steps from the Euclidean distance, the speed,
    the timestep and the control period, then a straight-line interpolation
    from `current` to `target` with `np.linspace(0, 1, num_steps)` weights.

    `current` is what the simulator reports and is an argument here. Dafny
    has no square root, so the distance `d` is an argument too, tied to the
    squared differences by a precondition. */
module Trajectory {

  /** `np.sum((target - current) ** 2)`: never negative, and zero exactly
      when the two vectors are equal. */
  function SumSquares(target: seq<real>, current: seq<real>): (s: real)
    requires |target| == |current|
    ensures s >= 0.0
    ensures s == 0.0 <==> target == current
    decreases |target|
  {
    if |target| == 0 then 0.0
    else
      var k := |target| - 1;
      var diff := target[k] - current[k];
      var rest := SumSquares(target[..k], current[..k]);
      SquareVanishesOnlyAtZero(diff);
      assert target == current <==> target[..k] == current[..k] && diff == 0.0 by {
        assert target == target[..k] + [target[k]];
        assert current == current[..k] + [current[k]];
      }
      rest + diff * diff
  }

  /** `d` is `np.sum((target - current) ** 2) ** .5`. */
  ghost predicate IsDistance(d: real, target: seq<real>, current: seq<real>)
    requires |target| == |current|
  {
    d >= 0.0 && d * d == SumSquares(target, current)
  }

  /** `int(duration / (timestep * control_period) + 1)` with
      `duration = distance / speed`; `int` truncates, which is the floor for
      the non-negative value here. */
  function NumSteps(d: real, speed: real, timestep: real, controlPeriod: nat): (n: nat)
    requires d >= 0.0 && speed > 0.0 && timestep > 0.0 && controlPeriod >= 1
    ensures n >= 1
    ensures (n - 1) as real <= d / speed / (timestep * controlPeriod as real) < n as real
  {
    var duration := d / speed;
    var steps := duration / (timestep * controlPeriod as real);
    assert steps >= 0.0;
    (steps + 1.0).Floor
  }

  /** The `j`-th of `m + 1` evenly spaced weights from 0 to 1. */
  function Weight(j: nat, m: nat): (r: real)
    requires 1 <= m && j <= m
    ensures 0.0 <= r <= 1.0
    ensures j == 0 ==> r == 0.0
    ensures j == m ==> r == 1.0
  {
    DivideIsMonotone(j as real, m as real, m as real);
    DivideIsMonotone(0.0, j as real, m as real);
    j as real / m as real
  }

  /** `np.linspace(0, 1, n)`: `n` evenly spaced weights from 0 to 1. With a
      single sample the only weight is 0. */
  function Linspace01(n: nat): (w: seq<real>)
    ensures |w| == n
    ensures n >= 1 ==> w[0] == 0.0
    ensures n >= 2 ==> w[n - 1] == 1.0
    ensures forall j :: 0 <= j < n ==> 0.0 <= w[j] <= 1.0
    ensures forall j :: 0 <= j < n - 1 ==> w[j] <= w[j + 1]
  {
    if n <= 1 then seq(n, j => 0.0)
    else
      var w := seq(n, j requires 0 <= j < n => Weight(j, n - 1));
      assert forall j :: 0 <= j < n - 1 ==> w[j] <= w[j + 1] by {
        forall j | 0 <= j < n - 1 ensures w[j] <= w[j + 1] {
          DivideIsMonotone(j as real, (j + 1) as real, (n - 1) as real);
        }
      }
      w
  }

  /** One interpolated coordinate: `w * target + (1 - w) * current`. */
  function Lerp(w: real, current: real, target: real): (x: real)
    ensures w == 0.0 ==> x == current
    ensures w == 1.0 ==> x == target
  {
    w * target + (1.0 - w) * current
  }

  /** The joint vector at weight `w`. */
  function Interpolate(w: real, current: seq<real>, target: seq<real>): (v: seq<real>)
    requires |current| == |target|
    ensures |v| == |current|
    ensures w == 0.0 ==> v == current
    ensures w == 1.0 ==> v == target
  {
    seq(|current|, k requires 0 <= k < |current| => Lerp(w, current[k], target[k]))
  }

  /** The trajectory of `goto_position`: one joint vector per weight. The
      first vector is `current`; the last is `target` only when there are at
      least two steps. */
  function Trajectory(current: seq<real>, target: seq<real>, d: real,
                      speed: real, timestep: real, controlPeriod: nat): (traj: seq<seq<real>>)
    requires |current| == |target| && IsDistance(d, target, current)
    requires speed > 0.0 && timestep > 0.0 && controlPeriod >= 1
    ensures |traj| == NumSteps(d, speed, timestep, controlPeriod)
    ensures forall j :: 0 <= j < |traj| ==> |traj[j]| == |current|
    ensures traj[0] == current
    ensures |traj| >= 2 ==> traj[|traj| - 1] == target
  {
    var w := Linspace01(NumSteps(d, speed, timestep, controlPeriod));
    var traj := seq(|w|, j requires 0 <= j < |w| => Interpolate(w[j], current, target));
    assert traj[0] == current;
    assert |traj| >= 2 ==> traj[|traj| - 1] == target;
    traj
  }

  /** Element `j` of an `N`-step trajectory blends the end points with the
      weight `j / (N - 1)`; a single-step trajectory uses the weight 0. */
  lemma TrajectoryElements(current: seq<real>, target: seq<real>, d: real,
                           speed: real, timestep: real, controlPeriod: nat)
    requires |current| == |target| && IsDistance(d, target, current)
    requires speed > 0.0 && timestep > 0.0 && controlPeriod >= 1
    ensures var traj := Trajectory(current, target, d, speed, timestep, controlPeriod);
      forall j, k :: 0 <= j < |traj| && 0 <= k < |current| ==>
        traj[j][k] == if |traj| == 1 then current[k]
                      else Lerp(j as real / (|traj| - 1) as real, current[k], target[k])
  {
    var traj := Trajectory(current, target, d, speed, timestep, controlPeriod);
    var w := Linspace01(NumSteps(d, speed, timestep, controlPeriod));
    forall j, k | 0 <= j < |traj| && 0 <= k < |current|
      ensures traj[j][k] == if |traj| == 1 then current[k]
                            else Lerp(j as real / (|traj| - 1) as real, current[k], target[k])
    {
      assert traj[j][k] == Lerp(w[j], current[k], target[k]);
      if |traj| == 1 {
        assert w[j] == 0.0;
      } else {
        assert w[j] == Weight(j, |traj| - 1);
      }
    }
  }

  function Min(a: real, b: real): real { if a <= b then a else b }
  function Max(a: real, b: real): real { if a <= b then b else a }
  function Abs(a: real): real { if a < 0.0 then -a else a }

  /** A weight in [0, 1] lands between the two end points. */
  lemma LerpBetween(w: real, c: real, t: real)
    requires 0.0 <= w <= 1.0
    ensures Min(c, t) <= Lerp(w, c, t) <= Max(c, t)
  {
    LerpTowardTarget(0.0, w, c, t);
    LerpTowardTarget(w, 1.0, c, t);
    assert Lerp(0.0, c, t) == c && Lerp(1.0, c, t) == t;
  }

  /** A larger weight is no farther from the target, and on the same side. */
  lemma LerpTowardTarget(w1: real, w2: real, c: real, t: real)
    requires 0.0 <= w1 <= w2 <= 1.0
    ensures Abs(t - Lerp(w2, c, t)) <= Abs(t - Lerp(w1, c, t))
    ensures c <= t ==> Lerp(w1, c, t) <= Lerp(w2, c, t)
    ensures t <= c ==> Lerp(w2, c, t) <= Lerp(w1, c, t)
  {
    assert t - Lerp(w1, c, t) == (1.0 - w1) * (t - c);
    assert t - Lerp(w2, c, t) == (1.0 - w2) * (t - c);
    assert Lerp(w2, c, t) - Lerp(w1, c, t) == (w2 - w1) * (t - c);
    WeightedGapBounds(w1, w2, t - c);
  }

  /** Every trajectory vector lies componentwise between `current` and
      `target`. */
  lemma TrajectoryStaysBetween(current: seq<real>, target: seq<real>, d: real,
                               speed: real, timestep: real, controlPeriod: nat)
    requires |current| == |target| && IsDistance(d, target, current)
    requires speed > 0.0 && timestep > 0.0 && controlPeriod >= 1
    ensures var traj := Trajectory(current, target, d, speed, timestep, controlPeriod);
      forall j, k :: 0 <= j < |traj| && 0 <= k < |current| ==>
        Min(current[k], target[k]) <= traj[j][k] <= Max(current[k], target[k])
  {
    var traj := Trajectory(current, target, d, speed, timestep, controlPeriod);
    var w := Linspace01(NumSteps(d, speed, timestep, controlPeriod));
    forall j, k | 0 <= j < |traj| && 0 <= k < |current|
      ensures Min(current[k], target[k]) <= traj[j][k] <= Max(current[k], target[k])
    {
      assert traj[j][k] == Lerp(w[j], current[k], target[k]);
      LerpBetween(w[j], current[k], target[k]);
    }
  }

  /** Consecutive trajectory vectors move monotonically toward `target`:
      each coordinate never moves away from it nor overshoots. */
  lemma TrajectoryApproachesTarget(current: seq<real>, target: seq<real>, d: real,
                                   speed: real, timestep: real, controlPeriod: nat)
    requires |current| == |target| && IsDistance(d, target, current)
    requires speed > 0.0 && timestep > 0.0 && controlPeriod >= 1
    ensures var traj := Trajectory(current, target, d, speed, timestep, controlPeriod);
      forall j, k :: 0 <= j < |traj| - 1 && 0 <= k < |current| ==>
        && Abs(target[k] - traj[j + 1][k]) <= Abs(target[k] - traj[j][k])
        && (current[k] <= target[k] ==> traj[j][k] <= traj[j + 1][k])
        && (target[k] <= current[k] ==> traj[j + 1][k] <= traj[j][k])
  {
    var traj := Trajectory(current, target, d, speed, timestep, controlPeriod);
    var w := Linspace01(NumSteps(d, speed, timestep, controlPeriod));
    forall j, k | 0 <= j < |traj| - 1 && 0 <= k < |current|
      ensures Abs(target[k] - traj[j + 1][k]) <= Abs(target[k] - traj[j][k])
      ensures current[k] <= target[k] ==> traj[j][k] <= traj[j + 1][k]
      ensures target[k] <= current[k] ==> traj[j + 1][k] <= traj[j][k]
    {
      assert traj[j][k] == Lerp(w[j], current[k], target[k]);
      assert traj[j + 1][k] == Lerp(w[j + 1], current[k], target[k]);
      LerpTowardTarget(w[j], w[j + 1], current[k], target[k]);
    }
  }

  /** Zero distance gives one step, and that step is `current`. */
  lemma StationaryTrajectory(current: seq<real>, d: real,
                             speed: real, timestep: real, controlPeriod: nat)
    requires IsDistance(d, current, current)
    requires speed > 0.0 && timestep > 0.0 && controlPeriod >= 1
    ensures Trajectory(current, current, d, speed, timestep, controlPeriod) == [current]
  {
    if d > 0.0 {
      SquareIsMonotone(0.0, d);
    }
    assert d == 0.0;
    assert d / speed / (timestep * controlPeriod as real) == 0.0;
    assert NumSteps(d, speed, timestep, controlPeriod) == 1;
  }

  /** A move shorter than one control step also gives the single vector
      `current`: the target is never commanded, because `linspace(0, 1, 1)`
      is `[0.0]`. */
  lemma ShortMoveStaysAtCurrent(current: seq<real>, target: seq<real>, d: real,
                                speed: real, timestep: real, controlPeriod: nat)
    requires |current| == |target| && IsDistance(d, target, current)
    requires speed > 0.0 && timestep > 0.0 && controlPeriod >= 1
    requires d < speed * timestep * controlPeriod as real
    ensures Trajectory(current, target, d, speed, timestep, controlPeriod) == [current]
  {
    var p := timestep * controlPeriod as real;
    assert p > 0.0;
    assert d / speed < p by {
      assert d < speed * p;
    }
    assert d / speed / p < 1.0;
    var n := NumSteps(d, speed, timestep, controlPeriod);
    assert (n - 1) as real < 1.0;
  }

  /** From [0, 0] to [1, 1] at speed 1 with a 0.1 s control step, the
      distance is the square root of 2 and the trajectory has 15 vectors. */
  lemma DiagonalMoveHasFifteenSteps(d: real)
    requires IsDistance(d, [1.0, 1.0], [0.0, 0.0])
    ensures |Trajectory([0.0, 0.0], [1.0, 1.0], d, 1.0, 0.1, 1)| == 15
  {
    assert SumSquares([1.0, 1.0], [0.0, 0.0]) == 2.0 by {
      assert [1.0, 1.0][..1] == [1.0] && [0.0, 0.0][..1] == [0.0];
      assert [1.0][..0] == [] && [0.0][..0] == [];
    }
    assert d * d == 2.0;
    if d < 1.4 {
      SquareIsMonotone(d, 1.4);
      assert false;
    }
    if d >= 1.5 {
      if d > 1.5 {
        SquareIsMonotone(1.5, d);
      }
      assert false;
    }
    assert 14.0 <= d / 1.0 / (0.1 * 1 as real) < 15.0;
  }

  // Facts of real arithmetic that the solver does not find by itself.

  lemma ProductIsPositive(a: real, b: real)
    requires a > 0.0 && b > 0.0
    ensures a * b > 0.0
  {
  }

  lemma SquareVanishesOnlyAtZero(x: real)
    ensures x * x >= 0.0
    ensures x * x == 0.0 <==> x == 0.0
  {
    if x > 0.0 {
      SquareIsMonotone(0.0, x);
    } else if x < 0.0 {
      SquareIsMonotone(0.0, -x);
    }
  }

  lemma SquareIsMonotone(a: real, b: real)
    requires 0.0 <= a < b
    ensures a * a < b * b
  {
    ProductIsPositive(b - a, b + a);
    assert b * b - a * a == (b - a) * (b + a);
  }

  lemma WeightedGapBounds(w1: real, w2: real, a: real)
    requires 0.0 <= w1 <= w2 <= 1.0
    ensures a >= 0.0 ==> 0.0 <= (1.0 - w2) * a <= (1.0 - w1) * a && 0.0 <= (w2 - w1) * a
    ensures a <= 0.0 ==> (1.0 - w1) * a <= (1.0 - w2) * a <= 0.0 && (w2 - w1) * a <= 0.0
  {
    assert (1.0 - w1) * a - (1.0 - w2) * a == (w2 - w1) * a;
    if a > 0.0 {
      if w2 < 1.0 { ProductIsPositive(1.0 - w2, a); }
      if w1 < w2 { ProductIsPositive(w2 - w1, a); }
    } else if a < 0.0 {
      if w2 < 1.0 { ProductIsPositive(1.0 - w2, -a); }
      if w1 < w2 { ProductIsPositive(w2 - w1, -a); }
      assert (1.0 - w2) * a == -((1.0 - w2) * (-a));
      assert (w2 - w1) * a == -((w2 - w1) * (-a));
    }
  }

  lemma DivideIsMonotone(a: real, b: real, c: real)
    requires a <= b && c > 0.0
    ensures a / c <= b / c
  {
    assert b / c - a / c == (b - a) / c;
  }
}
