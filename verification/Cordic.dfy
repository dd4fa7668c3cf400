// Sine and cosine in Q14 for angles in units of 1/25736 turn.
module Cordic {
  import opened Words
  import opened Arithmetic

  const PERIOD: int := 0x6488
  const HALF: int := 0x3244
  const QUARTER: int := 0x1922

  const STEPS: seq<int> := [3217, 1899, 1003, 509, 256, 128, 64, 32, 16, 8, 4, 2, 1]

  // Thirteen rotations toward the folded angle, in wrapping 16-bit arithmetic.
  function Rotate(index: nat, folded: int, current: int, sine: i16, cosine: i16): (i16, i16)
    requires index <= 13
    decreases 13 - index
  {
    if index == 13 then (sine, cosine)
    else
      var cosineStep: int, sineStep: int := WrapI16(cosine as int / Pow2(index)), WrapI16(sine as int / Pow2(index));
      if folded - current < 0 then
        Rotate(index + 1, folded, current - STEPS[index],
               WrapI16(sine as int + WrapI16(-cosineStep)), WrapI16(cosine as int + sineStep))
      else
        Rotate(index + 1, folded, current + STEPS[index],
               WrapI16(sine as int + cosineStep), WrapI16(cosine as int + WrapI16(-sineStep)))
  }

  function Scaled(v: i16): i16 { WrapI16((v as int * 0x9b75 + 0x8000) / 0x1_0000) }

  // Sine and cosine of an angle in the first quadrant.
  function FirstQuadrant(folded: int): (i16, i16) {
    if folded == 0 then (0, 0x4000)
    else if folded == QUARTER then (0x4000, 0)
    else
      var (sine, cosine) := Rotate(0, folded, 0, 0, 0x4000);
      (Scaled(sine), Scaled(cosine))
  }

  function Normalized(angle: int): int {
    var magnitude := Abs(angle) % PERIOD;
    if magnitude < HALF + 1 then if angle < 1 then -magnitude else magnitude
    else if angle < 0 then PERIOD - magnitude
    else magnitude - PERIOD
  }

  type Quarter = int -> (i16, i16)

  // All four quadrants from the first.
  function Quadrants(first: Quarter, n: int): (int, int) {
    if n < QUARTER + 1 then
      if n < -QUARTER then
        var (s, c) := first(n + HALF);
        (-(s as int), -(c as int))
      else if n >= 0 then
        var (s, c) := first(n);
        (s as int, c as int)
      else
        var (s, c) := first(-n);
        (-(s as int), c as int)
    else
      var (s, c) := first(HALF - n);
      (s as int, -(c as int))
  }

  function SinCos(angle: int): (r: (int, int))
    ensures -0x8000 <= r.0 <= 0x8000 && -0x8000 <= r.1 <= 0x8000
  {
    Quadrants(FirstQuadrant, Normalized(angle))
  }

  // ---------- the angle turned ----------

  // The angle that rotations by the steps from `index` on end at.
  function Reached(steps: seq<int>, index: nat, folded: int, current: int): int
    requires index <= |steps|
    decreases |steps| - index
  {
    if index == |steps| then current
    else
      var step := steps[index];
      Reached(steps, index + 1, folded, if folded - current < 0 then current - step else current + step)
  }

  // No step is less than half the one before it, and the last is one unit.
  ghost predicate Halving(steps: seq<int>) {
    && steps != [] && steps[|steps| - 1] == 1
    && (forall i :: 0 <= i < |steps| ==> 0 < steps[i])
    && QUARTER <= 2 * steps[0] && (forall i :: 0 < i < |steps| ==> steps[i - 1] <= 2 * steps[i])
  }

  lemma {:induction false} StepsReach(steps: seq<int>, index: nat, folded: int, current: int)
    requires Halving(steps) && 0 < index <= |steps| && Abs(folded - current) <= steps[index - 1]
    ensures Abs(folded - Reached(steps, index, folded, current)) <= 1
    decreases |steps| - index
  {
    if index < |steps| {
      var step := steps[index];
      StepsReach(steps, index + 1, folded, if folded - current < 0 then current - step else current + step);
    }
  }

  // The program's steps are such.
  lemma StepsHalve()
    ensures Halving(STEPS)
  {
  }

  // Rotations by halving steps add up to any angle of the first quadrant within
  // one unit.
  lemma {:induction false} RotationsReach(steps: seq<int>, folded: int)
    requires Halving(steps) && 0 <= folded <= QUARTER
    ensures Abs(folded - Reached(steps, 0, folded, 0)) <= 1
  {
    StepsReach(steps, 1, folded, steps[0]);
  }

  // ---------- symmetries ----------

  // What the symmetries need of the first quadrant.
  ghost predicate Ends(first: Quarter) { first(0) == (0, 0x4000) && first(QUARTER) == (0x4000, 0) }

  lemma OddOrEven(first: Quarter, n: int)
    requires Ends(first) && -HALF <= n <= HALF
    ensures Quadrants(first, -n) == (-Quadrants(first, n).0, Quadrants(first, n).1)
  {
  }

  // Half a turn changes both signs.
  lemma HalfTurnNegates(first: Quarter, n: int, m: int)
    requires Ends(first) && -HALF <= n <= 0 && m == n + HALF
    ensures Quadrants(first, m) == (-Quadrants(first, n).0, -Quadrants(first, n).1)
  {
  }

  lemma NormalizedIs(angle: int)
    requires -HALF <= angle <= HALF
    ensures Normalized(angle) == angle
  {
  }

  lemma FirstQuadrantEnds()
    ensures Ends(FirstQuadrant)
  {
  }

  // The sine is odd and the cosine even.
  lemma OddAndEven(angle: int)
    requires -HALF <= angle <= HALF
    ensures SinCos(-angle) == (-SinCos(angle).0, SinCos(angle).1)
  {
    NormalizedIs(angle);
    NormalizedIs(-angle);
    FirstQuadrantEnds();
    OddOrEven(FirstQuadrant, angle);
  }

  lemma SameRemainder(magnitude: nat)
    ensures (magnitude + PERIOD) % PERIOD == magnitude % PERIOD
  {
  }

  lemma {:induction false} NormalizedRepeats(angle: int)
    ensures Normalized(angle + PERIOD) == Normalized(angle)
         || (Normalized(angle + PERIOD) == HALF && Normalized(angle) == -HALF)
  {
    if angle >= 0 {
      SameRemainder(angle);
    } else if angle <= -PERIOD {
      SameRemainder(-angle - PERIOD);
    }
  }

  // A whole turn changes nothing.
  lemma WholeTurn(angle: int)
    ensures SinCos(angle + PERIOD) == SinCos(angle)
  {
    NormalizedRepeats(angle);
    FirstQuadrantEnds();
    OddOrEven(FirstQuadrant, HALF);
  }
}
