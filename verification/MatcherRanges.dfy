// Why the matcher's 32- and 64-bit arithmetic is exact for every pair of
// records and every rotation.
module MatcherRanges {
  import opened Words
  import opened Sizes
  import opened Arithmetic
  import opened Matcher
  import opened RigidCopies

  const TRIG_LIMIT: nat := 0x8000

  ghost predicate Bounded(m: Motion) { Abs(m.sine) <= TRIG_LIMIT && Abs(m.cosine) <= TRIG_LIMIT }

  lemma RotationFits(rx: int, ry: int, a: int, b: int)
    requires Abs(rx) <= 0xffff && Abs(ry) <= 0xffff && Abs(a) <= TRIG_LIMIT && Abs(b) <= TRIG_LIMIT
    ensures Abs(rx * a) <= 0x7fff_8000 && Abs(ry * b) <= 0x7fff_8000
  {
    ProductBound(rx, a, 0xffff, TRIG_LIMIT);
    ProductBound(ry, b, 0xffff, TRIG_LIMIT);
  }

  lemma ShiftFits(x: int, y: int)
    requires Abs(x) <= 0x7fff_8000 && Abs(y) <= 0x7fff_8000
    ensures -262140 <= (x - y) / 16384 <= 262140 && -262140 <= (x + y) / 16384 <= 262140
  {
  }

  // Expected positions fit 32 bits with room to spare.
  lemma ExpectedFits(m: Motion, t: Record)
    requires Bounded(m)
    ensures -262140 <= Expected(m, t).0 <= 327675 && -262140 <= Expected(m, t).1 <= 327675
  {
    var rx, ry := t.x as int - m.template.x as int, t.y as int - m.template.y as int;
    RotationFits(rx, ry, m.cosine, m.sine);
    RotationFits(rx, ry, m.sine, m.cosine);
    ShiftFits(rx * m.cosine, ry * m.sine);
    ShiftFits(rx * m.sine, ry * m.cosine);
  }

  lemma SquareFits(d: int)
    requires Abs(d) <= 393_210
    ensures Square(d) <= 393_210 * 393_210
  {
    ProductBound(d, d, 393_210, 393_210);
  }

  // The Q16 ratio of a squared distance never wraps 64 bits.
  lemma RatioDoesNotWrap(m: Motion, t: Record, p: Record)
    requires Bounded(m)
    ensures DistanceSquared(m, t, p) * Q16_ONE < 0x1_0000_0000_0000_0000
  {
    ExpectedFits(m, t);
    var (ex, ey) := Expected(m, t);
    SquareFits(p.x as int - ex);
    SquareFits(p.y as int - ey);
  }

  // The matcher's own rotations are within the limit, so both results hold for
  // every seed pair.
  lemma RealMotionBounded(a: Record, b: Record)
    ensures Bounded(MotionOf(REAL, a, b))
  {
  }

  lemma EverySeedFits(a: Record, b: Record, t: Record, p: Record)
    ensures var m := MotionOf(REAL, a, b);
            && -262140 <= Expected(m, t).0 <= 327675 && -262140 <= Expected(m, t).1 <= 327675
            && DistanceSquared(m, t, p) * Q16_ONE < 0x1_0000_0000_0000_0000
  {
    RealMotionBounded(a, b);
    ExpectedFits(MotionOf(REAL, a, b), t);
    RatioDoesNotWrap(MotionOf(REAL, a, b), t, p);
  }
}
