// A copy of a sample that was turned by quarter turns and shifted scores full
// marks.
module RigidCopies {
  import opened Words
  import opened Sizes
  import opened Arithmetic
  import opened Descriptor
  import opened TopK
  import opened Matcher
  import opened ScoreViews
  import Cordic

  // ---------- quarter turns ----------

  const QUARTER: int := Cordic.QUARTER

  // A point turned about the origin by q quarter turns, x toward y.
  function Turn(q: int, x: int, y: int): (int, int) {
    match q % 4
    case 0 => (x, y)
    case 1 => (-y, x)
    case 2 => (-x, -y)
    case _ => (y, -x)
  }

  // Sine and cosine of q quarter turns.
  function SinCosOf(q: int): (int, int) {
    match q % 4
    case 0 => (0, 16384)
    case 1 => (16384, 0)
    case 2 => (0, -16384)
    case _ => (-16384, 0)
  }

  // A record turned by q quarter turns and then shifted; angles count modulo a
  // whole turn.
  ghost predicate IsTurned(t: Record, p: Record, q: int, dx: int, dy: int) {
    && (p.x as int, p.y as int) == (Turn(q, t.x, t.y).0 + dx, Turn(q, t.x, t.y).1 + dy)
    && (p.angle as int - t.angle as int - QUARTER * q) % ANGLE_PERIOD == 0
    && p.classValue == t.classValue && p.descriptor == t.descriptor
  }

  ghost predicate TurnedCopy(ts: seq<Record>, ps: seq<Record>, q: int, dx: int, dy: int) {
    |ps| == |ts| && forall i :: 0 <= i < |ts| ==> IsTurned(ts[i], ps[i], q, dx, dy)
  }

  // The same without a turn.
  ghost predicate TranslatedCopy(ts: seq<Record>, ps: seq<Record>, dx: int, dy: int) {
    && |ps| == |ts|
    && forall i :: 0 <= i < |ts| ==>
         && ps[i].x as int == ts[i].x as int + dx && ps[i].y as int == ts[i].y as int + dy
         && ps[i] == ts[i].(x := ps[i].x, y := ps[i].y)
  }

  lemma TranslatedIsTurned(ts: seq<Record>, ps: seq<Record>, dx: int, dy: int)
    requires TranslatedCopy(ts, ps, dx, dy)
    ensures TurnedCopy(ts, ps, 0, dx, dy)
  {
  }

  // A motion by q quarter turns carries every record of such a copy onto its
  // own image.
  lemma ExpectedUnderTurn(m: Motion, t: Record, q: int)
    requires (m.sine, m.cosine) == SinCosOf(q)
    ensures var (x, y) := Turn(q, t.x as int - m.template.x as int, t.y as int - m.template.y as int);
            Expected(m, t) == (m.probe.x as int + x, m.probe.y as int + y)
  {
    var rx, ry := t.x as int - m.template.x as int, t.y as int - m.template.y as int;
    if q % 4 == 0 {
      assert rx * m.cosine - ry * m.sine == rx * 16384 && rx * m.sine + ry * m.cosine == ry * 16384;
    } else if q % 4 == 1 {
      assert rx * m.cosine - ry * m.sine == -ry * 16384 && rx * m.sine + ry * m.cosine == rx * 16384;
    } else if q % 4 == 2 {
      assert rx * m.cosine - ry * m.sine == -rx * 16384 && rx * m.sine + ry * m.cosine == -ry * 16384;
    } else {
      assert rx * m.cosine - ry * m.sine == ry * 16384 && rx * m.sine + ry * m.cosine == -rx * 16384;
    }
  }

  lemma TurnIsLinear(q: int, x: int, y: int, x': int, y': int)
    ensures Turn(q, x - x', y - y') == (Turn(q, x, y).0 - Turn(q, x', y').0, Turn(q, x, y).1 - Turn(q, x', y').1)
  {
  }

  // Angles that differ by whole turns normalise alike.
  lemma {:induction false} MultiplesNormalise(angle: int)
    requires angle % ANGLE_PERIOD == 0
    ensures NormalizeAngle(angle) == 0
  {
    var turns := NormalizedTurns(angle);
    var k := angle / ANGLE_PERIOD;
    assert NormalizeAngle(angle) == (k - turns) * ANGLE_PERIOD;
  }

  // The normalised difference of the angles is one of five multiples of a
  // quarter turn.
  lemma QuarterAngle(angle: int, q: int) returns (r: int)
    requires (angle - QUARTER * q) % ANGLE_PERIOD == 0
    ensures -2 <= r <= 2 && NormalizeAngle(angle) == QUARTER * r && r % 4 == q % 4
  {
    var turns := NormalizedTurns(angle);
    var k := (angle - QUARTER * q) / ANGLE_PERIOD;
    r := q + 4 * (k - turns);
    assert NormalizeAngle(angle) == QUARTER * r;
  }

  // The turn is exact at quarter turns.
  ghost predicate ExactQuarters(env: Env) {
    forall r :: -2 <= r <= 2 ==> env.trig(QUARTER * r) == SinCosOf(r)
  }

  // The motion takes every record to its image, angles included.
  ghost predicate Carries(m: Motion, ts: seq<Record>, ps: seq<Record>)
    requires |ts| == |ps|
  {
    forall i :: 0 <= i < |ts| ==>
        Expected(m, ts[i]) == (ps[i].x as int, ps[i].y as int) && AngleError(m, ts[i], ps[i]) == 0
  }

  ghost predicate Alike(ts: seq<Record>, ps: seq<Record>) {
    && |ps| == |ts|
    && forall i :: 0 <= i < |ts| ==> ps[i].descriptor == ts[i].descriptor && ps[i].classValue == ts[i].classValue
  }

  lemma DifferenceOfTurned(a: int, q: int, delta: int, angle: int)
    requires (a - QUARTER * q) % ANGLE_PERIOD == 0 && (angle - QUARTER * q) % ANGLE_PERIOD == 0
    requires delta == NormalizeAngle(angle)
    ensures NormalizeAngle(a - delta) == 0
  {
    var turns := NormalizedTurns(angle);
    var k, l := (a - QUARTER * q) / ANGLE_PERIOD, (angle - QUARTER * q) / ANGLE_PERIOD;
    assert a - delta == (k - l + turns) * ANGLE_PERIOD;
    MultipleOfPeriod(k - l + turns);
    MultiplesNormalise(a - delta);
  }

  lemma MultipleOfPeriod(k: int)
    ensures k * ANGLE_PERIOD % ANGLE_PERIOD == 0
  {
  }

  // Records whose descriptors the distance tells apart.
  ghost predicate DistinctDescriptors(env: Env, ts: seq<Record>) {
    forall i, j :: 0 <= i < |ts| && 0 <= j < |ts| ==>
      (env.distance(ts[i].descriptor, ts[j].descriptor) == 0 <==> i == j)
  }

  // A record and its image agree perfectly.
  lemma OwnProbe(env: Env, c: Config, m: Motion, ts: seq<Record>, ps: seq<Record>, t: nat)
    requires Alike(ts, ps) && Carries(m, ts, ps) && t < |ts|
    requires env.distance(ts[t].descriptor, ts[t].descriptor) == 0 && c.Valid()
    ensures Admissible(env, c, m, ts[t], ps[t])
    ensures PairUp(env, c, m, ts, ps, t, t) == Pairing(t, t, Q16_ONE, Q16_ONE, Q16_ONE)
  {
    assert DistanceSquared(m, ts[t], ps[t]) == 0;
    assert AngleError(m, ts[t], ps[t]) == 0;
    assert Square(c.positionRadius) > 0;
  }

  lemma RatioBelowOne(n: nat)
    requires n < DESCRIPTOR_BITS
    ensures Ratio(n, DESCRIPTOR_BITS) < Q16_ONE
  {
    RatioBound(n, DESCRIPTOR_BITS);
  }

  // Any other probe record is a strictly worse partner.
  lemma OtherProbe(env: Env, c: Config, m: Motion, ts: seq<Record>, ps: seq<Record>, t: nat, p: nat)
    requires Alike(ts, ps) && DistinctDescriptors(env, ts) && t < |ts| && p < |ps| && p != t
    ensures PairUp(env, c, m, ts, ps, t, p).Score() < Q16_ONE
  {
    assert env.distance(ts[t].descriptor, ts[p].descriptor) != 0;
    RatioBelowOne(Max(DESCRIPTOR_BITS - env.distance(ts[t].descriptor, ps[p].descriptor), 0));
  }

  function Full(t: nat): Pairing { Pairing(t, t, Q16_ONE, Q16_ONE, Q16_ONE) }

  function AllFull(n: nat): (r: seq<Pairing>)
    ensures |r| == n
  {
    if n == 0 then [] else AllFull(n - 1) + [Full(n - 1)]
  }

  lemma {:induction false} FullProbes(n: nat)
    ensures forall q :: q in AllFull(n) ==> q.probe < n
  {
    if n > 0 { FullProbes(n - 1); }
  }

  lemma {:induction false} NotYetUsed(n: nat)
    ensures n !in ProbesOf(AllFull(n))
  {
    FullProbes(n);
  }

  // What the lemmas below assume of the two samples and the motion.
  ghost predicate Setting(env: Env, c: Config, m: Motion, ts: seq<Record>, ps: seq<Record>) {
    c.Valid() && Alike(ts, ps) && DistinctDescriptors(env, ts) && Carries(m, ts, ps)
  }

  lemma {:induction false} BeforeOwnProbe(env: Env, c: Config, m: Motion, ts: seq<Record>, ps: seq<Record>,
                                          t: nat, used: set<nat>, n: nat)
    requires Setting(env, c, m, ts, ps) && n <= t < |ts|
    ensures ScoreOf(BestProbe(env, c, m, ts, ps, t, used, n)) < Q16_ONE
    decreases n
  {
    if n > 0 {
      BeforeOwnProbe(env, c, m, ts, ps, t, used, n - 1);
      OtherProbe(env, c, m, ts, ps, t, n - 1);
    }
  }

  // Once its own probe record is reached nothing displaces it.
  lemma {:induction false} ChoosesOwnProbe(env: Env, c: Config, m: Motion, ts: seq<Record>, ps: seq<Record>,
                                           t: nat, used: set<nat>, n: nat)
    requires Setting(env, c, m, ts, ps) && t < n <= |ts| && t !in used
    ensures BestProbe(env, c, m, ts, ps, t, used, n) == Some(Full(t))
    decreases n
  {
    if n == t + 1 {
      BeforeOwnProbe(env, c, m, ts, ps, t, used, t);
      OwnProbe(env, c, m, ts, ps, t);
    } else {
      ChoosesOwnProbe(env, c, m, ts, ps, t, used, n - 1);
      OtherProbe(env, c, m, ts, ps, t, n - 1);
    }
  }

  lemma {:induction false} GreedyIsFull(env: Env, c: Config, m: Motion, ts: seq<Record>, ps: seq<Record>, n: nat)
    requires Setting(env, c, m, ts, ps) && n <= |ts|
    ensures Greedy(env, c, m, ts, ps, n) == AllFull(n)
    decreases n
  {
    if n > 0 {
      GreedyIsFull(env, c, m, ts, ps, n - 1);
      NextIsFull(env, c, m, ts, ps, n - 1);
      GreedyStep(env, c, m, ts, ps, n);
    }
  }

  lemma {:induction false} NextIsFull(env: Env, c: Config, m: Motion, ts: seq<Record>, ps: seq<Record>, n: nat)
    requires Setting(env, c, m, ts, ps) && n < |ts|
    ensures BestProbe(env, c, m, ts, ps, n, ProbesOf(AllFull(n)), |ps|) == Some(Full(n))
  {
    NotYetUsed(n);
    ChoosesOwnProbe(env, c, m, ts, ps, n, ProbesOf(AllFull(n)), |ts|);
  }

  lemma GreedyStep(env: Env, c: Config, m: Motion, ts: seq<Record>, ps: seq<Record>, n: nat)
    requires 0 < n <= |ts| && Greedy(env, c, m, ts, ps, n - 1) == AllFull(n - 1)
    requires BestProbe(env, c, m, ts, ps, n - 1, ProbesOf(AllFull(n - 1)), |ps|) == Some(Full(n - 1))
    ensures Greedy(env, c, m, ts, ps, n) == AllFull(n)
  {
    assert AllFull(n) == AllFull(n - 1) + [Full(n - 1)];
  }

  lemma {:induction false} SumOfFull(f: Component, n: nat)
    requires forall t :: f(Full(t)) == Q16_ONE
    ensures Sum(f, AllFull(n)) == Q16_ONE * n
    decreases n
  {
    if n > 0 {
      SumOfFull(f, n - 1);
      assert AllFull(n)[..n - 1] == AllFull(n - 1);
    }
  }

  lemma Quotient(a: nat, n: nat)
    requires n > 0
    ensures a * n / n == a
  {
    QuotientIs(a * n, n, a, 0);
  }

  lemma {:induction false} MeanOfFull(f: Component, n: nat)
    requires n > 0 && forall t :: f(Full(t)) == Q16_ONE
    ensures Sum(f, AllFull(n)) / n == Q16_ONE
  {
    SumOfFull(f, n);
    Quotient(Q16_ONE, n);
  }

  lemma {:induction false} SummaryOfFull(c: Config, n: nat)
    requires c.Valid() && n >= c.minimumMatchedPairs
    ensures Summarize(c, AllFull(n), n, n) == Hypothesis(Q16_ONE, n, Q16_ONE, Q16_ONE, Q16_ONE, Q16_ONE)
  {
    MeanOfFull(DescriptorPart, n);
    MeanOfFull(SpatialPart, n);
    MeanOfFull(AnglePart, n);
  }

  lemma OwnMotion(env: Env, ts: seq<Record>, ps: seq<Record>, t: nat, q: int, dx: int, dy: int)
    requires ExactQuarters(env) && TurnedCopy(ts, ps, q, dx, dy) && t < |ts|
    ensures Carries(MotionOf(env, ts[t], ps[t]), ts, ps)
  {
    var m := MotionOf(env, ts[t], ps[t]);
    assert IsTurned(ts[t], ps[t], q, dx, dy);
    var r := QuarterAngle(ps[t].angle as int - ts[t].angle as int, q);
    assert (m.sine, m.cosine) == SinCosOf(q);
    forall i | 0 <= i < |ts|
      ensures Expected(m, ts[i]) == (ps[i].x as int, ps[i].y as int) && AngleError(m, ts[i], ps[i]) == 0
    {
      OneCarried(m, ts[t], ps[t], ts[i], ps[i], q, dx, dy);
    }
  }

  lemma OneCarried(m: Motion, t0: Record, p0: Record, t: Record, p: Record, q: int, dx: int, dy: int)
    requires IsTurned(t0, p0, q, dx, dy) && IsTurned(t, p, q, dx, dy)
    requires m.template == t0 && m.probe == p0 && (m.sine, m.cosine) == SinCosOf(q)
    requires m.delta == NormalizeAngle(p0.angle as int - t0.angle as int)
    ensures Expected(m, t) == (p.x as int, p.y as int) && AngleError(m, t, p) == 0
  {
    ExpectedUnderTurn(m, t, q);
    TurnIsLinear(q, t.x, t.y, t0.x, t0.y);
    DifferenceOfTurned(p.angle as int - t.angle as int, q, m.delta, p0.angle as int - t0.angle as int);
  }

  // Seeding with a record and its image pairs every record with its own.
  lemma OwnSeedIsFull(env: Env, c: Config, ts: seq<Record>, ps: seq<Record>, t: nat, q: int, dx: int, dy: int)
    requires c.Valid() && TurnedCopy(ts, ps, q, dx, dy) && DistinctDescriptors(env, ts) && ExactQuarters(env)
    requires t < |ts| && |ts| >= c.minimumMatchedPairs
    ensures Evaluate(env, c, ts, ps, t, t) == Hypothesis(Q16_ONE, |ts|, Q16_ONE, Q16_ONE, Q16_ONE, Q16_ONE)
  {
    OwnMotion(env, ts, ps, t, q, dx, dy);
    GreedyIsFull(env, c, MotionOf(env, ts[t], ps[t]), ts, ps, |ts|);
    SummaryOfFull(c, |ts|);
  }

  lemma {:induction false} FirstRowSeed(env: Env, c: Config, ts: seq<Record>, ps: seq<Record>, n: nat)
    requires |ts| > 0 && 0 < n <= |ps| && env.distance(ts[0].descriptor, ps[0].descriptor) == 0
    ensures Seed(0, 0, 0) in RowSeeds(env, c, ts, ps, 0, n)
    decreases n
  {
    if n > 1 { FirstRowSeed(env, c, ts, ps, n - 1); }
  }

  lemma {:induction false} FirstSeed(env: Env, c: Config, ts: seq<Record>, ps: seq<Record>, n: nat)
    requires 0 < n <= |ts| && |ps| > 0 && env.distance(ts[0].descriptor, ps[0].descriptor) == 0
    ensures Seed(0, 0, 0) in AllSeeds(env, c, ts, ps, n)
    decreases n
  {
    if n > 1 { FirstSeed(env, c, ts, ps, n - 1); } else { FirstRowSeed(env, c, ts, ps, |ps|); }
  }

  // The first seed kept pairs some record with its image.
  lemma HeadSeedIsOwn(env: Env, c: Config, ts: seq<Record>, ps: seq<Record>)
    requires c.Valid() && Alike(ts, ps) && DistinctDescriptors(env, ts) && |ts| > 0
    ensures Seeds(env, c, ts, ps) != []
    ensures var s := Seeds(env, c, ts, ps)[0]; s.template == s.probe < |ts|
  {
    FirstSeed(env, c, ts, ps, |ts|);
    HeadIsLeast(SeedKey, AllSeeds(env, c, ts, ps, |ts|), c.maximumSeedPairs, Seed(0, 0, 0));
    SeedsOk(env, c, ts, ps);
    var s := Seeds(env, c, ts, ps)[0];
    assert s in Seeds(env, c, ts, ps);
    assert ps[s.probe].descriptor == ts[s.probe].descriptor;
  }

  // The whole sample scored against its turned and shifted copy: full marks and
  // all records matched.
  lemma TurnedCopyScoresFull(env: Env, c: Config, ts: seq<Record>, ps: seq<Record>, q: int, dx: int, dy: int)
    requires c.Valid() && TurnedCopy(ts, ps, q, dx, dy) && DistinctDescriptors(env, ts) && ExactQuarters(env)
    requires |ts| >= c.minimumMatchedPairs
    ensures Score(env, c, ts, ps).score == Q16_ONE && Score(env, c, ts, ps).matched == |ts|
  {
    HeadSeedIsOwn(env, c, ts, ps);
    var seeds := Seeds(env, c, ts, ps);
    OwnSeedIsFull(env, c, ts, ps, seeds[0].template, q, dx, dy);
    SeedsOk(env, c, ts, ps);
    BestBeatsAll(env, c, ts, ps, seeds, 0);
    BestWellScored(env, c, ts, ps, seeds);
  }

  // ---------- the matcher's own trigonometry and distance ----------

  function RecordDistance(left: Bytes, right: Bytes): nat {
    if |left| == |right| == DESCRIPTOR_BYTES then Hamming(left, right) else 0
  }

  const REAL: Env := Env(Cordic.SinCos, RecordDistance)

  // Sine and cosine are exact at the multiples of a quarter turn.
  lemma QuarterSinCos(r: int, angle: int)
    requires -2 <= r <= 2 && angle == QUARTER * r
    ensures Cordic.SinCos(angle) == SinCosOf(r)
  {
    assert Cordic.Normalized(angle) == angle;
    if r == 0 || r == 2 || r == -2 {
      FoldedZero(0);
    } else {
      FoldedQuarter(QUARTER);
    }
  }

  lemma FoldedZero(folded: int)
    requires folded == 0
    ensures Cordic.FirstQuadrant(folded) == (0, 16384)
  {
  }

  lemma FoldedQuarter(folded: int)
    requires folded == QUARTER
    ensures Cordic.FirstQuadrant(folded) == (16384, 0)
  {
  }

  lemma RealQuartersExact()
    ensures ExactQuarters(REAL)
  {
    forall r | -2 <= r <= 2 ensures REAL.trig(QUARTER * r) == SinCosOf(r) { QuarterSinCos(r, QUARTER * r); }
  }

  lemma PairwiseDifferent(ts: seq<Record>)
    requires forall i :: 0 <= i < |ts| ==> |ts[i].descriptor| == DESCRIPTOR_BYTES
    requires forall i, j :: 0 <= i < j < |ts| ==> ts[i].descriptor != ts[j].descriptor
    ensures DistinctDescriptors(REAL, ts)
  {
    forall i, j | 0 <= i < |ts| && 0 <= j < |ts|
      ensures REAL.distance(ts[i].descriptor, ts[j].descriptor) == 0 <==> i == j
    {
      HammingIsMetric(ts[i].descriptor, ts[j].descriptor);
    }
  }

  // For any valid configuration and any sample with pairwise different
  // descriptors and enough records, turned by any number of quarter turns.
  lemma TurnInvariance(c: Config, ts: seq<Record>, ps: seq<Record>, q: int, dx: int, dy: int)
    requires c.Valid() && TurnedCopy(ts, ps, q, dx, dy) && |ts| >= c.minimumMatchedPairs
    requires forall i :: 0 <= i < |ts| ==> |ts[i].descriptor| == DESCRIPTOR_BYTES
    requires forall i, j :: 0 <= i < j < |ts| ==> ts[i].descriptor != ts[j].descriptor
    ensures Score(REAL, c, ts, ps).score == Q16_ONE && Score(REAL, c, ts, ps).matched == |ts|
  {
    RealQuartersExact();
    PairwiseDifferent(ts);
    TurnedCopyScoresFull(REAL, c, ts, ps, q, dx, dy);
  }

  // In particular without a turn.
  lemma TranslationInvariance(c: Config, ts: seq<Record>, ps: seq<Record>, dx: int, dy: int)
    requires c.Valid() && TranslatedCopy(ts, ps, dx, dy) && |ts| >= c.minimumMatchedPairs
    requires forall i :: 0 <= i < |ts| ==> |ts[i].descriptor| == DESCRIPTOR_BYTES
    requires forall i, j :: 0 <= i < j < |ts| ==> ts[i].descriptor != ts[j].descriptor
    ensures Score(REAL, c, ts, ps).score == Q16_ONE && Score(REAL, c, ts, ps).matched == |ts|
  {
    TranslatedIsTurned(ts, ps, dx, dy);
    TurnInvariance(c, ts, ps, 0, dx, dy);
  }
}
