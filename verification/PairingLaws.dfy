// What the matcher pairs, in terms of where records lie: its gates, the weight
// of each similarity, which probe record and which seed win, and which seeds
// there are.
module PairingLaws {
  import opened Words
  import opened Sizes
  import opened Arithmetic
  import opened TopK
  import opened Matcher
  import opened ScoreViews
  import opened RigidCopies

  // ---------- gates and similarities of a displaced record ----------

  // A motion by q quarter turns.
  ghost predicate Quarters(m: Motion, q: int) {
    (m.sine, m.cosine) == SinCosOf(q) && m.delta == NormalizeAngle(m.probe.angle as int - m.template.angle as int)
  }

  // A probe record off the image of a template record by (a, b), and turned
  // too far by e.
  ghost predicate Displaced(m: Motion, q: int, t: Record, p: Record, a: int, b: int, e: int) {
    var (x, y) := Turn(q, t.x as int - m.template.x as int, t.y as int - m.template.y as int);
    && p.x as int == m.probe.x as int + x + a && p.y as int == m.probe.y as int + y + b
    && (p.angle as int - t.angle as int - (m.probe.angle as int - m.template.angle as int) - e) % ANGLE_PERIOD == 0
    && -ANGLE_HALF < e < ANGLE_HALF
  }

  // Nothing but whole turns separates an angle from its normal form.
  lemma {:induction false} NormalFormIs(angle: int, e: int)
    requires (angle - e) % ANGLE_PERIOD == 0 && -ANGLE_HALF < e < ANGLE_HALF
    ensures NormalizeAngle(angle) == e
  {
    var turns := NormalizedTurns(angle);
    var k := (angle - e) / ANGLE_PERIOD;
    assert NormalizeAngle(angle) - e == (k - turns) * ANGLE_PERIOD;
  }

  lemma TurnsAdd(angle: int, seed: int, e: int)
    requires (angle - seed - e) % ANGLE_PERIOD == 0 && -ANGLE_HALF < e < ANGLE_HALF
    ensures NormalizeAngle(angle - NormalizeAngle(seed)) == e
  {
    var turns := NormalizedTurns(seed);
    var k := (angle - seed - e) / ANGLE_PERIOD;
    assert angle - NormalizeAngle(seed) - e == (k + turns) * ANGLE_PERIOD;
    MultipleOfPeriod(k + turns);
    NormalFormIs(angle - NormalizeAngle(seed), e);
  }

  // The errors are the displacement and the excess of the turn.
  lemma ErrorsOfDisplaced(m: Motion, q: int, t: Record, p: Record, a: int, b: int, e: int)
    requires Quarters(m, q) && Displaced(m, q, t, p, a, b, e)
    ensures DistanceSquared(m, t, p) == Square(a) + Square(b) && AngleError(m, t, p) == Abs(e)
  {
    ExpectedUnderTurn(m, t, q);
    TurnsAdd(p.angle as int - t.angle as int, m.probe.angle as int - m.template.angle as int, e);
  }

  // A displaced record passes exactly within the circle, the angle tolerance and
  // the descriptor limit, all inclusive, if the classes agree.
  lemma PassesWithin(env: Env, c: Config, m: Motion, q: int, t: Record, p: Record, a: int, b: int, e: int)
    requires Quarters(m, q) && Displaced(m, q, t, p, a, b, e)
    ensures Admissible(env, c, m, t, p) <==>
            && a * a + b * b <= c.positionRadius * c.positionRadius && Abs(e) <= c.angleTolerance
            && env.distance(t.descriptor, p.descriptor) <= c.maximumHamming
            && ((t.classValue - p.classValue) % 0x100 == 0 || t.classValue == 0 || p.classValue == 0)
  {
    ErrorsOfDisplaced(m, q, t, p, a, b, e);
    SameLowByte(t.classValue, p.classValue);
  }

  lemma SameLowByte(x: u32, y: u32)
    ensures x % 0x100 == y % 0x100 <==> (x as int - y as int) % 0x100 == 0
  {
  }

  lemma RatioOfQuarters(numerator: nat, denominator: nat, k: nat)
    requires denominator > 0 && 4 * numerator == k * denominator && k <= 4
    ensures Ratio(numerator, denominator) == 0x4000 * k
  {
    if k < 4 {
      assert k * denominator < 4 * denominator;
      assert numerator * Q16_ONE == 0x4000 * (k * denominator) == denominator * (0x4000 * k);
      QuotientIs(numerator * Q16_ONE, denominator, 0x4000 * k, 0);
    } else {
      assert k * denominator == 4 * denominator;
    }
  }

  // Each similarity falls linearly from one to zero: over the 160 bits of the
  // descriptors, the square of the displacement and the excess angle.
  lemma SimilaritiesFall(env: Env, c: Config, m: Motion, ts: seq<Record>, ps: seq<Record>, t: nat, p: nat,
                         q: int, a: int, b: int, e: int, d: nat, s: nat, w: nat)
    requires c.Valid() && t < |ts| && p < |ps| && d <= 4 && s <= 4 && w <= 4
    requires Quarters(m, q) && Displaced(m, q, ts[t], ps[p], a, b, e)
    requires env.distance(ts[t].descriptor, ps[p].descriptor) == 40 * d
    requires 4 * (a * a + b * b) == s * Square(c.positionRadius)
    requires 4 * Abs(e) == w * c.angleTolerance
    ensures PairUp(env, c, m, ts, ps, t, p)
         == Pairing(t, p, Q16_ONE - 0x4000 * d, Q16_ONE - 0x4000 * s, Q16_ONE - 0x4000 * w)
  {
    ErrorsOfDisplaced(m, q, ts[t], ps[p], a, b, e);
    RadiusPositive(c.positionRadius);
    RatioOfQuarters(160 - 40 * d, 160, 4 - d);
    RatioOfQuarters(DistanceSquared(m, ts[t], ps[p]), Square(c.positionRadius), s);
    RatioOfQuarters(Abs(e), c.angleTolerance, w);
  }

  lemma RadiusPositive(r: nat)
    requires r > 0
    ensures Square(r) > 0
  {
    assert r * r >= r;
  }

  // The descriptor weighs seven tenths of a pair, the place two and the angle
  // one; of a hypothesis the descriptors weigh 65 hundredths, the places 15, the
  // angles 10 and the share of records matched 10.
  lemma WeightsOfParts()
    ensures Pairing(0, 0, Q16_ONE, 0, 0).Score() == Q16_ONE * 7 / 10
    ensures Pairing(0, 0, 0, Q16_ONE, 0).Score() == Q16_ONE * 2 / 10
    ensures Pairing(0, 0, 0, 0, Q16_ONE).Score() == Q16_ONE / 10
    ensures Pairing(0, 0, Q16_ONE, Q16_ONE, Q16_ONE).Score() == Q16_ONE
    ensures Blend(Q16_ONE, 0, 0, 0) == Q16_ONE / 10 == Blend(0, 0, 0, Q16_ONE)
    ensures Blend(0, Q16_ONE, 0, 0) == Q16_ONE * 65 / 100
    ensures Blend(0, 0, Q16_ONE, 0) == Q16_ONE * 15 / 100
    ensures Blend(Q16_ONE, Q16_ONE, Q16_ONE, Q16_ONE) == Q16_ONE
  {
  }

  lemma {:induction false} SumOfEqual(f: Component, pairs: seq<Pairing>, v: nat)
    requires forall q :: q in pairs ==> f(q) == v
    ensures Sum(f, pairs) == v * |pairs|
    decreases |pairs|
  {
    if pairs != [] {
      assert pairs[|pairs| - 1] in pairs;
      SumOfEqual(f, pairs[..|pairs| - 1], v);
    }
  }

  lemma {:induction false} MeanOfEqual(f: Component, pairs: seq<Pairing>, v: nat)
    requires pairs != [] && forall q :: q in pairs ==> f(q) == v
    ensures Sum(f, pairs) / |pairs| == v
  {
    SumOfEqual(f, pairs, v);
    QuotientIs(Sum(f, pairs), |pairs|, v, 0);
  }

  // Pairs that all agree equally well make a hypothesis with their similarities;
  // the records matched are counted against the smaller side.
  lemma {:induction false} HypothesisOfEqual(c: Config, pairs: seq<Pairing>, templateCount: nat, probeCount: nat,
                                             d: nat, s: nat, a: nat, k: nat)
    requires forall q :: q in pairs ==> q.descriptor == d && q.spatial == s && q.angle == a
    requires 0 < c.minimumMatchedPairs <= |pairs| && k <= 4
    requires 4 * |pairs| == k * templateCount && templateCount <= probeCount
    ensures Summarize(c, pairs, templateCount, probeCount)
         == Hypothesis(Blend(0x4000 * k, d, s, a), |pairs|, 0x4000 * k, d, s, a)
         == Summarize(c, pairs, probeCount, templateCount)
  {
    MeanOfEqual(DescriptorPart, pairs, d);
    MeanOfEqual(SpatialPart, pairs, s);
    MeanOfEqual(AnglePart, pairs, a);
    RatioOfQuarters(|pairs|, templateCount, k);
  }

  // ---------- the probe record chosen ----------

  // An open probe record with a positive pair score.
  ghost predicate Candidate(env: Env, c: Config, m: Motion, ts: seq<Record>, ps: seq<Record>, t: nat, used: set<nat>,
                            p: nat)
    requires t < |ts|
  {
    && p < |ps| && p !in used && Admissible(env, c, m, ts[t], ps[p]) && PairUp(env, c, m, ts, ps, t, p).Score() > 0
  }

  // The pair is that of the first candidate with the highest score.
  ghost predicate FirstBest(env: Env, c: Config, m: Motion, ts: seq<Record>, ps: seq<Record>, t: nat, used: set<nat>,
                            n: nat, b: Option<Pairing>)
    requires t < |ts| && n <= |ps|
  {
    match b
    case None => forall p: nat :: p < n ==> !Candidate(env, c, m, ts, ps, t, used, p)
    case Some(best) =>
      && best.probe < n && Candidate(env, c, m, ts, ps, t, used, best.probe)
      && best == PairUp(env, c, m, ts, ps, t, best.probe)
      && forall p: nat :: p < n && Candidate(env, c, m, ts, ps, t, used, p) ==>
           && PairUp(env, c, m, ts, ps, t, p).Score() <= best.Score()
           && (p < best.probe ==> PairUp(env, c, m, ts, ps, t, p).Score() < best.Score())
  }

  lemma {:induction false} ChosenIsFirstBest(env: Env, c: Config, m: Motion, ts: seq<Record>, ps: seq<Record>, t: nat,
                                             used: set<nat>, n: nat)
    requires t < |ts| && n <= |ps|
    ensures FirstBest(env, c, m, ts, ps, t, used, n, BestProbe(env, c, m, ts, ps, t, used, n))
    decreases n
  {
    if n > 0 { ChosenIsFirstBest(env, c, m, ts, ps, t, used, n - 1); }
  }

  // ---------- the seeds ----------

  // Seeds come in order of the template records, then of the probe records.
  predicate Earlier(a: Seed, b: Seed) { a.template < b.template || (a.template == b.template && a.probe < b.probe) }

  ghost predicate InOrder(seeds: seq<Seed>) { forall i, j :: 0 <= i < j < |seeds| ==> Earlier(seeds[i], seeds[j]) }

  lemma {:induction false} RowInOrder(env: Env, c: Config, ts: seq<Record>, ps: seq<Record>, t: nat, n: nat)
    requires t < |ts| && n <= |ps|
    ensures InOrder(RowSeeds(env, c, ts, ps, t, n))
    ensures forall s :: s in RowSeeds(env, c, ts, ps, t, n) ==> s.template == t && s.probe < n
    decreases n
  {
    if n > 0 { RowInOrder(env, c, ts, ps, t, n - 1); }
  }

  lemma JoinInOrder(x: seq<Seed>, y: seq<Seed>)
    requires InOrder(x) && InOrder(y) && forall a, b :: a in x && b in y ==> Earlier(a, b)
    ensures InOrder(x + y)
  {
    forall i, j | 0 <= i < j < |x + y| ensures Earlier((x + y)[i], (x + y)[j]) {
      if i < |x| <= j { assert x[i] in x && y[j - |x|] in y; }
    }
  }

  lemma {:induction false} SeedsInOrder(env: Env, c: Config, ts: seq<Record>, ps: seq<Record>, n: nat)
    requires n <= |ts|
    ensures InOrder(AllSeeds(env, c, ts, ps, n))
    ensures forall s :: s in AllSeeds(env, c, ts, ps, n) ==> s.template < n
    decreases n
  {
    if n > 0 {
      SeedsInOrder(env, c, ts, ps, n - 1);
      RowInOrder(env, c, ts, ps, n - 1, |ps|);
      JoinInOrder(AllSeeds(env, c, ts, ps, n - 1), RowSeeds(env, c, ts, ps, n - 1, |ps|));
    }
  }

  lemma {:induction false} RowSeedsAre(env: Env, c: Config, ts: seq<Record>, ps: seq<Record>, t: nat, n: nat, p: nat)
    requires t < |ts| && p < n <= |ps|
    ensures var h := env.distance(ts[t].descriptor, ps[p].descriptor);
            h <= c.maximumHamming ==> Seed(t, p, h) in RowSeeds(env, c, ts, ps, t, n)
    decreases n
  {
    if p < n - 1 { RowSeedsAre(env, c, ts, ps, t, n - 1, p); }
  }

  lemma {:induction false} EverySeed(env: Env, c: Config, ts: seq<Record>, ps: seq<Record>, n: nat, t: nat, p: nat)
    requires t < n <= |ts| && p < |ps|
    ensures var h := env.distance(ts[t].descriptor, ps[p].descriptor);
            h <= c.maximumHamming ==> Seed(t, p, h) in AllSeeds(env, c, ts, ps, n)
    decreases n
  {
    if t < n - 1 { EverySeed(env, c, ts, ps, n - 1, t, p); } else { RowSeedsAre(env, c, ts, ps, t, |ps|, p); }
  }

  // Every pair of records within the descriptor limit is a seed, and nothing
  // else is; seeds are listed in order.
  lemma {:induction false} SeedsAreExactly(env: Env, c: Config, ts: seq<Record>, ps: seq<Record>, s: Seed)
    ensures s in AllSeeds(env, c, ts, ps, |ts|) <==> SeedOk(env, c, ts, ps, s)
    ensures InOrder(AllSeeds(env, c, ts, ps, |ts|))
  {
    SeedsInOrder(env, c, ts, ps, |ts|);
    AllSeedsOk(env, c, ts, ps, |ts|);
    if SeedOk(env, c, ts, ps, s) { EverySeed(env, c, ts, ps, |ts|, s.template, s.probe); }
  }

  // ---------- the hypothesis reported ----------

  // The reported hypothesis is that of the first seed that no other beats, or
  // the empty one when no seed beats that.
  ghost predicate FirstBestSeed(env: Env, c: Config, ts: seq<Record>, ps: seq<Record>, seeds: seq<Seed>, h: Hypothesis)
    requires forall s :: s in seeds ==> s.template < |ts| && s.probe < |ps|
  {
    || h == NOTHING
    || exists i :: 0 <= i < |seeds| && BeatsEarlier(env, c, ts, ps, seeds, i, h)
  }

  ghost predicate BeatsEarlier(env: Env, c: Config, ts: seq<Record>, ps: seq<Record>, seeds: seq<Seed>, i: nat,
                               h: Hypothesis)
    requires forall s :: s in seeds ==> s.template < |ts| && s.probe < |ps|
    requires i < |seeds|
  {
    && seeds[i] in seeds && h == Evaluate(env, c, ts, ps, seeds[i].template, seeds[i].probe)
    && forall j :: 0 <= j < i ==>
         seeds[j] in seeds && Better(h, Evaluate(env, c, ts, ps, seeds[j].template, seeds[j].probe))
  }

  lemma BetterChain(a: Hypothesis, b: Hypothesis, d: Hypothesis)
    requires Better(a, b) && !Better(d, b)
    ensures Better(a, d)
  {
  }

  lemma {:induction false} ReportedIsFirstBest(env: Env, c: Config, ts: seq<Record>, ps: seq<Record>, seeds: seq<Seed>)
    requires forall s :: s in seeds ==> s.template < |ts| && s.probe < |ps|
    ensures FirstBestSeed(env, c, ts, ps, seeds, BestHypothesis(env, c, ts, ps, seeds))
    decreases |seeds|
  {
    if seeds != [] {
      var n := |seeds| - 1;
      ReportedIsFirstBest(env, c, ts, ps, seeds[..n]);
      assert seeds[n] in seeds;
      var best := BestHypothesis(env, c, ts, ps, seeds[..n]);
      var last := Evaluate(env, c, ts, ps, seeds[n].template, seeds[n].probe);
      if Better(last, best) {
        forall j | 0 <= j < n
          ensures seeds[j] in seeds && Better(last, Evaluate(env, c, ts, ps, seeds[j].template, seeds[j].probe))
        {
          assert seeds[..n][j] == seeds[j];
          BestBeatsAll(env, c, ts, ps, seeds[..n], j);
          BetterChain(last, best, Evaluate(env, c, ts, ps, seeds[j].template, seeds[j].probe));
        }
        assert BeatsEarlier(env, c, ts, ps, seeds, n, last);
      } else if best != NOTHING {
        var i :| 0 <= i < n && BeatsEarlier(env, c, ts, ps, seeds[..n], i, best);
        assert seeds[..n][i] == seeds[i];
        assert forall j :: 0 <= j < i ==> seeds[..n][j] == seeds[j];
        assert BeatsEarlier(env, c, ts, ps, seeds, i, best);
      }
    }
  }
}
