// Scoring one probe against one enrolled sample: seed pairs, greedy one-to-one
// pairing under gates, and Q16 component scores.
module Matcher {
  import opened Words
  import opened Sizes
  import opened Descriptor
  import opened TopK

  const ANGLE_PERIOD: int := 0x6488
  const ANGLE_HALF: int := 0x3244
  const MAX_SEEDS: nat := 256
  const DESCRIPTOR_BITS: nat := 160

  datatype Record = Record(x: u16, y: u16, angle: u16, classValue: u32, descriptor: Bytes)

  datatype Config = Config(
    maximumSeedPairs: u32, positionRadius: u32, angleTolerance: u32, maximumHamming: u32,
    minimumMatchedPairs: u32, consensusSamples: u32, threshold: u32) {
    predicate Valid() {
      && 0 < maximumSeedPairs <= MAX_SEEDS && 0 < positionRadius
      && 0 < angleTolerance <= ANGLE_HALF && maximumHamming <= DESCRIPTOR_BITS
      && 0 < minimumMatchedPairs <= MAX_RECORDS && 0 < consensusSamples <= 3 && threshold <= Q16_ONE
    }
  }

  // Sine and cosine in Q14, and the distance between descriptors.
  datatype Env = Env(trig: int -> (int, int), distance: (Bytes, Bytes) -> nat)

  function NormalizeAngle(angle: int): (r: int)
    ensures -ANGLE_HALF <= r <= ANGLE_HALF
    decreases Abs(angle)
  {
    if angle > ANGLE_HALF then NormalizeAngle(angle - ANGLE_PERIOD)
    else if angle < -ANGLE_HALF then NormalizeAngle(angle + ANGLE_PERIOD)
    else angle
  }

  // Normalising adds or removes whole turns.
  lemma NormalizedTurns(angle: int) returns (turns: int)
    ensures NormalizeAngle(angle) == angle - turns * ANGLE_PERIOD
    ensures -ANGLE_HALF <= NormalizeAngle(angle) <= ANGLE_HALF
    decreases Abs(angle)
  {
    turns := 0;
    if angle > ANGLE_HALF {
      var rest := NormalizedTurns(angle - ANGLE_PERIOD);
      turns := rest + 1;
    } else if angle < -ANGLE_HALF {
      var rest := NormalizedTurns(angle + ANGLE_PERIOD);
      turns := rest - 1;
    }
  }

  function Ratio(numerator: nat, denominator: nat): (q: nat)
    ensures q <= Q16_ONE
  {
    if denominator == 0 then 0
    else if numerator >= denominator then Q16_ONE
    else
      RatioBound(numerator, denominator);
      numerator * Q16_ONE / denominator
  }

  lemma RatioBound(a: nat, b: nat)
    requires a < b
    ensures a * Q16_ONE / b < Q16_ONE
  {
    assert a * Q16_ONE < Q16_ONE * b;
  }

  // The rigid motion that carries the seed's template record to its probe record.
  datatype Motion = Motion(template: Record, probe: Record, delta: int, sine: int, cosine: int)

  function MotionOf(env: Env, t: Record, p: Record): Motion {
    var delta := NormalizeAngle(p.angle as int - t.angle as int);
    var (sine, cosine) := env.trig(delta);
    Motion(t, p, delta, sine, cosine)
  }

  // Where a template record is expected; shifts are arithmetic.
  function Expected(m: Motion, t: Record): (int, int) {
    var rx, ry := t.x as int - m.template.x as int, t.y as int - m.template.y as int;
    (m.probe.x as int + (rx * m.cosine - ry * m.sine) / 16384,
     m.probe.y as int + (rx * m.sine + ry * m.cosine) / 16384)
  }

  function Square(v: int): (s: nat) { v * v }

  function DistanceSquared(m: Motion, t: Record, p: Record): nat {
    var (ex, ey) := Expected(m, t);
    Square(p.x as int - ex) + Square(p.y as int - ey)
  }

  function AngleError(m: Motion, t: Record, p: Record): nat {
    Abs(NormalizeAngle(p.angle as int - t.angle as int - m.delta))
  }

  // Class 0 matches any class; otherwise the low bytes must agree.
  predicate ClassesAgree(t: Record, p: Record) {
    t.classValue % 0x100 == p.classValue % 0x100 || t.classValue == 0 || p.classValue == 0
  }

  predicate Admissible(env: Env, c: Config, m: Motion, t: Record, p: Record) {
    && DistanceSquared(m, t, p) <= Square(c.positionRadius)
    && AngleError(m, t, p) <= c.angleTolerance
    && ClassesAgree(t, p)
    && env.distance(t.descriptor, p.descriptor) <= c.maximumHamming
  }

  // A probe record chosen for a template record, with its similarities.
  datatype Pairing = Pairing(template: nat, probe: nat, descriptor: nat, spatial: nat, angle: nat) {
    function Score(): nat { (descriptor * 7 + spatial * 2 + angle) / 10 }

    predicate InRange() { descriptor <= Q16_ONE && spatial <= Q16_ONE && angle <= Q16_ONE }
  }

  function PairUp(env: Env, c: Config, m: Motion, ts: seq<Record>, ps: seq<Record>, t: nat, p: nat): (r: Pairing)
    requires t < |ts| && p < |ps|
    ensures r.InRange() && r.template == t && r.probe == p
  {
    Pairing(t, p,
            Ratio(Max(DESCRIPTOR_BITS - env.distance(ts[t].descriptor, ps[p].descriptor), 0), DESCRIPTOR_BITS),
            Q16_ONE - Ratio(DistanceSquared(m, ts[t], ps[p]), Square(c.positionRadius)),
            Q16_ONE - Ratio(AngleError(m, ts[t], ps[p]), c.angleTolerance))
  }

  function ScoreOf(b: Option<Pairing>): nat { match b case None => 0 case Some(x) => x.Score() }

  // The best unused probe among the first n: the first with the highest score.
  function BestProbe(env: Env, c: Config, m: Motion, ts: seq<Record>, ps: seq<Record>, t: nat, used: set<nat>, n: nat)
    : (b: Option<Pairing>)
    requires t < |ts| && n <= |ps|
    ensures b.Some? ==> b.value.InRange() && b.value.template == t && b.value.probe < n && b.value.probe !in used
    ensures b.Some? ==> Admissible(env, c, m, ts[t], ps[b.value.probe])
    decreases n
  {
    if n == 0 then None
    else
      var best := BestProbe(env, c, m, ts, ps, t, used, n - 1);
      if n - 1 in used || !Admissible(env, c, m, ts[t], ps[n - 1]) then best
      else
        var pair := PairUp(env, c, m, ts, ps, t, n - 1);
        if pair.Score() > ScoreOf(best) then Some(pair) else best
  }

  function ProbesOf(pairs: seq<Pairing>): set<nat> { set q | q in pairs :: q.probe }

  // Greedy pairing of the first n template records, in order.
  function Greedy(env: Env, c: Config, m: Motion, ts: seq<Record>, ps: seq<Record>, n: nat): seq<Pairing>
    requires n <= |ts|
    decreases n
  {
    if n == 0 then []
    else
      var pairs := Greedy(env, c, m, ts, ps, n - 1);
      match BestProbe(env, c, m, ts, ps, n - 1, ProbesOf(pairs), |ps|)
      case None => pairs
      case Some(b) => pairs + [b]
  }

  type Component = Pairing -> nat

  function Sum(f: Component, pairs: seq<Pairing>): nat {
    if pairs == [] then 0 else Sum(f, pairs[..|pairs| - 1]) + f(pairs[|pairs| - 1])
  }

  function DescriptorPart(q: Pairing): nat { q.descriptor }
  function SpatialPart(q: Pairing): nat { q.spatial }
  function AnglePart(q: Pairing): nat { q.angle }

  datatype Hypothesis = Hypothesis(score: nat, matched: nat, support: nat, descriptor: nat, spatial: nat, angle: nat)

  const NOTHING: Hypothesis := Hypothesis(0, 0, 0, 0, 0, 0)

  function Blend(support: nat, descriptor: nat, spatial: nat, angle: nat): nat {
    (descriptor * 65 + spatial * 15 + angle * 10 + support * 10) / 100
  }

  function Summarize(c: Config, pairs: seq<Pairing>, templateCount: nat, probeCount: nat): Hypothesis {
    var matched := |pairs|;
    if matched == 0 || matched < c.minimumMatchedPairs then NOTHING.(matched := matched)
    else
      var support := Ratio(matched, Min(templateCount, probeCount));
      var descriptor, spatial, angle :=
        Sum(DescriptorPart, pairs) / matched, Sum(SpatialPart, pairs) / matched, Sum(AnglePart, pairs) / matched;
      Hypothesis(Blend(support, descriptor, spatial, angle), matched, support, descriptor, spatial, angle)
  }

  function Evaluate(env: Env, c: Config, ts: seq<Record>, ps: seq<Record>, t: nat, p: nat): Hypothesis
    requires t < |ts| && p < |ps|
  {
    Summarize(c, Greedy(env, c, MotionOf(env, ts[t], ps[p]), ts, ps, |ts|), |ts|, |ps|)
  }

  // ---------- what every hypothesis satisfies ----------

  ghost predicate OneToOne(pairs: seq<Pairing>) {
    && (forall i, j :: 0 <= i < j < |pairs| ==> pairs[i].template < pairs[j].template)
    && (forall i, j :: 0 <= i < j < |pairs| ==> pairs[i].probe != pairs[j].probe)
  }

  ghost predicate AllAdmissible(env: Env, c: Config, m: Motion, ts: seq<Record>, ps: seq<Record>, pairs: seq<Pairing>) {
    forall q :: q in pairs ==>
      q.template < |ts| && q.probe < |ps| && q.InRange() && Admissible(env, c, m, ts[q.template], ps[q.probe])
  }

  ghost predicate Greedily(env: Env, c: Config, m: Motion, ts: seq<Record>, ps: seq<Record>, pairs: seq<Pairing>,
                           n: nat)
  {
    OneToOne(pairs) && AllAdmissible(env, c, m, ts, ps, pairs) && forall q :: q in pairs ==> q.template < n
  }

  lemma {:induction false} GreedyStep(env: Env, c: Config, m: Motion, ts: seq<Record>, ps: seq<Record>,
                                      pairs: seq<Pairing>, b: Pairing, t: nat)
    requires t < |ts| && Greedily(env, c, m, ts, ps, pairs, t)
    requires BestProbe(env, c, m, ts, ps, t, ProbesOf(pairs), |ps|) == Some(b)
    ensures Greedily(env, c, m, ts, ps, pairs + [b], t + 1)
  {
    ExtendOneToOne(pairs, b, t);
    ExtendAdmissible(env, c, m, ts, ps, pairs, b);
  }

  lemma {:induction false} GreedyIsGreedy(env: Env, c: Config, m: Motion, ts: seq<Record>, ps: seq<Record>, n: nat)
    requires n <= |ts|
    ensures Greedily(env, c, m, ts, ps, Greedy(env, c, m, ts, ps, n), n)
    decreases n
  {
    if n > 0 {
      var pairs := Greedy(env, c, m, ts, ps, n - 1);
      GreedyIsGreedy(env, c, m, ts, ps, n - 1);
      var b := BestProbe(env, c, m, ts, ps, n - 1, ProbesOf(pairs), |ps|);
      if b.Some? { GreedyStep(env, c, m, ts, ps, pairs, b.value, n - 1); }
    }
  }

  // No template and no probe record is used twice, and every pair passed
  // every gate.
  lemma {:induction false} GreedyIsOneToOne(env: Env, c: Config, m: Motion, ts: seq<Record>, ps: seq<Record>, n: nat)
    requires n <= |ts|
    ensures OneToOne(Greedy(env, c, m, ts, ps, n))
    ensures AllAdmissible(env, c, m, ts, ps, Greedy(env, c, m, ts, ps, n))
    ensures forall q :: q in Greedy(env, c, m, ts, ps, n) ==> q.template < n
  {
    GreedyIsGreedy(env, c, m, ts, ps, n);
  }

  lemma ExtendAdmissible(env: Env, c: Config, m: Motion, ts: seq<Record>, ps: seq<Record>, pairs: seq<Pairing>,
                         b: Pairing)
    requires AllAdmissible(env, c, m, ts, ps, pairs) && AllAdmissible(env, c, m, ts, ps, [b])
    ensures AllAdmissible(env, c, m, ts, ps, pairs + [b])
  {
    assert b in [b];
  }

  lemma ExtendOneToOne(pairs: seq<Pairing>, b: Pairing, t: nat)
    requires OneToOne(pairs) && (forall q :: q in pairs ==> q.template < t)
    requires b.template == t && b.probe !in ProbesOf(pairs)
    ensures OneToOne(pairs + [b])
  {
    forall i | 0 <= i < |pairs| ensures pairs[i].template < t && pairs[i].probe != b.probe {
      assert pairs[i] in pairs;
      assert pairs[i].probe in ProbesOf(pairs);
    }
  }

  lemma RangeSize(s: set<nat>, n: nat)
    requires forall x :: x in s ==> x < n
    ensures |s| <= n
    decreases n
  {
    if n > 0 {
      RangeSize(s - {n - 1}, n - 1);
      assert s <= (s - {n - 1}) + {n - 1};
      if n - 1 in s { assert s == (s - {n - 1}) + {n - 1}; } else { assert s == s - {n - 1}; }
    } else {
      assert s == {};
    }
  }

  lemma ProbesOfLast(pairs: seq<Pairing>)
    requires pairs != []
    ensures ProbesOf(pairs) == ProbesOf(pairs[..|pairs| - 1]) + {pairs[|pairs| - 1].probe}
  {
    var n := |pairs| - 1;
    assert pairs == pairs[..n] + [pairs[n]];
    assert forall q :: q in pairs <==> q in pairs[..n] || q == pairs[n];
  }

  lemma LastProbeIsNew(pairs: seq<Pairing>)
    requires pairs != [] && OneToOne(pairs)
    ensures pairs[|pairs| - 1].probe !in ProbesOf(pairs[..|pairs| - 1])
  {
  }

  lemma SizeOfPlus(s: set<nat>, x: nat)
    requires x !in s
    ensures |s + {x}| == |s| + 1
  {
  }

  lemma OneToOnePrefix(pairs: seq<Pairing>, n: nat)
    requires n <= |pairs| && OneToOne(pairs)
    ensures OneToOne(pairs[..n])
  {
  }

  lemma NoProbes(pairs: seq<Pairing>)
    requires pairs == []
    ensures |ProbesOf(pairs)| == 0
  {
    assert ProbesOf(pairs) == {};
  }

  lemma ProbesCount(pairs: seq<Pairing>)
    requires OneToOne(pairs)
    ensures |ProbesOf(pairs)| == |pairs|
    decreases |pairs|
  {
    if pairs == [] { NoProbes(pairs); return; }
    var n := |pairs| - 1;
    OneToOnePrefix(pairs, n);
    ProbesCount(pairs[..n]);
    LastProbe(pairs);
  }

  lemma LastProbe(pairs: seq<Pairing>)
    requires pairs != [] && OneToOne(pairs)
    ensures |ProbesOf(pairs)| == |ProbesOf(pairs[..|pairs| - 1])| + 1
  {
    ProbesOfLast(pairs);
    LastProbeIsNew(pairs);
    SizeOfPlus(ProbesOf(pairs[..|pairs| - 1]), pairs[|pairs| - 1].probe);
  }

  lemma TemplatesCount(pairs: seq<Pairing>, n: nat)
    requires OneToOne(pairs) && forall q :: q in pairs ==> q.template < n
    ensures |pairs| <= n
    decreases |pairs|
  {
    if pairs != [] {
      var last := pairs[|pairs| - 1];
      assert last in pairs;
      TemplatesCount(pairs[..|pairs| - 1], last.template);
    }
  }

  lemma {:induction false} SumBound(f: Component, pairs: seq<Pairing>)
    requires forall q :: q in pairs ==> f(q) <= Q16_ONE
    ensures Sum(f, pairs) <= Q16_ONE * |pairs|
    decreases |pairs|
  {
    if pairs != [] {
      assert pairs[|pairs| - 1] in pairs;
      SumBound(f, pairs[..|pairs| - 1]);
    }
  }

  lemma MeanBound(total: nat, count: nat)
    requires count > 0 && total <= Q16_ONE * count
    ensures total / count <= Q16_ONE
  {
    var q := total / count;
    assert count * q <= total;
    assert count * (q - Q16_ONE) <= 0;
  }

  lemma {:induction false} ComponentBound(f: Component, pairs: seq<Pairing>)
    requires pairs != [] && forall q :: q in pairs ==> f(q) <= Q16_ONE
    ensures Sum(f, pairs) / |pairs| <= Q16_ONE
  {
    SumBound(f, pairs);
    MeanBound(Sum(f, pairs), |pairs|);
  }

  ghost predicate WellScored(c: Config, h: Hypothesis, templateCount: nat, probeCount: nat) {
    && h.matched <= Min(templateCount, probeCount)
    && h.support <= Q16_ONE && h.descriptor <= Q16_ONE && h.spatial <= Q16_ONE && h.angle <= Q16_ONE
    && h.score <= Q16_ONE
    && (h.score > 0 ==> h.matched >= c.minimumMatchedPairs)
  }

  lemma SummaryWellScored(c: Config, pairs: seq<Pairing>, templateCount: nat, probeCount: nat)
    requires |pairs| <= Min(templateCount, probeCount) && forall q :: q in pairs ==> q.InRange()
    ensures WellScored(c, Summarize(c, pairs, templateCount, probeCount), templateCount, probeCount)
  {
    if pairs != [] {
      ComponentBound(DescriptorPart, pairs);
      ComponentBound(SpatialPart, pairs);
      ComponentBound(AnglePart, pairs);
    }
  }

  // Whatever the seed: at most as many pairs as either side has records, all
  // scores in range, and no score below the required number of pairs.
  lemma EvaluateWellScored(env: Env, c: Config, ts: seq<Record>, ps: seq<Record>, t: nat, p: nat)
    requires t < |ts| && p < |ps|
    ensures WellScored(c, Evaluate(env, c, ts, ps, t, p), |ts|, |ps|)
  {
    var m := MotionOf(env, ts[t], ps[p]);
    var pairs := Greedy(env, c, m, ts, ps, |ts|);
    GreedyIsOneToOne(env, c, m, ts, ps, |ts|);
    ProbesCount(pairs);
    RangeSize(ProbesOf(pairs), |ps|);
    TemplatesCount(pairs, |ts|);
    SummaryWellScored(c, pairs, |ts|, |ps|);
  }
}
