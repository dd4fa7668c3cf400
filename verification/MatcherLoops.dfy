// The matcher's loops: angle normalisation, greedy pairing over a table of used
// probe records, seed collection and the choice of the best hypothesis.
module MatcherLoops {
  import opened Words
  import opened Descriptor
  import opened TopK
  import opened Matcher
  import opened ScoreViews

  method Normalize(value: int) returns (angle: int)
    ensures angle == NormalizeAngle(value)
  {
    angle := value;
    while angle > ANGLE_HALF
      invariant NormalizeAngle(angle) == NormalizeAngle(value)
    {
      angle := angle - ANGLE_PERIOD;
    }
    while angle < -ANGLE_HALF
      invariant angle <= ANGLE_HALF && NormalizeAngle(angle) == NormalizeAngle(value)
      decreases -angle
    {
      angle := angle + ANGLE_PERIOD;
    }
  }

  ghost predicate Marks(used: seq<bool>, s: set<nat>) {
    forall i :: 0 <= i < |used| ==> (used[i] <==> i in s)
  }

  // The inner loop: the best probe record not used yet.
  method ChooseProbe(env: Env, c: Config, m: Motion, ts: seq<Record>, ps: seq<Record>, t: nat,
                     used: array<bool>, ghost taken: set<nat>) returns (best: Option<Pairing>)
    requires t < |ts| && used.Length == |ps| && Marks(used[..], taken)
    ensures best == BestProbe(env, c, m, ts, ps, t, taken, |ps|)
  {
    best := None;
    var bestScore := 0;
    for p := 0 to |ps|
      invariant best == BestProbe(env, c, m, ts, ps, t, taken, p)
      invariant bestScore == ScoreOf(best)
    {
      assert used[..][p] == used[p];
      if !used[p] && Admissible(env, c, m, ts[t], ps[p]) {
        var pair := PairUp(env, c, m, ts, ps, t, p);
        if pair.Score() > bestScore {
          best := Some(pair);
          bestScore := pair.Score();
        }
      }
    }
  }

  lemma ProbesOfMore(pairs: seq<Pairing>, b: Pairing)
    ensures ProbesOf(pairs + [b]) == ProbesOf(pairs) + {b.probe}
  {
    ProbesOfLast(pairs + [b]);
    assert (pairs + [b])[..|pairs|] == pairs;
  }

  method Mark(used: array<bool>, p: nat, ghost taken: set<nat>)
    requires p < used.Length && Marks(used[..], taken)
    modifies used
    ensures Marks(used[..], taken + {p})
  {
    used[p] := true;
  }

  datatype Totals = Totals(descriptor: nat, spatial: nat, angle: nat) {
    function Plus(q: Pairing): Totals { Totals(descriptor + q.descriptor, spatial + q.spatial, angle + q.angle) }
  }

  function TotalsOf(pairs: seq<Pairing>): Totals {
    Totals(Sum(DescriptorPart, pairs), Sum(SpatialPart, pairs), Sum(AnglePart, pairs))
  }

  lemma {:induction false} SumOfMore(f: Component, pairs: seq<Pairing>, b: Pairing)
    ensures Sum(f, pairs + [b]) == Sum(f, pairs) + f(b)
  {
    assert (pairs + [b])[..|pairs|] == pairs;
  }

  lemma TotalsOfMore(pairs: seq<Pairing>, b: Pairing)
    ensures TotalsOf(pairs + [b]) == TotalsOf(pairs).Plus(b)
  {
    SumOfMore(DescriptorPart, pairs, b);
    SumOfMore(SpatialPart, pairs, b);
    SumOfMore(AnglePart, pairs, b);
  }

  // One round of the outer loop.
  method MatchTemplate(env: Env, c: Config, m: Motion, ts: seq<Record>, ps: seq<Record>, t: nat,
                       used: array<bool>, ghost pairs: seq<Pairing>, matched: nat, totals: Totals)
    returns (matched': nat, totals': Totals, ghost pairs': seq<Pairing>)
    requires t < |ts| && used.Length == |ps|
    requires pairs == Greedy(env, c, m, ts, ps, t) && Marks(used[..], ProbesOf(pairs))
    requires matched == |pairs| && totals == TotalsOf(pairs)
    modifies used
    ensures pairs' == Greedy(env, c, m, ts, ps, t + 1) && Marks(used[..], ProbesOf(pairs'))
    ensures matched' == |pairs'| && totals' == TotalsOf(pairs')
  {
    var best := ChooseProbe(env, c, m, ts, ps, t, used, ProbesOf(pairs));
    matched', totals', pairs' := matched, totals, pairs;
    if best.Some? {
      Mark(used, best.value.probe, ProbesOf(pairs));
      ProbesOfMore(pairs, best.value);
      TotalsOfMore(pairs, best.value);
      matched', totals', pairs' := matched + 1, totals.Plus(best.value), pairs + [best.value];
    }
  }

  method EvaluateHypothesis(env: Env, c: Config, ts: seq<Record>, ps: seq<Record>, seed: Seed) returns (h: Hypothesis)
    requires c.Valid() && seed.template < |ts| && seed.probe < |ps|
    ensures h == Evaluate(env, c, ts, ps, seed.template, seed.probe)
  {
    var matched, totals, pairs := MatchAll(env, c, MotionOf(env, ts[seed.template], ps[seed.probe]), ts, ps);
    h := Conclude(c, matched, totals, |ts|, |ps|, pairs);
  }

  // The outer loop.
  method MatchAll(env: Env, c: Config, m: Motion, ts: seq<Record>, ps: seq<Record>)
    returns (matched: nat, totals: Totals, ghost pairs: seq<Pairing>)
    ensures pairs == Greedy(env, c, m, ts, ps, |ts|) && matched == |pairs| && totals == TotalsOf(pairs)
  {
    var used := new bool[|ps|](_ => false);
    pairs := [];
    matched, totals := 0, Totals(0, 0, 0);
    for t := 0 to |ts|
      invariant pairs == Greedy(env, c, m, ts, ps, t) && Marks(used[..], ProbesOf(pairs))
      invariant matched == |pairs| && totals == TotalsOf(pairs)
    {
      matched, totals, pairs := MatchTemplate(env, c, m, ts, ps, t, used, pairs, matched, totals);
    }
  }

  method Conclude(c: Config, matched: nat, totals: Totals, templateCount: nat, probeCount: nat,
                  ghost pairs: seq<Pairing>)
    returns (h: Hypothesis)
    requires c.Valid() && matched == |pairs| && totals == TotalsOf(pairs)
    ensures h == Summarize(c, pairs, templateCount, probeCount)
  {
    if matched < c.minimumMatchedPairs {
      return NOTHING.(matched := matched);
    }
    var support := Ratio(matched, Min(templateCount, probeCount));
    var descriptor, spatial, angle := totals.descriptor / matched, totals.spatial / matched, totals.angle / matched;
    h := Hypothesis(Blend(support, descriptor, spatial, angle), matched, support, descriptor, spatial, angle);
  }

  // ---------- seeds ----------

  // The state of the bounded list after the stream of seeds offered so far.
  ghost predicate Holds(seeds: array<Seed>, count: nat, offered: seq<Seed>, capacity: nat)
    reads seeds
  {
    && count <= capacity <= seeds.Length
    && seeds[..count] == Kept(SeedKey, offered, capacity)
  }

  method Offer(seeds: array<Seed>, count: nat, capacity: nat, seed: Seed, ghost offered: seq<Seed>)
    returns (count': nat)
    requires Holds(seeds, count, offered, capacity)
    modifies seeds
    ensures Holds(seeds, count', offered + [seed], capacity)
  {
    KeptFrom(SeedKey, offered, capacity);
    count' := InsertInPlace(SeedKey, seeds, count, capacity, seed);
    assert (offered + [seed])[..|offered|] == offered;
  }

  // Offers a pair if its distance is allowed.
  method OfferPair(env: Env, c: Config, ts: seq<Record>, ps: seq<Record>, t: nat, p: nat, seeds: array<Seed>,
                   count: nat, ghost before: seq<Seed>) returns (count': nat)
    requires t < |ts| && p < |ps| && Holds(seeds, count, before + RowSeeds(env, c, ts, ps, t, p), c.maximumSeedPairs)
    modifies seeds
    ensures Holds(seeds, count', before + RowSeeds(env, c, ts, ps, t, p + 1), c.maximumSeedPairs)
  {
    count' := count;
    var hamming := env.distance(ts[t].descriptor, ps[p].descriptor);
    if hamming <= c.maximumHamming {
      ghost var row := RowSeeds(env, c, ts, ps, t, p);
      Assoc(before, row, [Seed(t, p, hamming)]);
      count' := Offer(seeds, count', c.maximumSeedPairs, Seed(t, p, hamming), before + row);
    }
  }

  method CollectRow(env: Env, c: Config, ts: seq<Record>, ps: seq<Record>, t: nat, seeds: array<Seed>, count: nat,
                    ghost before: seq<Seed>) returns (count': nat)
    requires t < |ts| && Holds(seeds, count, before, c.maximumSeedPairs)
    modifies seeds
    ensures Holds(seeds, count', before + RowSeeds(env, c, ts, ps, t, |ps|), c.maximumSeedPairs)
  {
    count' := count;
    assert before + RowSeeds(env, c, ts, ps, t, 0) == before;
    for p := 0 to |ps|
      invariant Holds(seeds, count', before + RowSeeds(env, c, ts, ps, t, p), c.maximumSeedPairs)
    {
      count' := OfferPair(env, c, ts, ps, t, p, seeds, count', before);
    }
  }

  method CollectSeeds(env: Env, c: Config, ts: seq<Record>, ps: seq<Record>) returns (seeds: array<Seed>, count: nat)
    requires c.Valid()
    ensures fresh(seeds) && Holds(seeds, count, AllSeeds(env, c, ts, ps, |ts|), c.maximumSeedPairs)
  {
    seeds := new Seed[MAX_SEEDS](_ => Seed(0, 0, 0));
    count := 0;
    for t := 0 to |ts|
      invariant Holds(seeds, count, AllSeeds(env, c, ts, ps, t), c.maximumSeedPairs)
    {
      count := CollectRow(env, c, ts, ps, t, seeds, count, AllSeeds(env, c, ts, ps, t));
    }
  }

  ghost predicate InBounds(seeds: seq<Seed>, ts: seq<Record>, ps: seq<Record>) {
    forall s :: s in seeds ==> s.template < |ts| && s.probe < |ps|
  }

  lemma InBoundsPrefix(seeds: seq<Seed>, ts: seq<Record>, ps: seq<Record>, n: nat)
    requires n <= |seeds| && InBounds(seeds, ts, ps)
    ensures InBounds(seeds[..n], ts, ps)
    ensures n < |seeds| ==> seeds[n] in seeds && seeds[..n + 1][..n] == seeds[..n]
  {
  }

  method ChooseBest(env: Env, c: Config, ts: seq<Record>, ps: seq<Record>, seeds: array<Seed>, count: nat)
    returns (best: Hypothesis)
    requires c.Valid() && count <= seeds.Length && InBounds(seeds[..count], ts, ps)
    ensures best == BestHypothesis(env, c, ts, ps, seeds[..count])
  {
    best := NOTHING;
    ghost var kept := seeds[..count];
    for i := 0 to count
      invariant InBounds(kept[..i], ts, ps) && best == BestHypothesis(env, c, ts, ps, kept[..i])
    {
      InBoundsPrefix(kept, ts, ps, i);
      InBoundsPrefix(kept, ts, ps, i + 1);
      assert seeds[i] == kept[i];
      var candidate := EvaluateHypothesis(env, c, ts, ps, seeds[i]);
      if Better(candidate, best) { best := candidate; }
    }
    assert kept[..count] == kept;
  }

  lemma SeedsInBounds(env: Env, c: Config, ts: seq<Record>, ps: seq<Record>)
    ensures InBounds(Seeds(env, c, ts, ps), ts, ps)
  {
    SeedsOk(env, c, ts, ps);
  }

  method ScoreRecords(env: Env, c: Config, ts: seq<Record>, ps: seq<Record>) returns (best: Hypothesis)
    requires c.Valid()
    ensures best == Score(env, c, ts, ps)
  {
    var seeds, count := CollectSeeds(env, c, ts, ps);
    SeedsInBounds(env, c, ts, ps);
    assert seeds[..count] == Seeds(env, c, ts, ps);
    best := ChooseBest(env, c, ts, ps, seeds, count);
  }
}
