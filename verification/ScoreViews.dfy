// Scoring a whole sample: seed collection and the best hypothesis.
module ScoreViews {
  import opened Words
  import opened Descriptor
  import opened TopK
  import opened Matcher

  datatype Seed = Seed(template: nat, probe: nat, hamming: nat)

  function SeedKey(s: Seed): int { s.hamming }

  // Pairs of one template record with the first n probe records.
  function RowSeeds(env: Env, c: Config, ts: seq<Record>, ps: seq<Record>, t: nat, n: nat): seq<Seed>
    requires t < |ts| && n <= |ps|
    decreases n
  {
    if n == 0 then []
    else
      var row := RowSeeds(env, c, ts, ps, t, n - 1);
      var h := env.distance(ts[t].descriptor, ps[n - 1].descriptor);
      if h <= c.maximumHamming then row + [Seed(t, n - 1, h)] else row
  }

  function AllSeeds(env: Env, c: Config, ts: seq<Record>, ps: seq<Record>, n: nat): seq<Seed>
    requires n <= |ts|
    decreases n
  {
    if n == 0 then [] else AllSeeds(env, c, ts, ps, n - 1) + RowSeeds(env, c, ts, ps, n - 1, |ps|)
  }

  ghost predicate SeedOk(env: Env, c: Config, ts: seq<Record>, ps: seq<Record>, s: Seed) {
    && s.template < |ts| && s.probe < |ps| && s.hamming <= c.maximumHamming
    && s.hamming == env.distance(ts[s.template].descriptor, ps[s.probe].descriptor)
  }

  lemma {:induction false} RowSeedsOk(env: Env, c: Config, ts: seq<Record>, ps: seq<Record>, t: nat, n: nat)
    requires t < |ts| && n <= |ps|
    ensures forall s :: s in RowSeeds(env, c, ts, ps, t, n) ==> SeedOk(env, c, ts, ps, s)
    decreases n
  {
    if n > 0 { RowSeedsOk(env, c, ts, ps, t, n - 1); }
  }

  lemma {:induction false} AllSeedsOk(env: Env, c: Config, ts: seq<Record>, ps: seq<Record>, n: nat)
    requires n <= |ts|
    ensures forall s :: s in AllSeeds(env, c, ts, ps, n) ==> SeedOk(env, c, ts, ps, s)
    decreases n
  {
    if n > 0 {
      AllSeedsOk(env, c, ts, ps, n - 1);
      RowSeedsOk(env, c, ts, ps, n - 1, |ps|);
    }
  }

  function Seeds(env: Env, c: Config, ts: seq<Record>, ps: seq<Record>): seq<Seed> {
    Kept(SeedKey, AllSeeds(env, c, ts, ps, |ts|), c.maximumSeedPairs)
  }

  lemma SeedsOk(env: Env, c: Config, ts: seq<Record>, ps: seq<Record>)
    ensures forall s :: s in Seeds(env, c, ts, ps) ==> SeedOk(env, c, ts, ps, s)
  {
    AllSeedsOk(env, c, ts, ps, |ts|);
    KeptFrom(SeedKey, AllSeeds(env, c, ts, ps, |ts|), c.maximumSeedPairs);
  }

  predicate Better(a: Hypothesis, b: Hypothesis) {
    a.score > b.score || (a.score == b.score && a.matched > b.matched)
  }

  function BestHypothesis(env: Env, c: Config, ts: seq<Record>, ps: seq<Record>, seeds: seq<Seed>): Hypothesis
    requires forall s :: s in seeds ==> s.template < |ts| && s.probe < |ps|
    decreases |seeds|
  {
    if seeds == [] then NOTHING
    else
      var n := |seeds| - 1;
      var best := BestHypothesis(env, c, ts, ps, seeds[..n]);
      assert seeds[n] in seeds;
      var candidate := Evaluate(env, c, ts, ps, seeds[n].template, seeds[n].probe);
      if Better(candidate, best) then candidate else best
  }

  function Score(env: Env, c: Config, ts: seq<Record>, ps: seq<Record>): Hypothesis {
    SeedsOk(env, c, ts, ps);
    BestHypothesis(env, c, ts, ps, Seeds(env, c, ts, ps))
  }

  lemma {:induction false} BestWellScored(env: Env, c: Config, ts: seq<Record>, ps: seq<Record>, seeds: seq<Seed>)
    requires forall s :: s in seeds ==> s.template < |ts| && s.probe < |ps|
    ensures WellScored(c, BestHypothesis(env, c, ts, ps, seeds), |ts|, |ps|)
    decreases |seeds|
  {
    if seeds != [] {
      var n := |seeds| - 1;
      BestWellScored(env, c, ts, ps, seeds[..n]);
      assert seeds[n] in seeds;
      EvaluateWellScored(env, c, ts, ps, seeds[n].template, seeds[n].probe);
    }
  }

  lemma {:induction false} BestBeatsAll(env: Env, c: Config, ts: seq<Record>, ps: seq<Record>, seeds: seq<Seed>, i: nat)
    requires forall s :: s in seeds ==> s.template < |ts| && s.probe < |ps|
    requires i < |seeds|
    ensures seeds[i] in seeds
    ensures !Better(Evaluate(env, c, ts, ps, seeds[i].template, seeds[i].probe), BestHypothesis(env, c, ts, ps, seeds))
    decreases |seeds|
  {
    if i < |seeds| - 1 { BestBeatsAll(env, c, ts, ps, seeds[..|seeds| - 1], i); }
  }
}
