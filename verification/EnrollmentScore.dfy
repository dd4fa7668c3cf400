// Scoring a probe against a whole enrollment: the three best samples in rank
// order and their weighted consensus.
module EnrollmentScore {
  import opened Words
  import opened Sizes
  import opened Descriptor
  import opened TopK
  import opened Matcher
  import opened ScoreViews
  import opened RigidCopies
  import LittleEndian
  import Template

  datatype Error = Argument | Feature | State

  type Sample = Template.Sample

  function RecordAt(bytes: seq<u8>, at: nat): Record
    requires at + RECORD_BYTES <= |bytes|
  {
    Record(bytes[at + 2] as int + 0x100 * bytes[at + 3] as int,
           bytes[at + 4] as int + 0x100 * bytes[at + 5] as int,
           bytes[at + 6] as int + 0x100 * bytes[at + 7] as int,
           LittleEndian.ReadWord(bytes, at + 0xc),
           seq(DESCRIPTOR_BYTES, k requires 0 <= k < DESCRIPTOR_BYTES => bytes[at + 0x10 + k] as bv8))
  }

  function Records(bytes: seq<u8>, n: nat): (r: seq<Record>)
    requires n * RECORD_BYTES <= |bytes|
    ensures |r| == n
  {
    if n == 0 then [] else Records(bytes, n - 1) + [RecordAt(bytes, (n - 1) * RECORD_BYTES)]
  }

  function Parse(s: Sample): Result<seq<Record>, Error> {
    if s.recordCount == 0 || s.recordCount > MAX_RECORDS || |s.records| != s.recordCount * RECORD_BYTES
    then Err(Feature)
    else Ok(Records(s.records, s.recordCount))
  }

  datatype Match = Match(
    score: nat, best: nat, second: nat, third: nat, consensus: nat, sample: nat,
    details: Hypothesis, templateRecords: nat, probeRecords: nat,
    threshold: nat, decisionValid: bool, matched: bool)

  function SampleMatch(c: Config, h: Hypothesis, templateRecords: nat, probeRecords: nat): Match {
    Match(h.score, h.score, 0, 0, if h.score != 0 then 1 else 0, 0, h, templateRecords, probeRecords,
          c.threshold, c.threshold != 0,
          c.threshold != 0 && h.score >= c.threshold && h.matched >= c.minimumMatchedPairs)
  }

  function ScoreSample(env: Env, c: Config, template: Sample, probe: Sample): Result<Match, Error> {
    if !c.Valid() then Err(Argument)
    else
      match Parse(template)
      case Err(e) => Err(e)
      case Ok(ts) =>
        match Parse(probe)
        case Err(e) => Err(e)
        case Ok(ps) => Ok(SampleMatch(c, Score(env, c, ts, ps), |ts|, |ps|))
  }

  type Scorer = Sample -> Result<Match, Error>

  // The first n samples, each scored alone; the first error wins.
  function Candidates(scorer: Scorer, samples: seq<Sample>, n: nat): (r: Result<seq<Match>, Error>)
    requires n <= |samples|
    ensures r.Ok? ==> |r.value| == n
    decreases n
  {
    if n == 0 then Ok([])
    else
      match Candidates(scorer, samples, n - 1)
      case Err(e) => Err(e)
      case Ok(list) =>
        match scorer(samples[n - 1])
        case Err(e) => Err(e)
        case Ok(m) => Ok(list + [m.(sample := n - 1)])
  }

  // Ranked by score and then by matched pairs, the best first.
  function Rank(m: Match): int { -(m.score * 0x1_0000_0000 + m.details.matched) }

  function Weighted(scores: seq<nat>, n: nat): nat
    requires 0 < n <= |scores| && n <= 3
  {
    if n == 1 then scores[0]
    else if n == 2 then (scores[0] * 5 + scores[1] * 3) / 8
    else (scores[0] * 5 + scores[1] * 3 + scores[2] * 2) / 10
  }

  function Scores(top: seq<Match>): (r: seq<nat>)
    ensures |r| == |top|
  {
    seq(|top|, i requires 0 <= i < |top| => top[i].score)
  }

  function Consensus(c: Config, top: seq<Match>): Match
    requires c.Valid() && top != []
  {
    var used := Min(c.consensusSamples, |top|);
    var score := Weighted(Scores(top), used);
    var valid := c.threshold != 0 && used == c.consensusSamples;
    top[0].(score := score, best := top[0].score,
            second := if |top| > 1 then top[1].score else 0,
            third := if |top| > 2 then top[2].score else 0,
            consensus := used, threshold := c.threshold, decisionValid := valid,
            matched := valid && score >= c.threshold && top[0].details.matched >= c.minimumMatchedPairs)
  }

  function TopThree(candidates: seq<Match>): seq<Match> { Kept(Rank, candidates, 3) }

  function ScoreEnrollment(scorer: Scorer, c: Config, samples: seq<Sample>): Result<Match, Error> {
    if !c.Valid() then Err(Argument)
    else if samples == [] then Err(State)
    else
      match Candidates(scorer, samples, |samples|)
      case Err(e) => Err(e)
      case Ok(list) =>
        KeptFrom(Rank, list, 3);
        Ok(Consensus(c, TopThree(list)))
  }

  // ---------- the consensus ----------

  ghost predicate Ranked(top: seq<Match>) {
    && (forall m :: m in top ==> m.details.matched <= MAX_RECORDS)
    && forall i, j :: 0 <= i <= j < |top| ==> top[i].score >= top[j].score
  }

  lemma RankOrdersScores(a: Match, b: Match)
    requires Rank(a) <= Rank(b) && a.details.matched <= MAX_RECORDS && b.details.matched <= MAX_RECORDS
    ensures a.score >= b.score
    ensures a.score == b.score ==> a.details.matched >= b.details.matched
  {
  }

  lemma TopThreeRanked(candidates: seq<Match>)
    requires forall m :: m in candidates ==> m.details.matched <= MAX_RECORDS
    ensures Ranked(TopThree(candidates))
  {
    KeptFrom(Rank, candidates, 3);
    var top := TopThree(candidates);
    forall i, j | 0 <= i <= j < |top| ensures top[i].score >= top[j].score {
      assert top[i] in top && top[j] in top;
      RankOrdersScores(top[i], top[j]);
    }
  }

  lemma WeightedBetween(scores: seq<nat>, n: nat)
    requires 0 < n <= |scores| && n <= 3
    requires forall i, j :: 0 <= i <= j < |scores| ==> scores[i] >= scores[j]
    ensures scores[n - 1] <= Weighted(scores, n) <= scores[0]
  {
    assert scores[0] >= scores[n - 1];
    if n > 1 { assert scores[0] >= scores[1] && scores[1] >= scores[n - 1]; }
  }

  // The consensus score lies between the worst and the best score it uses, and
  // the reported three are the best of all candidates in rank order.
  lemma ConsensusBetween(c: Config, candidates: seq<Match>)
    requires c.Valid() && candidates != [] && forall m :: m in candidates ==> m.details.matched <= MAX_RECORDS
    ensures |TopThree(candidates)| == Min(|candidates|, 3)
    ensures var top := TopThree(candidates); var r := Consensus(c, top);
            && top[r.consensus - 1].score <= r.score <= top[0].score == r.best
            && (forall m :: m in candidates ==> m.score <= r.best)
  {
    KeptFrom(Rank, candidates, 3);
    TopThreeRanked(candidates);
    var top := TopThree(candidates);
    WeightedBetween(Scores(top), Min(c.consensusSamples, |top|));
    forall m | m in candidates ensures m.score <= top[0].score {
      HeadIsLeast(Rank, candidates, 3, m);
      assert top[0] in candidates;
      RankOrdersScores(top[0], m);
    }
  }

  lemma {:induction false} CandidateIs(scorer: Scorer, samples: seq<Sample>, n: nat, i: nat)
    requires i < n <= |samples| && Candidates(scorer, samples, n).Ok?
    ensures scorer(samples[i]).Ok?
    ensures Candidates(scorer, samples, n).value[i] == scorer(samples[i]).value.(sample := i)
    decreases n
  {
    if i < n - 1 { CandidateIs(scorer, samples, n - 1, i); }
  }

  // A scorer whose matched counts fit the ranking word.
  ghost predicate Bounded(scorer: Scorer) {
    forall s: Sample :: scorer(s).Ok? ==>
        scorer(s).value.details.matched <= MAX_RECORDS && scorer(s).value.score <= Q16_ONE
  }

  lemma {:induction false} CandidatesBounded(scorer: Scorer, samples: seq<Sample>, n: nat)
    requires Bounded(scorer) && n <= |samples| && Candidates(scorer, samples, n).Ok?
    ensures forall m :: m in Candidates(scorer, samples, n).value ==>
              m.details.matched <= MAX_RECORDS && m.score <= Q16_ONE
    decreases n
  {
    if n > 0 { CandidatesBounded(scorer, samples, n - 1); }
  }

  // The best sample score is the maximum over the enrollment, and the final
  // score never exceeds it.
  lemma EnrollmentScoreIsBest(scorer: Scorer, c: Config, samples: seq<Sample>, i: nat)
    requires Bounded(scorer) && i < |samples| && ScoreEnrollment(scorer, c, samples).Ok?
    ensures scorer(samples[i]).Ok?
    ensures var r := ScoreEnrollment(scorer, c, samples).value;
            scorer(samples[i]).value.score <= r.best <= Q16_ONE && r.score <= r.best
  {
    var list := Candidates(scorer, samples, |samples|).value;
    CandidateIs(scorer, samples, |samples|, i);
    CandidatesBounded(scorer, samples, |samples|);
    assert list[i] in list;
    ConsensusBetween(c, list);
    KeptFrom(Rank, list, 3);
    assert TopThree(list)[0] in list;
  }

  lemma SampleScoresBounded(env: Env, c: Config, probe: Sample)
    ensures Bounded(s => ScoreSample(env, c, s, probe))
  {
    forall s: Sample | ScoreSample(env, c, s, probe).Ok?
      ensures ScoreSample(env, c, s, probe).value.details.matched <= MAX_RECORDS
      ensures ScoreSample(env, c, s, probe).value.score <= Q16_ONE
    {
      var ts, ps := Parse(s).value, Parse(probe).value;
      SeedsOk(env, c, ts, ps);
      BestWellScored(env, c, ts, ps, Seeds(env, c, ts, ps));
    }
  }

  // An enrollment holding a turned and shifted copy of the probe reports a full best
  // score.
  lemma CopyTopsEnrollment(c: Config, samples: seq<Sample>, probe: Sample, i: nat, ts: seq<Record>, ps: seq<Record>,
                           q: int, dx: int, dy: int)
    requires i < |samples| && ScoreEnrollment(s => ScoreSample(REAL, c, s, probe), c, samples).Ok?
    requires Parse(samples[i]) == Ok(ts) && Parse(probe) == Ok(ps)
    requires TurnedCopy(ts, ps, q, dx, dy) && |ts| >= c.minimumMatchedPairs
    requires forall j, k :: 0 <= j < k < |ts| ==> ts[j].descriptor != ts[k].descriptor
    ensures ScoreEnrollment(s => ScoreSample(REAL, c, s, probe), c, samples).value.best == Q16_ONE
  {
    var scorer := s => ScoreSample(REAL, c, s, probe);
    SampleScoresBounded(REAL, c, probe);
    EnrollmentScoreIsBest(scorer, c, samples, i);
    RecordsAreWhole(samples[i].records, samples[i].recordCount);
    TurnInvariance(c, ts, ps, q, dx, dy);
  }

  // Scoring fails only when some sample cannot be scored.
  lemma {:induction false} AllScored(scorer: Scorer, samples: seq<Sample>, n: nat)
    requires n <= |samples| && forall i :: 0 <= i < n ==> scorer(samples[i]).Ok?
    ensures Candidates(scorer, samples, n).Ok?
    decreases n
  {
    if n > 0 { AllScored(scorer, samples, n - 1); }
  }

  // A scorer whose nonzero scores come with the required number of pairs.
  ghost predicate Backed(scorer: Scorer, c: Config) {
    forall s: Sample :: scorer(s).Ok? && scorer(s).value.score > 0 ==>
        scorer(s).value.details.matched >= c.minimumMatchedPairs
  }

  lemma SampleScoresBacked(env: Env, c: Config, probe: Sample)
    ensures Backed(s => ScoreSample(env, c, s, probe), c)
  {
    forall s: Sample | ScoreSample(env, c, s, probe).Ok? && ScoreSample(env, c, s, probe).value.score > 0
      ensures ScoreSample(env, c, s, probe).value.details.matched >= c.minimumMatchedPairs
    {
      var ts, ps := Parse(s).value, Parse(probe).value;
      SeedsOk(env, c, ts, ps);
      BestWellScored(env, c, ts, ps, Seeds(env, c, ts, ps));
    }
  }

  lemma {:induction false} CandidatesBacked(scorer: Scorer, c: Config, samples: seq<Sample>, n: nat)
    requires Backed(scorer, c) && n <= |samples| && Candidates(scorer, samples, n).Ok?
    ensures forall m :: m in Candidates(scorer, samples, n).value && m.score > 0 ==>
              m.details.matched >= c.minimumMatchedPairs
    decreases n
  {
    if n > 0 { CandidatesBacked(scorer, c, samples, n - 1); }
  }

  // What a full best score guarantees of the consensus of one, two or three.
  function Guaranteed(used: nat): nat {
    if used <= 1 then Q16_ONE else if used == 2 then Q16_ONE * 5 / 8 else Q16_ONE / 2
  }

  lemma WeightedGuaranteed(scores: seq<nat>, n: nat)
    requires 0 < n <= |scores| && n <= 3 && scores[0] == Q16_ONE
    ensures Weighted(scores, n) >= Guaranteed(n)
  {
  }

  // With a full best score the final score is at least the guaranteed one, and
  // a decision with a threshold of at most that accepts.
  lemma FullBestAccepts(scorer: Scorer, c: Config, samples: seq<Sample>)
    requires Backed(scorer, c) && ScoreEnrollment(scorer, c, samples).Ok?
    requires ScoreEnrollment(scorer, c, samples).value.best == Q16_ONE
    ensures var r := ScoreEnrollment(scorer, c, samples).value;
            && r.score >= Guaranteed(r.consensus)
            && (r.decisionValid && c.threshold <= Guaranteed(c.consensusSamples) ==> r.matched)
  {
    var list := Candidates(scorer, samples, |samples|).value;
    KeptFrom(Rank, list, 3);
    var top := TopThree(list);
    CandidatesBacked(scorer, c, samples, |samples|);
    assert top[0] in list;
    WeightedGuaranteed(Scores(top), Min(c.consensusSamples, |top|));
  }

  lemma {:induction false} RecordsAreWhole(bytes: seq<u8>, n: nat)
    requires n * RECORD_BYTES <= |bytes|
    ensures forall i :: 0 <= i < n ==> |Records(bytes, n)[i].descriptor| == DESCRIPTOR_BYTES
    decreases n
  {
    if n > 0 { RecordsAreWhole(bytes, n - 1); }
  }

  // A record's fields in its sixty bytes, lowest byte first.
  lemma RecordLayout(bytes: seq<u8>, at: nat)
    requires at + RECORD_BYTES <= |bytes|
    requires forall k :: at <= k < at + RECORD_BYTES ==> bytes[k] as int == k - at
    ensures var r := RecordAt(bytes, at);
            && r.x == 0x0302 && r.y == 0x0504 && r.angle == 0x0706 && r.classValue == 0x0f0e_0d0c
            && |r.descriptor| == DESCRIPTOR_BYTES
            && forall k :: 0 <= k < DESCRIPTOR_BYTES ==> r.descriptor[k] == bytes[at + 0x10 + k] as bv8
  {
    LittleEndian.NumberOfFour(bytes[at + 0xc..at + 0x10]);
  }

  // The records lie back to back.
  lemma {:induction false} RecordsAre(bytes: seq<u8>, n: nat, i: nat)
    requires i < n && n * RECORD_BYTES <= |bytes|
    ensures Records(bytes, n)[i] == RecordAt(bytes[RECORD_BYTES * i..], 0)
  {
    if i < n - 1 { RecordsAre(bytes, n - 1, i); } else { SameRecord(bytes, RECORD_BYTES * i); }
  }

  lemma SameRecord(bytes: seq<u8>, at: nat)
    requires at + RECORD_BYTES <= |bytes|
    ensures RecordAt(bytes, at) == RecordAt(bytes[at..], 0)
  {
    LittleEndian.NumberOfFour(bytes[at + 0xc..at + 0x10]);
    LittleEndian.NumberOfFour(bytes[at..][0xc..0x10]);
  }

  // Full scores in the first places show the weights 5 : 3 : 2.
  lemma RankWeights(scores: seq<nat>)
    requires |scores| == 3 && scores[0] == Q16_ONE && scores[1] in {0, Q16_ONE} && scores[2] in {0, scores[1]}
    ensures Weighted(scores, 1) == Q16_ONE
    ensures Weighted(scores, 2) == if scores[1] == 0 then Q16_ONE * 5 / 8 else Q16_ONE
    ensures Weighted(scores, 3) == Q16_ONE * (if scores[1] == 0 then 5 else if scores[2] == 0 then 8 else 10) / 10
  {
  }

  // The report of an enrollment: three scores in falling order, and a match
  // exactly when a threshold is set, there are samples enough for the consensus,
  // and score and pairs of the best sample reach what is asked.
  lemma EnrollmentDecision(scorer: Scorer, c: Config, samples: seq<Sample>)
    requires Bounded(scorer) && ScoreEnrollment(scorer, c, samples).Ok?
    ensures var r := ScoreEnrollment(scorer, c, samples).value;
            && r.best >= r.second >= r.third && r.sample < |samples| && scorer(samples[r.sample]).Ok?
            && r.consensus == Min(c.consensusSamples, |samples|)
            && (r.matched <==>
                  && 0 < c.threshold <= r.score && |samples| >= c.consensusSamples
                  && scorer(samples[r.sample]).value.details.matched >= c.minimumMatchedPairs)
  {
    var list := Candidates(scorer, samples, |samples|).value;
    CandidatesBounded(scorer, samples, |samples|);
    TopThreeRanked(list);
    KeptFrom(Rank, list, 3);
    var top := TopThree(list);
    assert top[0] in list;
    var i :| 0 <= i < |list| && list[i] == top[0];
    CandidateIs(scorer, samples, |samples|, i);
    ThreeFalling(c, top);
  }

  lemma ThreeFalling(c: Config, top: seq<Match>)
    requires c.Valid() && Ranked(top) && 0 < |top| <= 3
    ensures var r := Consensus(c, top); r.best >= r.second >= r.third
  {
    assert forall i :: 0 < i < |top| ==> top[i - 1].score >= top[i].score;
  }

  // ---------- the loop over the enrollment ----------

  lemma {:induction false} CandidatesFailEarly(scorer: Scorer, samples: seq<Sample>, i: nat, n: nat)
    requires i <= n <= |samples| && Candidates(scorer, samples, i).Err?
    ensures Candidates(scorer, samples, n) == Candidates(scorer, samples, i)
    decreases n
  {
    if i < n { CandidatesFailEarly(scorer, samples, i, n - 1); }
  }

  // The three best so far, in an array of three.
  ghost predicate HoldsTop(top: array<Match>, count: nat, candidates: seq<Match>)
    reads top
  {
    0 <= count <= 3 == top.Length && top[..count] == TopThree(candidates)
  }

  method Place(top: array<Match>, count: nat, candidate: Match, ghost candidates: seq<Match>) returns (count': nat)
    requires HoldsTop(top, count, candidates)
    modifies top
    ensures HoldsTop(top, count', candidates + [candidate])
  {
    KeptFrom(Rank, candidates, 3);
    count' := InsertInPlace(Rank, top, count, 3, candidate);
    assert (candidates + [candidate])[..|candidates|] == candidates;
  }

  const BLANK: Match := Match(0, 0, 0, 0, 0, 0, NOTHING, 0, 0, 0, false, false)

  method ScoreAll(scorer: Scorer, c: Config, samples: seq<Sample>) returns (r: Result<Match, Error>)
    ensures r == ScoreEnrollment(scorer, c, samples)
  {
    if !c.Valid() { return Err(Argument); }
    if samples == [] { return Err(State); }
    var top := new Match[3](_ => BLANK);
    var count: nat := 0;
    ghost var candidates := [];
    for i := 0 to |samples|
      invariant HoldsTop(top, count, candidates) && Candidates(scorer, samples, i) == Ok(candidates)
    {
      var scored := scorer(samples[i]);
      if scored.Err? {
        CandidatesFailEarly(scorer, samples, i + 1, |samples|);
        return Err(scored.error);
      }
      count := Place(top, count, scored.value.(sample := i), candidates);
      candidates := candidates + [scored.value.(sample := i)];
    }
    KeptFrom(Rank, candidates, 3);
    r := Ok(Consensus(c, top[..count]));
  }
}
