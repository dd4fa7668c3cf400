// From an accepted capture to its recognition: a run of submissions, the
// template written and read back, and the matcher on what was read.
module EnrolledMatching {
  import opened Words
  import opened Sizes
  import opened RigidCopies
  import opened EnrollmentScore
  import Matcher
  import Template
  import TemplateTheorems
  import Enrollment

  // Scoring a stored sample against a probe.
  function Against(c: Matcher.Config, probe: Sample): Scorer { s => ScoreSample(REAL, c, s, probe) }

  // A probe whose records are those of the sample, turned by q quarter turns and
  // shifted alike.
  ghost predicate CopyOf(s: Sample, probe: Sample, q: int, dx: int, dy: int) {
    && Parse(s).Ok? && Parse(probe).Ok?
    && TurnedCopy(Parse(s).value, Parse(probe).value, q, dx, dy)
    && forall j, k :: 0 <= j < k < |Parse(s).value| ==> Parse(s).value[j].descriptor != Parse(s).value[k].descriptor
  }

  lemma SizedParses(s: Sample)
    requires s.Sized()
    ensures Parse(s).Ok?
  {
  }

  // Scoring succeeds on every enrollment of sized samples.
  lemma ScoresEverySample(c: Matcher.Config, samples: seq<Sample>, probe: Sample)
    requires c.Valid() && samples != [] && Parse(probe).Ok? && forall s :: s in samples ==> s.Sized()
    ensures ScoreEnrollment(Against(c, probe), c, samples).Ok?
  {
    forall i | 0 <= i < |samples| ensures Against(c, probe)(samples[i]).Ok? {
      assert samples[i] in samples;
      SizedParses(samples[i]);
    }
    AllScored(Against(c, probe), samples, |samples|);
  }

  lemma CopyIsRecognised(c: Matcher.Config, samples: seq<Sample>, probe: Sample, i: nat, q: int, dx: int, dy: int)
    requires c.Valid() && i < |samples| && forall s :: s in samples ==> s.Sized()
    requires CopyOf(samples[i], probe, q, dx, dy) && samples[i].recordCount >= c.minimumMatchedPairs
    ensures ScoreEnrollment(Against(c, probe), c, samples).Ok?
    ensures var r := ScoreEnrollment(Against(c, probe), c, samples).value;
            && r.best == Q16_ONE && r.score >= Guaranteed(r.consensus)
            && (r.decisionValid && c.threshold <= Guaranteed(c.consensusSamples) ==> r.matched)
  {
    ScoresEverySample(c, samples, probe);
    CopyTopsEnrollment(c, samples, probe, i, Parse(samples[i]).value, Parse(probe).value, q, dx, dy);
    SampleScoresBacked(REAL, c, probe);
    FullBestAccepts(Against(c, probe), c, samples);
  }

  // Any capture that a completed run accepted is recognised from the stored
  // template: a turned and shifted copy of it has a full best score, and every decision
  // whose threshold is at most the guaranteed score accepts it.
  lemma {:induction false} EnrolledIsRecognised(config: Template.Config, captures: seq<Sample>, mapBytes: nat,
                             c: Matcher.Config, i: nat, probe: Sample, q: int, dx: int, dy: int)
    requires config.Valid() && forall s :: s in captures ==> Enrollment.Delivered(s, mapBytes)
    requires forall s :: s in captures ==> s.recordCount <= MAX_RECORDS
    requires 0 < mapBytes <= Template.PIXELS
    requires |Enrollment.Run(config, captures, mapBytes).samples| == config.targetSamples
    requires TemplateTheorems.MetricsInRange(Enrollment.Run(config, captures, mapBytes).samples)
    requires c.Valid() && i < config.targetSamples
    requires CopyOf(Enrollment.Run(config, captures, mapBytes).samples[i], probe, q, dx, dy)
    requires Enrollment.Run(config, captures, mapBytes).samples[i].recordCount >= c.minimumMatchedPairs
    ensures Template.Writable(Enrollment.Run(config, captures, mapBytes))
    ensures var stored := Template.Decode(Template.Encode(Enrollment.Run(config, captures, mapBytes)));
            && stored.Ok?
            && var scored := ScoreEnrollment(Against(c, probe), c, stored.value.samples);
            && scored.Ok? && scored.value.best == Q16_ONE && scored.value.score >= Guaranteed(scored.value.consensus)
            && (scored.value.decisionValid && c.threshold <= Guaranteed(c.consensusSamples) ==> scored.value.matched)
  {
    var e := Enrollment.Run(config, captures, mapBytes);
    Enrollment.CompletedRunRoundTrips(config, captures, mapBytes);
    CopyIsRecognised(c, e.samples, probe, i, q, dx, dy);
  }
}
