// Accumulating an enrollment: the decision rule, the aggregates it maintains,
// and what holds after every run of submissions.
module Enrollment {
  import opened Words
  import opened Sizes
  import opened Template
  import opened Similarity
  import opened TemplateTheorems

  datatype Decision = Accepted | LowQuality | LowCoverage | LowRecordCount | ExactDuplicate | Complete

  function Empty(config: Config): Enrolled {
    Enrolled(config, [], 0, 0, 0, 0, 0, 0, Q16_ONE)
  }

  // A capture as the extractor delivers it: records and maps of one size.
  predicate Delivered(s: Sample, mapBytes: nat) {
    |s.records| == RECORD_BYTES * s.recordCount && |s.packedMap| == mapBytes
  }

  // Duplicates are told by contents; metrics play no part.
  predicate SameCapture(a: Sample, b: Sample) {
    a.recordCount == b.recordCount && a.records == b.records && a.packedMap == b.packedMap
  }

  function HasDuplicate(ss: seq<Sample>, s: Sample): bool {
    ss != [] && (HasDuplicate(ss[..|ss| - 1], s) || SameCapture(ss[|ss| - 1], s))
  }

  lemma {:induction false} DuplicateIsMember(ss: seq<Sample>, s: Sample)
    ensures HasDuplicate(ss, s) <==> exists i :: 0 <= i < |ss| && SameCapture(ss[i], s)
    decreases |ss|
  {
    if ss != [] {
      var n := |ss| - 1;
      DuplicateIsMember(ss[..n], s);
      if i :| 0 <= i < n && SameCapture(ss[i], s) { assert SameCapture(ss[..n][i], s); }
      if i :| 0 <= i < n && SameCapture(ss[..n][i], s) { assert SameCapture(ss[i], s); }
    }
  }

  lemma {:induction false} DuplicateStep(ss: seq<Sample>, i: nat, s: Sample)
    requires i < |ss|
    ensures HasDuplicate(ss[..i + 1], s) <==> HasDuplicate(ss[..i], s) || SameCapture(ss[i], s)
    ensures HasDuplicate(ss[..i + 1], s) ==> HasDuplicate(ss, s)
    decreases |ss| - i
  {
    assert ss[..i + 1][..i] == ss[..i];
    if i + 1 < |ss| { DuplicateStep(ss, i + 1, s); } else { assert ss[..i + 1] == ss; }
  }

  // Any measure of similarity; the program uses CaptureSimilarity.
  type Measure = (Sample, Sample) -> u32

  function Best(f: Measure, ss: seq<Sample>, s: Sample): u32 {
    if ss == [] then 0 else Max(Best(f, ss[..|ss| - 1], s), f(ss[|ss| - 1], s))
  }

  lemma {:induction false} BestStep(f: Measure, ss: seq<Sample>, i: nat, s: Sample)
    requires i < |ss|
    ensures Best(f, ss[..i + 1], s) == Max(Best(f, ss[..i], s), f(ss[i], s))
  {
    assert ss[..i + 1][..i] == ss[..i];
  }

  lemma {:induction false} BestInRange(ss: seq<Sample>, s: Sample)
    ensures Best(CaptureSimilarity, ss, s) <= Q16_ONE
    decreases |ss|
  {
    if ss != [] { BestInRange(ss[..|ss| - 1], s); }
  }

  function BestOf(e: Enrolled, s: Sample): (q: u32)
    ensures q <= Q16_ONE
  {
    BestInRange(e.samples, s);
    Best(CaptureSimilarity, e.samples, s)
  }

  function Decide(e: Enrolled, s: Sample): Decision {
    if |e.samples| >= e.config.targetSamples then Complete
    else if s.metrics.quality < e.config.minimumQuality then LowQuality
    else if s.metrics.coverage < e.config.minimumCoverage then LowCoverage
    else if s.recordCount < e.config.minimumRecords then LowRecordCount
    else if HasDuplicate(e.samples, s) then ExactDuplicate
    else Accepted
  }

  function Accept(e: Enrolled, s: Sample): Enrolled
  {
    var total := WrapU32(e.totalRecords + s.recordCount as int);
    if e.samples == [] then
      Enrolled(e.config, [s], total, s.recordCount, s.recordCount, s.metrics.quality, s.metrics.coverage,
               e.maximumPairSimilarity, e.minimumPairNovelty)
    else
      var best := BestOf(e, s);
      Enrolled(e.config, e.samples + [s], total,
               Min(e.minimumRecords, s.recordCount), Max(e.maximumRecords, s.recordCount),
               Min(e.minimumQuality, s.metrics.quality), Min(e.minimumCoverage, s.metrics.coverage),
               Max(e.maximumPairSimilarity, best), Min(e.minimumPairNovelty, Q16_ONE - best))
  }

  function Submit(e: Enrolled, s: Sample): Enrolled
  {
    if Decide(e, s) == Accepted then Accept(e, s) else e
  }

  // ---------- the invariant ----------

  ghost predicate AllDelivered(ss: seq<Sample>, mapBytes: nat) {
    forall s :: s in ss ==> Delivered(s, mapBytes)
  }

  ghost predicate Qualified(config: Config, ss: seq<Sample>) {
    forall s :: s in ss ==>
      s.metrics.quality >= config.minimumQuality && s.metrics.coverage >= config.minimumCoverage &&
      s.recordCount >= config.minimumRecords
  }

  ghost predicate Distinct(ss: seq<Sample>) {
    forall i, j :: 0 <= i < j < |ss| ==> !SameCapture(ss[i], ss[j])
  }

  // Largest similarity of any two samples; zero for fewer than two.
  function MaxPair(f: Measure, ss: seq<Sample>): u32 {
    if |ss| <= 1 then 0
    else Max(MaxPair(f, ss[..|ss| - 1]), Best(f, ss[..|ss| - 1], ss[|ss| - 1]))
  }

  ghost predicate Recomputed(e: Enrolled) {
    && e.totalRecords == WrapU32(TotalRecords(e.samples))
    && e.minimumRecords == Least(e.samples, RecordCount)
    && e.maximumRecords == Greatest(e.samples, RecordCount)
    && e.minimumQuality == Least(e.samples, Quality)
    && e.minimumCoverage == Least(e.samples, Coverage)
  }

  ghost predicate PairsMeasured(e: Enrolled) {
    && e.maximumPairSimilarity == MaxPair(CaptureSimilarity, e.samples)
    && e.maximumPairSimilarity + e.minimumPairNovelty == Q16_ONE
  }

  ghost predicate Inv(e: Enrolled, mapBytes: nat) {
    && e.config.Valid() && |e.samples| <= e.config.targetSamples
    && AllDelivered(e.samples, mapBytes)
    && Qualified(e.config, e.samples) && Distinct(e.samples)
    && Recomputed(e) && PairsMeasured(e)
  }

  lemma EmptyInv(config: Config, mapBytes: nat)
    requires config.Valid()
    ensures Inv(Empty(config), mapBytes)
  {
  }

  lemma {:induction false} AggregateStep(ss: seq<Sample>, s: Sample, f: Sample -> u32)
    ensures Least(ss + [s], f) == if ss == [] then f(s) else Min(Least(ss, f), f(s))
    ensures Greatest(ss + [s], f) == if ss == [] then f(s) else Max(Greatest(ss, f), f(s))
    ensures TotalRecords(ss + [s]) == TotalRecords(ss) + s.recordCount as int
  {
    assert (ss + [s])[..|ss|] == ss;
  }

  lemma TotalStep(n: nat, k: nat)
    ensures WrapU32(WrapU32(n) + k) == WrapU32(n + k)
  {
  }

  lemma AcceptRecomputed(e: Enrolled, s: Sample)
    requires Recomputed(e)
    ensures Recomputed(Accept(e, s))
  {
    AggregateStep(e.samples, s, RecordCount);
    AggregateStep(e.samples, s, Quality);
    AggregateStep(e.samples, s, Coverage);
    TotalStep(TotalRecords(e.samples), s.recordCount);
    assert [] + [s] == [s];
  }

  lemma {:induction false} PairStep(f: Measure, ss: seq<Sample>, s: Sample)
    ensures MaxPair(f, ss + [s]) == if ss == [] then 0 else Max(MaxPair(f, ss), Best(f, ss, s))
  {
    assert (ss + [s])[..|ss|] == ss;
  }

  lemma AcceptPairs(e: Enrolled, s: Sample)
    requires PairsMeasured(e)
    ensures PairsMeasured(Accept(e, s))
  {
    PairStep(CaptureSimilarity, e.samples, s);
    assert [] + [s] == [s];
  }

  lemma AcceptMembers(e: Enrolled, s: Sample)
    requires Decide(e, s) == Accepted && Qualified(e.config, e.samples) && Distinct(e.samples)
    ensures Qualified(e.config, Accept(e, s).samples) && Distinct(Accept(e, s).samples)
    ensures Accept(e, s).samples == e.samples + [s]
  {
    assert [] + [s] == [s];
    assert Accept(e, s).samples == e.samples + [s];
    DuplicateIsMember(e.samples, s);
    MembersMore(e.config, e.samples, s);
  }

  lemma MembersMore(config: Config, ss: seq<Sample>, s: Sample)
    requires Qualified(config, ss) && Qualified(config, [s])
    requires Distinct(ss) && forall x :: x in ss ==> !SameCapture(x, s)
    ensures Qualified(config, ss + [s]) && Distinct(ss + [s])
  {
    assert s in [s];
  }

  lemma SubmitKeepsInv(e: Enrolled, s: Sample, mapBytes: nat)
    requires Inv(e, mapBytes) && Delivered(s, mapBytes)
    ensures forall x :: x in e.samples ==> Comparable(x, s)
    ensures Inv(Submit(e, s), mapBytes)
  {
    if Decide(e, s) == Accepted {
      AcceptRecomputed(e, s);
      AcceptPairs(e, s);
      AcceptMembers(e, s);
    }
  }

  // ---------- runs ----------

  ghost function Run(config: Config, captures: seq<Sample>, mapBytes: nat): (e: Enrolled)
    requires config.Valid() && forall s :: s in captures ==> Delivered(s, mapBytes)
    ensures Inv(e, mapBytes)
    decreases |captures|
  {
    if captures == [] then EmptyInv(config, mapBytes); Empty(config)
    else
      var before := Run(config, captures[..|captures| - 1], mapBytes);
      SubmitKeepsInv(before, captures[|captures| - 1], mapBytes);
      Submit(before, captures[|captures| - 1])
  }

  // The recorded maximum is the maximum over all pairs: an upper bound of every
  // pair, in either order, that some pair attains.
  lemma {:induction false} BestBounds(f: Measure, ss: seq<Sample>, s: Sample, i: nat)
    requires i < |ss|
    ensures f(ss[i], s) <= Best(f, ss, s)
    decreases |ss|
  {
    if i < |ss| - 1 { BestBounds(f, ss[..|ss| - 1], s, i); }
  }

  lemma BestAttained(f: Measure, ss: seq<Sample>, s: Sample) returns (i: nat)
    requires ss != []
    ensures i < |ss| && f(ss[i], s) == Best(f, ss, s)
    decreases |ss|
  {
    var n := |ss| - 1;
    if Best(f, ss[..n], s) > f(ss[n], s) {
      i := BestAttained(f, ss[..n], s);
    } else {
      i := n;
    }
  }

  lemma {:induction false} MaxPairBounds(f: Measure, ss: seq<Sample>, i: nat, j: nat)
    requires i < j < |ss|
    ensures f(ss[i], ss[j]) <= MaxPair(f, ss)
    decreases |ss|
  {
    var n := |ss| - 1;
    if j < n {
      MaxPairBounds(f, ss[..n], i, j);
    } else {
      BestBounds(f, ss[..n], ss[n], i);
    }
  }

  lemma MaxPairAttained(f: Measure, ss: seq<Sample>) returns (i: nat, j: nat)
    requires |ss| >= 2
    ensures i < j < |ss| && f(ss[i], ss[j]) == MaxPair(f, ss)
    decreases |ss|
  {
    var n := |ss| - 1;
    if |ss| > 2 && MaxPair(f, ss[..n]) > Best(f, ss[..n], ss[n]) {
      i, j := MaxPairAttained(f, ss[..n]);
    } else {
      i := BestAttained(f, ss[..n], ss[n]);
      j := n;
    }
  }

  // After every run: the recorded similarity is the maximum over all pairs of
  // different accepted samples, and the recorded novelty its complement.
  lemma {:induction false} RunMeasuresPairs(config: Config, captures: seq<Sample>, mapBytes: nat)
    requires config.Valid() && forall s :: s in captures ==> Delivered(s, mapBytes)
    ensures var e := Run(config, captures, mapBytes);
            |e.samples| >= 2 ==>
              && (forall i, j :: 0 <= i < |e.samples| && 0 <= j < |e.samples| && i != j ==>
                    CaptureSimilarity(e.samples[i], e.samples[j]) <= e.maximumPairSimilarity)
              && (exists a, b ::
                    && 0 <= a < b < |e.samples|
                    && CaptureSimilarity(e.samples[a], e.samples[b]) == e.maximumPairSimilarity)
              && e.minimumPairNovelty == Q16_ONE - e.maximumPairSimilarity
  {
    var e := Run(config, captures, mapBytes);
    if |e.samples| >= 2 {
      forall i, j | 0 <= i < |e.samples| && 0 <= j < |e.samples| && i != j
        ensures CaptureSimilarity(e.samples[i], e.samples[j]) <= e.maximumPairSimilarity
      {
        SimilaritySymmetric(e.samples[i], e.samples[j]);
        MaxPairBounds(CaptureSimilarity, e.samples, Min(i, j), Max(i, j));
      }
      var a, b := MaxPairAttained(CaptureSimilarity, e.samples);
      assert CaptureSimilarity(e.samples[a], e.samples[b]) == e.maximumPairSimilarity;
    }
  }

  lemma {:induction false} TotalFits(ss: seq<Sample>)
    requires forall s :: s in ss ==> s.recordCount <= MAX_RECORDS
    ensures TotalRecords(ss) <= MAX_RECORDS * |ss|
    decreases |ss|
  {
    if ss != [] {
      assert ss[|ss| - 1] in ss;
      TotalFits(ss[..|ss| - 1]);
    }
  }

  lemma CompleteIsWritable(e: Enrolled, mapBytes: nat)
    requires Inv(e, mapBytes) && |e.samples| == e.config.targetSamples && 0 < mapBytes <= PIXELS
    requires forall s :: s in e.samples ==> s.recordCount <= MAX_RECORDS
    ensures Writable(e)
  {
  }

  lemma CompleteIsCoherent(e: Enrolled, mapBytes: nat)
    requires Inv(e, mapBytes) && Writable(e)
    ensures Coherent(e) <==> MetricsInRange(e.samples)
  {
    TotalFits(e.samples);
  }

  // A completed run can be stored and read back exactly when the metrics of
  // its samples were percentages and Q16 fractions.
  lemma {:induction false} CompletedRunRoundTrips(config: Config, captures: seq<Sample>, mapBytes: nat)
    requires config.Valid() && forall s :: s in captures ==> Delivered(s, mapBytes)
    requires forall s :: s in captures ==> s.recordCount <= MAX_RECORDS
    requires 0 < mapBytes <= PIXELS
    requires |Run(config, captures, mapBytes).samples| == config.targetSamples
    ensures var e := Run(config, captures, mapBytes);
            Writable(e) && (Decode(Encode(e)) == Ok(e) <==> MetricsInRange(e.samples))
  {
    var e := Run(config, captures, mapBytes);
    RunAcceptsFrom(config, captures, mapBytes);
    CompleteIsWritable(e, mapBytes);
    CompleteIsCoherent(e, mapBytes);
    DecodeInvertsEncode(e);
  }

  lemma {:induction false} RunAcceptsFrom(config: Config, captures: seq<Sample>, mapBytes: nat)
    requires config.Valid() && forall s :: s in captures ==> Delivered(s, mapBytes)
    ensures var e := Run(config, captures, mapBytes);
            e.config == config && forall s :: s in e.samples ==> s in captures
    decreases |captures|
  {
    if captures != [] {
      var n := |captures| - 1;
      RunAcceptsFrom(config, captures[..n], mapBytes);
      AcceptedSamples(Run(config, captures[..n], mapBytes), captures[n]);
      assert captures[n] in captures && forall s :: s in captures[..n] ==> s in captures;
    }
  }

  lemma AcceptedSamples(e: Enrolled, s: Sample)
    ensures Submit(e, s).config == e.config
    ensures forall x :: x in Submit(e, s).samples ==> x in e.samples || x == s
  {
  }

  // ---------- runs that complete ----------

  // A capture that meets the three thresholds, with equality or not.
  predicate Meets(config: Config, s: Sample) {
    && s.metrics.quality >= config.minimumQuality && s.metrics.coverage >= config.minimumCoverage
    && s.recordCount >= config.minimumRecords
  }

  // A capture is accepted exactly when there is room, it meets the thresholds
  // and no accepted sample is the same capture.
  lemma AcceptedExactly(e: Enrolled, s: Sample)
    ensures Decide(e, s) == Accepted <==>
              (|e.samples| < e.config.targetSamples && Meets(e.config, s)
              && forall i :: 0 <= i < |e.samples| ==> !SameCapture(e.samples[i], s))
  {
    DuplicateIsMember(e.samples, s);
  }

  // The reason given is the first that applies, in the order room, quality,
  // coverage, records, duplicate.
  lemma RefusedFor(e: Enrolled, s: Sample)
    ensures var full, c, m := |e.samples| >= e.config.targetSamples, e.config, s.metrics;
            && (Decide(e, s) == Complete <==> full)
            && (Decide(e, s) == LowQuality <==> !full && m.quality < c.minimumQuality)
            && (Decide(e, s) == LowCoverage <==>
                  !full && m.quality >= c.minimumQuality && m.coverage < c.minimumCoverage)
            && (Decide(e, s) == LowRecordCount <==>
                  && !full && m.quality >= c.minimumQuality && m.coverage >= c.minimumCoverage
                  && s.recordCount < c.minimumRecords)
            && (Decide(e, s) == ExactDuplicate <==>
                  !full && Meets(c, s) && exists i :: 0 <= i < |e.samples| && SameCapture(e.samples[i], s))
  {
    DuplicateIsMember(e.samples, s);
  }

  ghost predicate Good(config: Config, captures: seq<Sample>, mapBytes: nat) {
    (forall s :: s in captures ==> Delivered(s, mapBytes) && Meets(config, s)) && Distinct(captures)
  }

  lemma GoodBefore(config: Config, captures: seq<Sample>, mapBytes: nat, n: nat)
    requires Good(config, captures, mapBytes) && n <= |captures|
    ensures Good(config, captures[..n], mapBytes)
  {
    forall s | s in captures[..n] ensures Delivered(s, mapBytes) && Meets(config, s) { assert s in captures; }
  }

  // Every capture that is pairwise different and meets the thresholds is
  // accepted, in order, until the enrollment is complete.
  lemma {:induction false} GoodCapturesComplete(config: Config, captures: seq<Sample>, mapBytes: nat)
    requires config.Valid() && Good(config, captures, mapBytes)
    ensures Run(config, captures, mapBytes).samples == captures[..Min(|captures|, config.targetSamples)]
    ensures Run(config, captures, mapBytes).config == config
    decreases |captures|
  {
    if captures != [] {
      var n := |captures| - 1;
      GoodBefore(config, captures, mapBytes, n);
      GoodCapturesComplete(config, captures[..n], mapBytes);
      var e := Run(config, captures[..n], mapBytes);
      assert captures[n] in captures;
      PrefixOfPrefix(captures, n, config.targetSamples);
      GoodCaptureJoins(e, captures, n);
      assert Run(config, captures, mapBytes) == Submit(e, captures[n]);
    }
  }

  lemma PrefixOfPrefix(captures: seq<Sample>, n: nat, m: nat)
    requires n <= |captures|
    ensures captures[..n][..Min(n, m)] == captures[..Min(n, m)]
  {
  }

  lemma GoodCaptureJoins(e: Enrolled, captures: seq<Sample>, n: nat)
    requires n < |captures| && Distinct(captures) && Meets(e.config, captures[n])
    requires e.samples == captures[..Min(n, e.config.targetSamples)]
    ensures Submit(e, captures[n]).samples == captures[..Min(n + 1, e.config.targetSamples)]
    ensures Submit(e, captures[n]).config == e.config
  {
    var s := captures[n];
    AcceptedExactly(e, s);
    forall i | 0 <= i < |e.samples| ensures !SameCapture(e.samples[i], s) { assert e.samples[i] == captures[i]; }
    assert [] + [s] == [s];
    if n < e.config.targetSamples { assert captures[..n + 1] == captures[..n] + [s]; }
  }
}
