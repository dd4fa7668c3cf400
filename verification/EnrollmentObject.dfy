// The enrollment object and the byte buffers it is written to and read from,
// updated step by step and tied to the functions on values.
module EnrollmentObject {
  import opened Words
  import opened Sizes
  import opened LittleEndian
  import opened Template
  import opened TemplateTheorems
  import opened Similarity
  import opened Enrollment
  import opened TemplateBuffer

  datatype Report = Report(
    decision: Decision, acceptedSamples: nat, targetSamples: u32, recordCount: u32, quality: u32, coverage: u32,
    exactDuplicate: bool, bestSimilarity: u32, novelty: u32, complete: bool)

  // What a submission reports, from the enrollment before it.
  function ReportOf(e: Enrolled, s: Sample): Report {
    var decision := Decide(e, s);
    var base := Report(decision, |e.samples|, e.config.targetSamples, s.recordCount, s.metrics.quality,
                       s.metrics.coverage, false, 0, Q16_ONE, |e.samples| >= e.config.targetSamples);
    if decision == ExactDuplicate then base.(exactDuplicate := true, bestSimilarity := Q16_ONE, novelty := 0)
    else if decision == Accepted then
      base.(acceptedSamples := |e.samples| + 1, bestSimilarity := BestOf(e, s), novelty := Q16_ONE - BestOf(e, s),
            complete := |e.samples| + 1 >= e.config.targetSamples)
    else base
  }

  class EnrollmentState {
    var config: Config
    var samples: seq<Sample>
    var totalRecords: u32
    var minimumRecords: u32
    var maximumRecords: u32
    var minimumQuality: u32
    var minimumCoverage: u32
    var maximumPairSimilarity: u32
    var minimumPairNovelty: u32

    function Value(): Enrolled
      reads this
    {
      Enrolled(config, samples, totalRecords, minimumRecords, maximumRecords, minimumQuality, minimumCoverage,
               maximumPairSimilarity, minimumPairNovelty)
    }

    constructor (config: Config)
      ensures Value() == Empty(config)
    {
      this.config, samples := config, [];
      totalRecords, minimumRecords, maximumRecords, minimumQuality, minimumCoverage := 0, 0, 0, 0, 0;
      maximumPairSimilarity, minimumPairNovelty := 0, Q16_ONE;
    }

    static method Create(config: Config) returns (e: EnrollmentState?)
      ensures e == null <==> !config.Valid()
      ensures e != null ==> fresh(e) && e.Value() == Empty(config)
    {
      if !config.Valid() {
        return null;
      }
      e := new EnrollmentState(config);
    }

    method Reset()
      modifies this
      ensures Value() == Empty(old(config))
    {
      samples := [];
      totalRecords, minimumRecords, maximumRecords, minimumQuality, minimumCoverage := 0, 0, 0, 0, 0;
      maximumPairSimilarity, minimumPairNovelty := 0, Q16_ONE;
    }

    method Closer(index: nat, view: Sample, closest: u32) returns (best: u32)
      requires index < |samples| && Comparable(samples[index], view)
      requires closest == Best(CaptureSimilarity, samples[..index], view)
      ensures best == Best(CaptureSimilarity, samples[..index + 1], view)
    {
      var similarity := MeasureSimilarity(samples[index], view);
      BestStep(CaptureSimilarity, samples, index, view);
      best := if similarity > closest then similarity else closest;
    }

    // Looks for a duplicate and, failing that, for the closest sample.
    method Compare(view: Sample) returns (duplicate: bool, best: u32)
      requires forall x :: x in samples ==> Comparable(x, view)
      ensures duplicate == HasDuplicate(samples, view)
      ensures !duplicate ==> best == Best(CaptureSimilarity, samples, view)
    {
      best := 0;
      for index := 0 to |samples|
        invariant !HasDuplicate(samples[..index], view)
        invariant best == Best(CaptureSimilarity, samples[..index], view)
      {
        DuplicateStep(samples, index, view);
        if SameCapture(samples[index], view) {
          return true, 0;
        }
        best := Closer(index, view, best);
      }
      assert samples[..|samples|] == samples;
      duplicate := false;
    }

    method FirstExtremes(s: Sample)
      modifies this
      ensures Value() == old(Value()).(minimumRecords := s.recordCount, maximumRecords := s.recordCount,
                                       minimumQuality := s.metrics.quality, minimumCoverage := s.metrics.coverage)
    {
      minimumRecords, maximumRecords := s.recordCount, s.recordCount;
      minimumQuality, minimumCoverage := s.metrics.quality, s.metrics.coverage;
    }

    method LaterExtremes(s: Sample)
      modifies this
      ensures Value() == old(Value()).(minimumRecords := Min(old(minimumRecords), s.recordCount),
                                       maximumRecords := Max(old(maximumRecords), s.recordCount),
                                       minimumQuality := Min(old(minimumQuality), s.metrics.quality),
                                       minimumCoverage := Min(old(minimumCoverage), s.metrics.coverage))
    {
      if s.recordCount < minimumRecords { minimumRecords := s.recordCount; }
      if s.recordCount > maximumRecords { maximumRecords := s.recordCount; }
      if s.metrics.quality < minimumQuality { minimumQuality := s.metrics.quality; }
      if s.metrics.coverage < minimumCoverage { minimumCoverage := s.metrics.coverage; }
    }

    method Record(s: Sample, best: u32)
      requires best == BestOf(Value(), s)
      modifies this
      ensures Value() == Accept(old(Value()), s)
    {
      samples := samples + [s];
      totalRecords := WrapU32(totalRecords + s.recordCount as int);
      if |samples| == 1 {
        FirstExtremes(s);
      } else {
        LaterExtremes(s);
        if best > maximumPairSimilarity { maximumPairSimilarity := best; }
        if Q16_ONE - best < minimumPairNovelty { minimumPairNovelty := Q16_ONE - best; }
      }
    }

    method SubmitView(view: Sample) returns (r: Result<Report, Error>)
      requires |view.records| == RECORD_BYTES * view.recordCount
      requires forall x :: x in samples ==> Comparable(x, view)
      modifies this
      ensures view.records == [] || view.packedMap == [] ==> r == Err(Feature) && Value() == old(Value())
      ensures view.records != [] && view.packedMap != [] ==>
                r == Ok(ReportOf(old(Value()), view)) && Value() == Submit(old(Value()), view)
    {
      if view.records == [] || view.packedMap == [] {
        return Err(Feature);
      }
      var result := Report(Complete, |samples|, config.targetSamples, view.recordCount, view.metrics.quality,
                           view.metrics.coverage, false, 0, Q16_ONE, |samples| >= config.targetSamples);
      if |samples| >= config.targetSamples { return Ok(result); }
      if view.metrics.quality < config.minimumQuality { return Ok(result.(decision := LowQuality)); }
      if view.metrics.coverage < config.minimumCoverage { return Ok(result.(decision := LowCoverage)); }
      if view.recordCount < config.minimumRecords { return Ok(result.(decision := LowRecordCount)); }
      var duplicate, best := Compare(view);
      if duplicate {
        return Ok(result.(decision := ExactDuplicate, exactDuplicate := true, bestSimilarity := Q16_ONE, novelty := 0));
      }
      result := Admit(view, best, result);
      r := Ok(result);
    }

    // An accepted capture joins, and the report says so.
    method Admit(view: Sample, best: u32, result: Report) returns (r: Report)
      requires best == BestOf(Value(), view) && best <= Q16_ONE
      modifies this
      ensures Value() == Accept(old(Value()), view)
      ensures r == result.(decision := Accepted, acceptedSamples := |old(samples)| + 1, bestSimilarity := best,
                           novelty := Q16_ONE - best, complete := |old(samples)| + 1 >= old(config).targetSamples)
    {
      Record(view, best);
      r := result.(decision := Accepted, acceptedSamples := |samples|, bestSimilarity := best,
                   novelty := Q16_ONE - best, complete := |samples| >= config.targetSamples);
    }

    // One sample read from a template joins the object.
    method Load(s: Sample)
      requires Recomputed(Value())
      modifies this
      ensures Recomputed(Value()) && samples == old(samples) + [s] && config == old(config)
      ensures maximumPairSimilarity == old(maximumPairSimilarity) && minimumPairNovelty == old(minimumPairNovelty)
    {
      LoadRecomputed(Value(), s);
      samples := samples + [s];
      totalRecords := WrapU32(totalRecords + s.recordCount as int);
      if |samples| == 1 {
        FirstExtremes(s);
      } else {
        LaterExtremes(s);
      }
    }

    // Reads the sample at `offset`; `whole` is what the entire body holds.
    method LoadNext(source: seq<u8>, offset: nat, ghost n: nat, ghost whole: Option<seq<Sample>>)
      returns (ok: bool, next: nat)
      requires offset <= |source| && n > 0 && Recomputed(Value())
      requires whole == Prepend(samples, SamplesIn(source[offset..], n))
      modifies this
      ensures config == old(config)
      ensures !ok ==> whole == None
      ensures ok ==>
                next <= |source| && Recomputed(Value()) && whole == Prepend(samples, SamplesIn(source[next..], n - 1))
    {
      var s := SampleAt(source[offset..]);
      PrependNext(samples, source[offset..], n);
      if s.None? {
        return false, 0;
      }
      Load(s.value);
      next := offset + SampleSize(s.value);
      assert source[offset..][SampleSize(s.value)..] == source[next..];
      ok := true;
    }

    // Reads n samples that must end exactly at the end of the source.
    method LoadSamples(source: seq<u8>, n: nat) returns (ok: bool)
      requires |source| >= HEADER_BYTES && samples == [] && Recomputed(Value())
      modifies this
      ensures config == old(config)
      ensures ok == SamplesIn(source[HEADER_BYTES..], n).Some?
      ensures ok ==> SamplesIn(source[HEADER_BYTES..], n) == Some(samples) && Recomputed(Value())
    {
      var offset: nat := HEADER_BYTES;
      ghost var whole := SamplesIn(source[HEADER_BYTES..], n);
      PrependNothing(whole);
      for index := 0 to n
        invariant offset <= |source| && config == old(config) && Recomputed(Value())
        invariant whole == Prepend(samples, SamplesIn(source[offset..], n - index))
      {
        ok, offset := LoadNext(source, offset, n - index, whole);
        if !ok {
          return;
        }
      }
      PrependEnd(samples, source[offset..]);
      ok := offset == |source|;
    }

    // The part of reading that follows the header checks.
    method LoadBody(source: seq<u8>) returns (ok: bool)
      requires HeaderOk(source) && CountsOk(source) && Value() == Empty(ConfigOf(source))
      modifies this
      ensures var r := SamplesIn(source[HEADER_BYTES..], HeaderWord(source, 3));
              && ok == (r.Some? && AggregatesMatch(Assemble(source, r.value)))
              && (ok ==> Value() == Assemble(source, r.value))
    {
      ok := LoadSamples(source, HeaderWord(source, 3));
      if !ok {
        return;
      }
      LoadedInRange(source, HeaderWord(source, 3), samples);
      MatchesHeader(source, Value());
      if totalRecords != HeaderWord(source, 8) || minimumRecords != HeaderWord(source, 9)
         || maximumRecords != HeaderWord(source, 10) || minimumQuality != HeaderWord(source, 11)
         || minimumCoverage != HeaderWord(source, 12)
      {
        return false;
      }
      maximumPairSimilarity := HeaderWord(source, 13);
      minimumPairNovelty := HeaderWord(source, 14);
    }

    static method Deserialize(source: seq<u8>) returns (e: EnrollmentState?, error: Option<Error>)
      ensures Decode(source).Ok? ==> error == None && e != null && fresh(e) && e.Value() == Decode(source).value
      ensures Decode(source).Err? ==> error == Some(Decode(source).error) && e == null
    {
      if !HeaderOk(source) { return null, Some(Format); }
      var crc := ComputeTemplateCrc(source);
      if HeaderWord(source, 16) != crc { return null, Some(Integrity); }
      if !CountsOk(source) { return null, Some(Format); }
      e := new EnrollmentState(ConfigOf(source));
      var ok := e.LoadBody(source);
      if !ok { return null, Some(Format); }
      error := None;
    }
  }

  lemma {:induction false} LoadedInRange(source: seq<u8>, n: nat, samples: seq<Sample>)
    requires |source| >= HEADER_BYTES && SamplesIn(source[HEADER_BYTES..], n) == Some(samples)
    ensures forall s :: s in samples ==> s.recordCount <= MAX_RECORDS
  {
    SamplesWriteBack(source[HEADER_BYTES..], n, samples);
  }

  lemma PrependNothing(r: Option<seq<Sample>>)
    ensures Prepend([], r) == r
  {
    if r.Some? { assert [] + r.value == r.value; }
  }

  lemma {:induction false} PrependEnd(xs: seq<Sample>, s: seq<u8>)
    ensures Prepend(xs, SamplesIn(s, 0)) == if s == [] then Some(xs) else None
  {
    assert xs + [] == xs;
  }

  ghost function Prepend(xs: seq<Sample>, r: Option<seq<Sample>>): Option<seq<Sample>> {
    match r
    case None => None
    case Some(ys) => Some(xs + ys)
  }

  lemma PrependNext(xs: seq<Sample>, s: seq<u8>, n: nat)
    requires n > 0
    ensures Prepend(xs, SamplesIn(s, n))
         == match SampleAt(s) case None => None case Some(x) => Prepend(xs + [x], SamplesIn(s[SampleSize(x)..], n - 1))
  {
    var next := SampleAt(s);
    if next.Some? {
      var later := SamplesIn(s[SampleSize(next.value)..], n - 1);
      if later.Some? { Assoc(xs, [next.value], later.value); }
    }
  }

  lemma LoadRecomputed(e: Enrolled, s: Sample)
    requires Recomputed(e)
    ensures Recomputed(Accept(e, s))
  {
    AcceptRecomputed(e, s);
  }

  // The recomputed aggregates equal the stored ones exactly when the reader's
  // comparison succeeds; no total wraps.
  lemma MatchesHeader(source: seq<u8>, e: Enrolled)
    requires |source| >= HEADER_BYTES && Recomputed(e)
    requires |e.samples| <= MAX_SAMPLES && forall s :: s in e.samples ==> s.recordCount <= MAX_RECORDS
    ensures AggregatesMatch(Assemble(source, e.samples)) <==>
              e.totalRecords == HeaderWord(source, 8) && e.minimumRecords == HeaderWord(source, 9) &&
              e.maximumRecords == HeaderWord(source, 10) && e.minimumQuality == HeaderWord(source, 11) &&
              e.minimumCoverage == HeaderWord(source, 12)
  {
    TotalFits(e.samples);
  }
}
