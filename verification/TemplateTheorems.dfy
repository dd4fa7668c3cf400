// Writing and reading undo each other both ways, and every burst of errors of
// at most 32 bits in an accepted template is noticed.
module TemplateTheorems {
  import opened Words
  import opened Sizes
  import opened LittleEndian
  import opened Template
  import Crc

  predicate MetricsInRange(ss: seq<Sample>) {
    forall s :: s in ss ==> s.metrics.InRange()
  }

  // An enrollment that the reader would accept: a caller can check it before
  // writing. The writer itself checks only Writable.
  predicate Coherent(e: Enrolled) {
    && Writable(e) && e.config.Valid()
    && MetricsInRange(e.samples)
    && AggregatesMatch(e)
    && e.maximumPairSimilarity <= Q16_ONE && e.minimumPairNovelty <= Q16_ONE
  }

  // ---------- the header of a written image ----------

  lemma HeaderReads(e: Enrolled, crc: u32, i: nat)
    requires Writable(e) && i < 18
    ensures HeaderWord(Image(e, crc), i) == HeaderWords(e, TotalSize(e), crc)[i]
  {
    ReadTable(MAGIC, HeaderWords(e, TotalSize(e), crc), SamplesBytes(e.samples), i);
  }

  ghost predicate HeaderIs(b: seq<u8>, ws: seq<u32>) {
    |b| >= HEADER_BYTES && |ws| == 18 && forall i :: 0 <= i < 18 ==> HeaderWord(b, i) == ws[i]
  }

  lemma ImageHeader(e: Enrolled, crc: u32)
    requires Writable(e)
    ensures HeaderIs(Image(e, crc), HeaderWords(e, TotalSize(e), crc))
    ensures Image(e, crc)[..8] == MAGIC
    ensures Image(e, crc)[HEADER_BYTES..] == SamplesBytes(e.samples)
  {
    forall i | 0 <= i < 18 ensures HeaderWord(Image(e, crc), i) == HeaderWords(e, TotalSize(e), crc)[i] {
      HeaderReads(e, crc, i);
    }
  }

  lemma {:induction false} CutAtCrc(ws: seq<u32>, crc: u32, t: seq<u8>)
    requires |ws| == 18 && ws[16] == crc
    ensures var b := MAGIC + Bytes(ws) + t;
            && b[..CRC_OFFSET] == MAGIC + Bytes(ws[..16])
            && b[CRC_OFFSET + 4..] == Bytes(ws[17..]) + t
  {
    BytesAt(ws, 16);
    var b := MAGIC + Bytes(ws) + t;
    assert b == MAGIC + Bytes(ws[..16]) + Le(crc) + (Bytes(ws[17..]) + t);
  }

  lemma {:induction false} ZeroField(ws: seq<u32>, t: seq<u8>)
    requires |ws| == 18 && ws[16] == 0
    ensures MAGIC + Bytes(ws[..16]) + Zeros(4) + (Bytes(ws[17..]) + t) == MAGIC + Bytes(ws) + t
  {
    BytesAt(ws, 16);
    assert Le(0) == Zeros(4);
  }

  // Blanking hides the checksum and nothing else.
  lemma BlankedImage(e: Enrolled, crc: u32)
    requires Writable(e)
    ensures Blanked(Image(e, crc)) == Image(e, 0)
  {
    var ws, zs := HeaderWords(e, TotalSize(e), crc), HeaderWords(e, TotalSize(e), 0);
    CutAtCrc(ws, crc, SamplesBytes(e.samples));
    assert ws[..16] == zs[..16] && ws[17..] == zs[17..];
    ZeroField(zs, SamplesBytes(e.samples));
  }

  lemma EncodedCrc(e: Enrolled)
    requires Writable(e)
    ensures HeaderWord(Encode(e), 16) == TemplateCrc(Encode(e)) == TemplateCrc(Image(e, 0))
  {
    var crc := TemplateCrc(Image(e, 0));
    HeaderReads(e, crc, 16);
    BlankedImage(e, crc);
    BlankedImage(e, 0);
  }

  // A written template by byte offset.
  lemma WrittenHeader(e: Enrolled)
    requires Writable(e)
    ensures var b := Encode(e);
            && b[..8] == MAGIC && ReadWord(b, 8) == 1 && ReadWord(b, 12) == 80 && ReadWord(b, 16) == |b|
            && ReadWord(b, 20) == |e.samples| && ReadWord(b, 24) == e.config.targetSamples
            && ReadWord(b, 28) == e.config.minimumQuality && ReadWord(b, 32) == e.config.minimumCoverage
            && ReadWord(b, 36) == e.config.minimumRecords && ReadWord(b, 40) == e.totalRecords
            && ReadWord(b, 44) == e.minimumRecords && ReadWord(b, 48) == e.maximumRecords
            && ReadWord(b, 52) == e.minimumQuality && ReadWord(b, 56) == e.minimumCoverage
            && ReadWord(b, 60) == e.maximumPairSimilarity && ReadWord(b, 64) == e.minimumPairNovelty
            && ReadWord(b, 68) == ReadWord(b, 76) == 0 && ReadWord(b, 72) == Crc.Crc32(b[..72] + Zeros(4) + b[76..])
  {
    var b := Encode(e);
    ImageHeader(e, TemplateCrc(Image(e, 0)));
    EncodedCrc(e);
    assert HeaderWord(b, 0) == ReadWord(b, 8) && HeaderWord(b, 1) == ReadWord(b, 12);
    assert HeaderWord(b, 2) == ReadWord(b, 16) && HeaderWord(b, 3) == ReadWord(b, 20);
    assert HeaderWord(b, 4) == ReadWord(b, 24) && HeaderWord(b, 5) == ReadWord(b, 28);
    assert HeaderWord(b, 6) == ReadWord(b, 32) && HeaderWord(b, 7) == ReadWord(b, 36);
    assert HeaderWord(b, 8) == ReadWord(b, 40) && HeaderWord(b, 9) == ReadWord(b, 44);
    assert HeaderWord(b, 10) == ReadWord(b, 48) && HeaderWord(b, 11) == ReadWord(b, 52);
    assert HeaderWord(b, 12) == ReadWord(b, 56) && HeaderWord(b, 13) == ReadWord(b, 60);
    assert HeaderWord(b, 14) == ReadWord(b, 64) && HeaderWord(b, 15) == ReadWord(b, 68);
    assert HeaderWord(b, 16) == ReadWord(b, 72) && HeaderWord(b, 17) == ReadWord(b, 76);
  }

  // ---------- samples ----------

  lemma SampleCut(s: Sample, t: seq<u8>)
    requires s.Sized()
    ensures var b, mapStart := SampleBytes(s) + t, SAMPLE_HEADER_BYTES + |s.records|;
            && |b| == SampleSize(s) + |t|
            && b[SAMPLE_HEADER_BYTES..mapStart] == s.records && b[mapStart..mapStart + |s.packedMap|] == s.packedMap
            && b[SampleSize(s)..] == t
  {
  }

  lemma SampleAtFields(b: seq<u8>, s: Sample)
    requires s.Sized() && SampleSize(s) <= |b|
    requires ReadWord(b, 0) == s.recordCount && ReadWord(b, 4) == |s.records| && ReadWord(b, 8) == |s.packedMap|
    requires Metrics(ReadWord(b, 12), ReadWord(b, 16), ReadWord(b, 20)) == s.metrics
    requires b[SAMPLE_HEADER_BYTES..SAMPLE_HEADER_BYTES + |s.records|] == s.records
    requires b[SAMPLE_HEADER_BYTES + |s.records|..SampleSize(s)] == s.packedMap
    ensures SampleAt(b) == if s.metrics.InRange() then Some(s) else None
  {
  }

  lemma SampleReadsBack(s: Sample, t: seq<u8>)
    requires s.Sized()
    ensures SampleAt(SampleBytes(s) + t) == if s.metrics.InRange() then Some(s) else None
  {
    SampleWordsRead(s, t);
    SampleCut(s, t);
    SampleAtFields(SampleBytes(s) + t, s);
  }

  lemma SampleWordsRead(s: Sample, t: seq<u8>)
    requires s.Sized()
    ensures var b, ws := SampleBytes(s) + t, SampleWords(s);
            && ReadWord(b, 0) == ws[0] && ReadWord(b, 4) == ws[1] && ReadWord(b, 8) == ws[2]
            && ReadWord(b, 12) == ws[3] && ReadWord(b, 16) == ws[4] && ReadWord(b, 20) == ws[5]
  {
    var b, ws := SampleBytes(s) + t, SampleWords(s);
    var u := s.records + s.packedMap + t;
    assert b == [] + Bytes(ws) + u;
    ReadTable([], ws, u, 0); ReadTable([], ws, u, 1); ReadTable([], ws, u, 2);
    ReadTable([], ws, u, 3); ReadTable([], ws, u, 4); ReadTable([], ws, u, 5);
  }

  // A written sample by byte offset.
  lemma WrittenSample(s: Sample)
    requires s.Sized()
    ensures var b := SampleBytes(s);
            && ReadWord(b, 0) == s.recordCount && ReadWord(b, 4) == |s.records| && ReadWord(b, 8) == |s.packedMap|
            && ReadWord(b, 12) == s.metrics.quality && ReadWord(b, 16) == s.metrics.coverage
            && ReadWord(b, 20) == s.metrics.maskCoverage
            && b[24..24 + |s.records|] == s.records && b[24 + |s.records|..] == s.packedMap
  {
    SampleWordsRead(s, []);
    SampleCut(s, []);
    assert SampleBytes(s) + [] == SampleBytes(s);
  }

  lemma MetricsOfCons(ss: seq<Sample>)
    requires ss != []
    ensures MetricsInRange(ss) <==> ss[0].metrics.InRange() && MetricsInRange(ss[1..])
    ensures [ss[0]] + ss[1..] == ss
  {
    assert forall s :: s in ss <==> s == ss[0] || s in ss[1..];
  }

  lemma {:induction false} SamplesStep(ss: seq<Sample>)
    requires ss != [] && forall s :: s in ss ==> s.Sized()
    ensures SamplesIn(SamplesBytes(ss), |ss|)
         == if !ss[0].metrics.InRange() then None
            else match SamplesIn(SamplesBytes(ss[1..]), |ss| - 1)
                 case None => None
                 case Some(xs) => Some([ss[0]] + xs)
  {
    assert ss[0] in ss;
    SampleReadsBack(ss[0], SamplesBytes(ss[1..]));
    SampleCut(ss[0], SamplesBytes(ss[1..]));
  }

  lemma {:induction false} SamplesReadBack(ss: seq<Sample>)
    requires forall s :: s in ss ==> s.Sized()
    ensures SamplesIn(SamplesBytes(ss), |ss|) == if MetricsInRange(ss) then Some(ss) else None
    decreases |ss|
  {
    if ss != [] {
      SamplesReadBack(ss[1..]);
      SamplesStep(ss);
      MetricsOfCons(ss);
    }
  }

  lemma SampleAtMeans(s: seq<u8>, x: Sample)
    requires SampleAt(s) == Some(x)
    ensures var ws, mapStart := SampleWords(x), SAMPLE_HEADER_BYTES + |x.records|;
            && s[SAMPLE_HEADER_BYTES..mapStart] == x.records && s[mapStart..SampleSize(x)] == x.packedMap
            && forall i :: 0 <= i < |ws| ==> ws[i] == ReadWord(s, 0 + 4 * i)
  {
  }

  lemma JoinSlices(s: seq<u8>, i: nat, j: nat, k: nat)
    requires i <= j <= k <= |s|
    ensures s == s[0..i] + s[i..j] + s[j..k] + s[k..]
  {
  }

  lemma SampleWritesBack(s: seq<u8>, x: Sample)
    requires SampleAt(s) == Some(x)
    ensures s == SampleBytes(x) + s[SampleSize(x)..]
  {
    SampleAtMeans(s, x);
    TableOfReads(s, 0, SampleWords(x));
    JoinSlices(s, SAMPLE_HEADER_BYTES, SAMPLE_HEADER_BYTES + |x.records|, SampleSize(x));
  }

  lemma {:induction false} SamplesWriteBack(s: seq<u8>, n: nat, xs: seq<Sample>)
    requires SamplesIn(s, n) == Some(xs)
    ensures MetricsInRange(xs) && forall x :: x in xs ==> x.Sized()
    ensures s == SamplesBytes(xs)
    decreases n
  {
    if n > 0 {
      var x := SampleAt(s).value;
      SampleWritesBack(s, x);
      SamplesWriteBack(s[SampleSize(x)..], n - 1, xs[1..]);
      assert xs == [x] + xs[1..];
    }
  }

  // ---------- whole templates ----------

  lemma HeaderGivesOk(b: seq<u8>, e: Enrolled, crc: u32)
    requires |e.samples| <= MAX_SAMPLES && |b| <= MAX_BYTES
    requires HeaderIs(b, HeaderWords(e, |b|, crc)) && b[..8] == MAGIC
    ensures HeaderOk(b)
  {
    var ws := HeaderWords(e, |b|, crc);
    assert HeaderWord(b, 0) == ws[0] && HeaderWord(b, 1) == ws[1] && HeaderWord(b, 2) == ws[2];
    assert HeaderWord(b, 15) == ws[15] && HeaderWord(b, 17) == ws[17];
  }

  lemma HeaderGivesEnrolled(b: seq<u8>, e: Enrolled, size: u32, crc: u32)
    requires |e.samples| <= MAX_SAMPLES && HeaderIs(b, HeaderWords(e, size, crc))
    ensures Assemble(b, e.samples) == e && ConfigOf(b) == e.config
  {
    var ws := HeaderWords(e, size, crc);
    assert forall i | 4 <= i < 15 :: HeaderWord(b, i) == ws[i];
  }

  lemma HeaderGivesCounts(b: seq<u8>, e: Enrolled, size: u32, crc: u32)
    requires Writable(e) && HeaderIs(b, HeaderWords(e, size, crc))
    ensures HeaderWord(b, 3) == |e.samples|
    ensures CountsOk(b) <==>
              e.config.Valid() && e.maximumPairSimilarity <= Q16_ONE && e.minimumPairNovelty <= Q16_ONE
  {
    HeaderGivesEnrolled(b, e, size, crc);
    var ws := HeaderWords(e, size, crc);
    assert HeaderWord(b, 3) == ws[3] && HeaderWord(b, 4) == ws[4] && HeaderWord(b, 13) == ws[13]
           && HeaderWord(b, 14) == ws[14];
  }

  lemma EncodedHeaderOk(e: Enrolled)
    requires Writable(e)
    ensures HeaderOk(Encode(e)) && HeaderIs(Encode(e), HeaderWords(e, TotalSize(e), TemplateCrc(Image(e, 0))))
  {
    var crc := TemplateCrc(Image(e, 0));
    ImageHeader(e, crc);
    HeaderGivesOk(Image(e, crc), e, crc);
  }

  // Reading what was written gives the enrollment back exactly when it was
  // coherent; every other writable enrollment is refused as malformed.
  lemma DecodeInvertsEncode(e: Enrolled)
    requires Writable(e)
    ensures Decode(Encode(e)) == if Coherent(e) then Ok(e) else Err(Format)
  {
    var crc := TemplateCrc(Image(e, 0));
    EncodedHeaderOk(e);
    EncodedCrc(e);
    HeaderGivesEnrolled(Encode(e), e, TotalSize(e), crc);
    HeaderGivesCounts(Encode(e), e, TotalSize(e), crc);
    ImageHeader(e, crc);
    SamplesReadBack(e.samples);
  }

  // The writer accepts enrollments that the reader refuses: metrics are not
  // checked on the way out.
  lemma WritableButUnreadable()
    ensures var s := Sample(1, seq(60, _ => 0), [1], Metrics(101, 100, 0));
            var e := Enrolled(Config(1, 0, 0, 1), [s], 1, 1, 1, 101, 100, 0, 65536);
            Writable(e) && Decode(Encode(e)) == Err(Format)
  {
    var s := Sample(1, seq(60, _ => 0), [1], Metrics(101, 100, 0));
    var e := Enrolled(Config(1, 0, 0, 1), [s], 1, 1, 1, 101, 100, 0, 65536);
    assert s in e.samples && !s.metrics.InRange();
    DecodeInvertsEncode(e);
  }

  lemma HeaderWritesBack(b: seq<u8>, e: Enrolled)
    requires Writable(e) && HeaderOk(b) && TotalSize(e) == |b| && HeaderWord(b, 3) == |e.samples|
    requires Assemble(b, e.samples) == e
    ensures b[8..HEADER_BYTES] == Bytes(HeaderWords(e, |b|, HeaderWord(b, 16)))
  {
    var ws := HeaderWords(e, |b|, HeaderWord(b, 16));
    forall i | 0 <= i < |ws| ensures ws[i] == ReadWord(b, 8 + 4 * i) {
      assert ws[i] == HeaderWord(b, i);
    }
    TableOfReads(b, 8, ws);
  }

  lemma AcceptedIsCoherent(b: seq<u8>)
    requires Decode(b).Ok?
    ensures Coherent(Decode(b).value)
    ensures var e := Decode(b).value; HeaderOk(b) && Assemble(b, e.samples) == e
    ensures b[HEADER_BYTES..] == SamplesBytes(Decode(b).value.samples)
    ensures HeaderWord(b, 3) == |Decode(b).value.samples| && HeaderWord(b, 16) == TemplateCrc(b)
  {
    SamplesWriteBack(b[HEADER_BYTES..], HeaderWord(b, 3), Decode(b).value.samples);
  }

  lemma AcceptedIsImage(b: seq<u8>, e: Enrolled)
    requires Coherent(e) && HeaderOk(b) && Assemble(b, e.samples) == e && HeaderWord(b, 3) == |e.samples|
    requires b[HEADER_BYTES..] == SamplesBytes(e.samples)
    ensures b == Image(e, HeaderWord(b, 16))
  {
    HeaderWritesBack(b, e);
    JoinHeader(b);
  }

  lemma JoinHeader(b: seq<u8>)
    requires |b| >= HEADER_BYTES
    ensures b == b[..8] + b[8..HEADER_BYTES] + b[HEADER_BYTES..]
  {
  }

  // Any accepted byte string is the canonical encoding of what was read.
  lemma EncodeInvertsDecode(b: seq<u8>)
    requires Decode(b).Ok?
    ensures Coherent(Decode(b).value) && Encode(Decode(b).value) == b
  {
    var e := Decode(b).value;
    AcceptedIsCoherent(b);
    AcceptedIsImage(b, e);
    BlankedImage(e, HeaderWord(b, 16));
    BlankedImage(e, 0);
  }
}
