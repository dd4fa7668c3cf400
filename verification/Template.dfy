// The enrollment record and its portable binary format.
module Template {
  import opened Words
  import opened Sizes
  import opened LittleEndian
  import Crc

  const MAX_SAMPLES: nat := 12
  const PIXELS: nat := 5120

  const FORMAT_VERSION: u32 := 1
  const HEADER_BYTES: nat := 80
  const SAMPLE_HEADER_BYTES: nat := 24
  const CRC_OFFSET: nat := 72
  const MAX_BYTES: nat := 1024 * 1024

  // "GX5125T1"
  const MAGIC: seq<u8> := [0x47, 0x58, 0x35, 0x31, 0x32, 0x35, 0x54, 0x31]

  datatype Error = Argument | State | Feature | Format | Integrity | Capacity

  datatype Config = Config(targetSamples: u32, minimumQuality: u32, minimumCoverage: u32, minimumRecords: u32) {
    predicate Valid() {
      && 0 < targetSamples <= MAX_SAMPLES
      && minimumQuality <= 100 && minimumCoverage <= 100
      && 0 < minimumRecords <= MAX_RECORDS
    }
  }

  datatype Metrics = Metrics(quality: u32, coverage: u32, maskCoverage: u32) {
    predicate InRange() { quality <= 100 && coverage <= 100 && maskCoverage <= Q16_ONE }
  }

  datatype Sample = Sample(recordCount: u32, records: seq<u8>, packedMap: seq<u8>, metrics: Metrics) {
    // What the writer insists on.
    predicate Sized() {
      && 0 < recordCount <= MAX_RECORDS && |records| == RECORD_BYTES * recordCount
      && 0 < |packedMap| <= PIXELS
    }
  }

  datatype Enrolled = Enrolled(
    config: Config, samples: seq<Sample>,
    totalRecords: u32, minimumRecords: u32, maximumRecords: u32,
    minimumQuality: u32, minimumCoverage: u32,
    maximumPairSimilarity: u32, minimumPairNovelty: u32)

  // ---------- aggregates, recomputed from the samples ----------

  function TotalRecords(ss: seq<Sample>): nat {
    if ss == [] then 0 else TotalRecords(ss[..|ss| - 1]) + ss[|ss| - 1].recordCount as nat
  }

  // Smallest value of a measure; zero when there is no sample.
  function Least(ss: seq<Sample>, f: Sample -> u32): u32 {
    if ss == [] then 0
    else
      var last := f(ss[|ss| - 1]);
      if |ss| == 1 then last else Min(Least(ss[..|ss| - 1], f), last)
  }

  function Greatest(ss: seq<Sample>, f: Sample -> u32): u32 {
    if ss == [] then 0
    else
      var last := f(ss[|ss| - 1]);
      if |ss| == 1 then last else Max(Greatest(ss[..|ss| - 1], f), last)
  }

  function RecordCount(s: Sample): u32 { s.recordCount }
  function Quality(s: Sample): u32 { s.metrics.quality }
  function Coverage(s: Sample): u32 { s.metrics.coverage }

  predicate AggregatesMatch(e: Enrolled) {
    && e.totalRecords == TotalRecords(e.samples)
    && e.minimumRecords == Least(e.samples, RecordCount)
    && e.maximumRecords == Greatest(e.samples, RecordCount)
    && e.minimumQuality == Least(e.samples, Quality)
    && e.minimumCoverage == Least(e.samples, Coverage)
  }

  // ---------- writing ----------

  // What serialization checks.
  predicate Writable(e: Enrolled) {
    && 0 < |e.samples| <= MAX_SAMPLES && |e.samples| == e.config.targetSamples
    && forall s :: s in e.samples ==> s.Sized()
  }

  function SampleWords(s: Sample): seq<u32>
    requires s.Sized()
  {
    [s.recordCount, |s.records|, |s.packedMap|, s.metrics.quality, s.metrics.coverage, s.metrics.maskCoverage]
  }

  function SampleBytes(s: Sample): (b: seq<u8>)
    requires s.Sized()
    ensures |b| == SampleSize(s)
  {
    Bytes(SampleWords(s)) + s.records + s.packedMap
  }

  function SampleSize(s: Sample): nat { SAMPLE_HEADER_BYTES + |s.records| + |s.packedMap| }

  function SamplesSize(ss: seq<Sample>): nat {
    if ss == [] then 0 else SampleSize(ss[0]) + SamplesSize(ss[1..])
  }

  function SamplesBytes(ss: seq<Sample>): (b: seq<u8>)
    requires forall s :: s in ss ==> s.Sized()
    ensures |b| == SamplesSize(ss)
  {
    if ss == [] then [] else SampleBytes(ss[0]) + SamplesBytes(ss[1..])
  }

  const MAX_SAMPLE_SIZE: nat := SAMPLE_HEADER_BYTES + RECORD_BYTES * MAX_RECORDS + PIXELS

  lemma {:induction false} SamplesFit(ss: seq<Sample>)
    requires forall s :: s in ss ==> s.Sized()
    ensures SamplesSize(ss) <= MAX_SAMPLE_SIZE * |ss|
  {
    if ss != [] {
      assert ss[0] in ss;
      SamplesFit(ss[1..]);
    }
  }

  // The size limit of the format is never what stops an enrollment.
  lemma WritableFits(e: Enrolled)
    requires Writable(e)
    ensures HEADER_BYTES + SamplesSize(e.samples) <= MAX_BYTES
  {
    SamplesFit(e.samples);
  }

  function TotalSize(e: Enrolled): (n: u32)
    requires Writable(e)
    ensures HEADER_BYTES < n <= MAX_BYTES
  {
    WritableFits(e);
    assert e.samples[0] in e.samples;
    HEADER_BYTES + SamplesSize(e.samples)
  }

  function HeaderWords(e: Enrolled, size: u32, crc: u32): (ws: seq<u32>)
    requires |e.samples| <= MAX_SAMPLES
    ensures |ws| == 18
  {
    [FORMAT_VERSION, HEADER_BYTES, size, |e.samples|,
     e.config.targetSamples, e.config.minimumQuality, e.config.minimumCoverage, e.config.minimumRecords,
     e.totalRecords, e.minimumRecords, e.maximumRecords, e.minimumQuality, e.minimumCoverage,
     e.maximumPairSimilarity, e.minimumPairNovelty, 0, crc, 0]
  }

  function Image(e: Enrolled, crc: u32): (b: seq<u8>)
    requires Writable(e)
    ensures |b| == TotalSize(e)
  {
    MAGIC + Bytes(HeaderWords(e, TotalSize(e), crc)) + SamplesBytes(e.samples)
  }

  // The checksum is taken with its own field read as zero.
  function Blanked(b: seq<u8>): (c: seq<u8>)
    requires |b| >= HEADER_BYTES
    ensures |c| == |b|
  {
    b[..CRC_OFFSET] + Zeros(4) + b[CRC_OFFSET + 4..]
  }

  function TemplateCrc(b: seq<u8>): u32
    requires |b| >= HEADER_BYTES
  {
    Crc.Crc32(Blanked(b))
  }

  function Encode(e: Enrolled): (b: seq<u8>)
    requires Writable(e)
    ensures |b| == TotalSize(e)
  {
    Image(e, TemplateCrc(Image(e, 0)))
  }

  // ---------- reading ----------

  function HeaderWord(b: seq<u8>, i: nat): u32
    requires i < 18 && |b| >= HEADER_BYTES
  {
    ReadWord(b, 8 + 4 * i)
  }

  predicate HeaderOk(b: seq<u8>) {
    && HEADER_BYTES <= |b| <= MAX_BYTES
    && b[..8] == MAGIC
    && HeaderWord(b, 0) == FORMAT_VERSION && HeaderWord(b, 1) == HEADER_BYTES && HeaderWord(b, 2) == |b|
    && HeaderWord(b, 15) == 0 && HeaderWord(b, 17) == 0
  }

  function ConfigOf(b: seq<u8>): Config
    requires |b| >= HEADER_BYTES
  {
    Config(HeaderWord(b, 4), HeaderWord(b, 5), HeaderWord(b, 6), HeaderWord(b, 7))
  }

  predicate CountsOk(b: seq<u8>)
    requires |b| >= HEADER_BYTES
  {
    && 0 < HeaderWord(b, 3) <= MAX_SAMPLES && HeaderWord(b, 3) == HeaderWord(b, 4)
    && ConfigOf(b).Valid()
    && HeaderWord(b, 13) <= Q16_ONE && HeaderWord(b, 14) <= Q16_ONE
  }

  // One sample at the front of the remaining bytes.
  function SampleAt(s: seq<u8>): (r: Option<Sample>)
    ensures r.Some? ==> r.value.Sized() && r.value.metrics.InRange() && SampleSize(r.value) <= |s|
  {
    if |s| < SAMPLE_HEADER_BYTES then None
    else
      var count, recordBytes, mapBytes := ReadWord(s, 0), ReadWord(s, 4), ReadWord(s, 8);
      var metrics := Metrics(ReadWord(s, 12), ReadWord(s, 16), ReadWord(s, 20));
      if count == 0 || count > MAX_RECORDS || recordBytes as nat != count as nat * RECORD_BYTES
         || mapBytes == 0 || mapBytes > PIXELS || !metrics.InRange()
         || SAMPLE_HEADER_BYTES + recordBytes as nat + mapBytes as nat > |s|
      then None
      else
        var mapStart: nat := SAMPLE_HEADER_BYTES + recordBytes;
        Some(Sample(count, s[SAMPLE_HEADER_BYTES..mapStart], s[mapStart..mapStart + mapBytes], metrics))
  }

  // Exactly n samples and nothing after them.
  function SamplesIn(s: seq<u8>, n: nat): (r: Option<seq<Sample>>)
    ensures r.Some? ==> |r.value| == n
    decreases n
  {
    if n == 0 then if s == [] then Some([]) else None
    else
      match SampleAt(s)
      case None => None
      case Some(x) =>
        match SamplesIn(s[SampleSize(x)..], n - 1)
        case None => None
        case Some(xs) => Some([x] + xs)
  }

  function Assemble(b: seq<u8>, samples: seq<Sample>): Enrolled
    requires |b| >= HEADER_BYTES
  {
    Enrolled(ConfigOf(b), samples, HeaderWord(b, 8), HeaderWord(b, 9), HeaderWord(b, 10),
             HeaderWord(b, 11), HeaderWord(b, 12), HeaderWord(b, 13), HeaderWord(b, 14))
  }

  function Decode(b: seq<u8>): Result<Enrolled, Error>
  {
    if !HeaderOk(b) then Err(Format)
    else if HeaderWord(b, 16) != TemplateCrc(b) then Err(Integrity)
    else if !CountsOk(b) then Err(Format)
    else
      match SamplesIn(b[HEADER_BYTES..], HeaderWord(b, 3))
      case None => Err(Format)
      case Some(samples) =>
        var e := Assemble(b, samples);
        if AggregatesMatch(e) then Ok(e) else Err(Format)
  }
}
