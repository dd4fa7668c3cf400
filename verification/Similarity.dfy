// How alike two captures are: a Q16 blend of two Jaccard ratios, one over the
// bits of the packed maps and one over the grid cells that hold records.
module Similarity {
  import opened Words
  import opened Sizes
  import opened Arithmetic
  import opened Template
  import Descriptor

  const GRID_COLUMNS: nat := 10
  const GRID_ROWS: nat := 8
  const GRID_CELLS: nat := 80
  const COLUMNS: int := 80
  const ROWS: int := 64

  function Jaccard(intersection: nat, union: nat): (q: nat)
    requires intersection <= union
    ensures q <= Q16_ONE
    ensures intersection == union ==> q == Q16_ONE
  {
    if union == 0 then Q16_ONE
    else
      JaccardBound(intersection, union);
      intersection * Q16_ONE / union
  }

  lemma JaccardBound(a: nat, b: nat)
    requires a <= b && b > 0
    ensures a * Q16_ONE / b <= Q16_ONE
    ensures a == b ==> a * Q16_ONE / b == Q16_ONE
  {
    FloorAtMost(a * Q16_ONE, b, Q16_ONE);
    if a == b { QuotientIs(a * Q16_ONE, b, Q16_ONE, 0); }
  }

  // ---------- packed maps ----------

  // Number of bits set in both numbers, and in at least one.
  function Both(x: nat, y: nat): nat
    decreases x + y
  {
    if x == 0 && y == 0 then 0 else (if x % 2 == 1 && y % 2 == 1 then 1 else 0) + Both(x / 2, y / 2)
  }

  function Either(x: nat, y: nat): nat
    decreases x + y
  {
    if x == 0 && y == 0 then 0 else (if x % 2 == 1 || y % 2 == 1 then 1 else 0) + Either(x / 2, y / 2)
  }

  lemma {:induction false} BitCounts(x: nat, y: nat)
    ensures Both(x, y) <= Either(x, y)
    ensures Both(x, y) == Both(y, x) && Either(x, y) == Either(y, x)
    ensures x == y ==> Both(x, y) == Either(x, y)
    decreases x + y
  {
    if x != 0 || y != 0 { BitCounts(x / 2, y / 2); }
  }

  // A way of counting that takes the lowest bits of two numbers and goes on
  // with their halves.
  datatype Tally<!T(!new)> = Tally(value: T -> nat, low: T -> nat, half: T -> T, count: (T, T) -> nat,
                                   bit: (nat, nat) -> nat) {
    ghost predicate Splits(x: T) { value(x) == low(x) + 2 * value(half(x)) && low(x) <= 1 }

    ghost predicate Counts(x: T, y: T) {
      count(x, y) == if value(x) == 0 && value(y) == 0 then 0 else bit(low(x), low(y)) + count(half(x), half(y))
    }

    ghost predicate Valid() { (forall x :: Splits(x)) && forall x, y :: Counts(x, y) }
  }

  function BothBits(a: nat, b: nat): nat { if a == 1 && b == 1 then 1 else 0 }
  function EitherBit(a: nat, b: nat): nat { if a == 1 || b == 1 then 1 else 0 }

  lemma BothTallies<T(!new)>(t: Tally<T>, x: T, y: T)
    requires t.Valid() && t.bit == BothBits
    ensures Both(t.value(x), t.value(y)) == t.count(x, y)
    decreases t.value(x) + t.value(y)
  {
    assert t.Splits(x) && t.Splits(y) && t.Counts(x, y);
    if t.value(x) + t.value(y) > 0 { BothTallies(t, t.half(x), t.half(y)); }
  }

  lemma EitherTallies<T(!new)>(t: Tally<T>, x: T, y: T)
    requires t.Valid() && t.bit == EitherBit
    ensures Either(t.value(x), t.value(y)) == t.count(x, y)
    decreases t.value(x) + t.value(y)
  {
    assert t.Splits(x) && t.Splits(y) && t.Counts(x, y);
    if t.value(x) + t.value(y) > 0 { EitherTallies(t, t.half(x), t.half(y)); }
  }

  function Number(x: bv8): nat { x as nat }
  function Low(x: bv8): nat { Descriptor.BitAt(x, 0) }
  function Half(x: bv8): bv8 { x >> 1 }
  function CommonOnes(x: bv8, y: bv8): nat { Descriptor.Ones(x & y) }
  function CombinedOnes(x: bv8, y: bv8): nat { Descriptor.Ones(x | y) }

  lemma NextNumber(b: bv8)
    requires Number(b) < 255
    ensures Number(b + 1) == Number(b) + 1
  {
  }

  // A byte as a bit vector.
  function Byte(x: u8): (b: bv8)
    ensures Number(b) == x
  {
    if x == 0 then 0
    else
      NextNumber(Byte(x - 1));
      Byte(x - 1) + 1
  }

  lemma HalfByte(x: bv8)
    ensures Number(x) == Low(x) + 2 * Number(Half(x)) && Low(x) <= 1
    ensures Number(x) == 0 <==> x == 0
  {
  }

  lemma OnesOfHalf(x: bv8)
    ensures Descriptor.Ones(x) == Low(x) + Descriptor.Ones(Half(x))
    ensures Descriptor.Ones(0) == 0
  {
  }

  lemma HalfOfBits(x: bv8, y: bv8)
    ensures Half(x & y) == Half(x) & Half(y) && Half(x | y) == Half(x) | Half(y)
    ensures Low(x & y) == BothBits(Low(x), Low(y)) && Low(x | y) == EitherBit(Low(x), Low(y))
  {
  }

  lemma OnesTally(x: bv8, y: bv8)
    ensures CommonOnes(x, y) == BothBits(Low(x), Low(y)) + CommonOnes(Half(x), Half(y))
    ensures CombinedOnes(x, y) == EitherBit(Low(x), Low(y)) + CombinedOnes(Half(x), Half(y))
    ensures CommonOnes(0, 0) == CombinedOnes(0, 0) == 0
  {
    HalfOfBits(x, y);
    OnesOfHalf(x & y);
    OnesOfHalf(x | y);
  }

  const COMMON: Tally<bv8> := Tally(Number, Low, Half, CommonOnes, BothBits)
  const COMBINED: Tally<bv8> := Tally(Number, Low, Half, CombinedOnes, EitherBit)

  lemma SplitsHold(x: bv8)
    ensures COMMON.Splits(x) && COMBINED.Splits(x)
  {
    HalfByte(x);
  }

  lemma CountsHold(x: bv8, y: bv8)
    ensures COMMON.Counts(x, y) && COMBINED.Counts(x, y)
  {
    HalfByte(x);
    HalfByte(y);
    OnesTally(x, y);
  }

  lemma TalliesHold()
    ensures COMMON.Valid() && COMBINED.Valid()
  {
    forall x ensures COMMON.Splits(x) && COMBINED.Splits(x) { SplitsHold(x); }
    forall x, y ensures COMMON.Counts(x, y) && COMBINED.Counts(x, y) { CountsHold(x, y); }
  }

  // The two counts of a byte are the ones of its conjunction and disjunction.
  lemma {:induction false} CountsAreOnes(x: u8, y: u8)
    ensures Both(x, y) == CommonOnes(Byte(x), Byte(y))
    ensures Either(x, y) == CombinedOnes(Byte(x), Byte(y))
  {
    TalliesHold();
    BothTallies(COMMON, Byte(x), Byte(y));
    EitherTallies(COMBINED, Byte(x), Byte(y));
  }

  // One byte of the comparison loop.
  method CountByte(x: u8, y: u8) returns (common: nat, combined: nat)
    ensures common == Both(x, y) && combined == Either(x, y)
  {
    CountsAreOnes(x, y);
    common := Descriptor.PopCount8(Byte(x) & Byte(y));
    combined := Descriptor.PopCount8(Byte(x) | Byte(y));
  }

  function BothIn(a: seq<u8>, b: seq<u8>, n: nat): nat
    requires n <= |a| && n <= |b|
  {
    if n == 0 then 0 else BothIn(a, b, n - 1) + Both(a[n - 1], b[n - 1])
  }

  function EitherIn(a: seq<u8>, b: seq<u8>, n: nat): nat
    requires n <= |a| && n <= |b|
  {
    if n == 0 then 0 else EitherIn(a, b, n - 1) + Either(a[n - 1], b[n - 1])
  }

  lemma {:induction false} MapCounts(a: seq<u8>, b: seq<u8>, n: nat)
    requires n <= |a| && n <= |b|
    ensures BothIn(a, b, n) <= EitherIn(a, b, n)
    ensures BothIn(a, b, n) == BothIn(b, a, n) && EitherIn(a, b, n) == EitherIn(b, a, n)
    ensures a == b ==> BothIn(a, b, n) == EitherIn(a, b, n)
    decreases n
  {
    if n > 0 {
      MapCounts(a, b, n - 1);
      BitCounts(a[n - 1], b[n - 1]);
    }
  }

  function MapSimilarity(a: seq<u8>, b: seq<u8>): (q: nat)
    requires |a| == |b|
    ensures q <= Q16_ONE
  {
    MapCounts(a, b, |a|);
    Jaccard(BothIn(a, b, |a|), EitherIn(a, b, |a|))
  }

  // ---------- record grid ----------

  // A signed little-endian coordinate in 1/256 pixels, cut to whole pixels and
  // clamped into the image.
  function Pixel(low: u8, high: u8, limit: int): (p: int)
    requires limit > 0
    ensures 0 <= p < limit
  {
    var p := TruncDiv(WrapI16(low as int + 0x100 * high as int), 256);
    if p < 0 then 0 else if p >= limit then limit - 1 else p
  }

  function CellOf(records: seq<u8>, i: nat): (c: nat)
    requires RECORD_BYTES * i + 6 <= |records|
    ensures c < GRID_CELLS
  {
    var r := RECORD_BYTES * i;
    var column := Min(Pixel(records[r + 2], records[r + 3], COLUMNS) / 8, GRID_COLUMNS - 1);
    var row := Min(Pixel(records[r + 4], records[r + 5], ROWS) / 8, GRID_ROWS - 1);
    row * GRID_COLUMNS + column
  }

  function Cells(records: seq<u8>, count: nat): (s: set<nat>)
    requires RECORD_BYTES * count <= |records|
    ensures forall c :: c in s ==> c < GRID_CELLS
  {
    if count == 0 then {} else Cells(records, count - 1) + {CellOf(records, count - 1)}
  }

  function GridSimilarity(a: set<nat>, b: set<nat>): (q: nat)
    ensures q <= Q16_ONE
  {
    SubsetSize(a * b, a + b);
    Jaccard(|a * b|, |a + b|)
  }

  // ---------- whole captures ----------

  predicate Comparable(a: Sample, b: Sample) {
    && |a.packedMap| == |b.packedMap|
    && |a.records| == RECORD_BYTES * a.recordCount && |b.records| == RECORD_BYTES * b.recordCount
  }

  // Only comparable captures are ever compared; the value for others is unused.
  function CaptureSimilarity(a: Sample, b: Sample): (q: u32)
    ensures q <= Q16_ONE
  {
    if !Comparable(a, b) then 0
    else
      var packed := MapSimilarity(a.packedMap, b.packedMap);
      var grid := GridSimilarity(Cells(a.records, a.recordCount), Cells(b.records, b.recordCount));
      (grid * 3 + packed) / 4
  }

  // The measure does not depend on which capture came first, and two captures
  // with the same contents are as alike as can be.
  lemma SimilaritySymmetric(a: Sample, b: Sample)
    ensures CaptureSimilarity(a, b) == CaptureSimilarity(b, a)
    ensures Comparable(a, b) && a.records == b.records && a.packedMap == b.packedMap ==>
              CaptureSimilarity(a, b) == Q16_ONE
  {
    if Comparable(a, b) {
      MapCounts(a.packedMap, b.packedMap, |a.packedMap|);
      var x, y := Cells(a.records, a.recordCount), Cells(b.records, b.recordCount);
      assert x * y == y * x && x + y == y + x;
      assert x == y ==> x * y == x + y;
    }
  }

  // ---------- the loops ----------

  method BitsetJaccard(left: seq<u8>, right: seq<u8>, bytes: nat) returns (q: nat)
    requires bytes == |left| == |right|
    ensures q == MapSimilarity(left, right)
  {
    var intersection, union := 0, 0;
    for index := 0 to bytes
      invariant intersection == BothIn(left, right, index) && union == EitherIn(left, right, index)
    {
      var common, combined := CountByte(left[index], right[index]);
      intersection, union := intersection + common, union + combined;
    }
    if union == 0 {
      return Q16_ONE;
    }
    q := intersection * Q16_ONE / union;
  }

  method BuildRecordGrid(records: seq<u8>, count: nat, grid: array<bool>)
    requires RECORD_BYTES * count <= |records| && grid.Length == GRID_CELLS
    modifies grid
    ensures forall c :: 0 <= c < GRID_CELLS ==> (grid[c] <==> c in Cells(records, count))
  {
    forall c | 0 <= c < GRID_CELLS { grid[c] := false; }
    for index := 0 to count
      invariant forall c :: 0 <= c < GRID_CELLS ==> (grid[c] <==> c in Cells(records, index))
    {
      grid[CellOf(records, index)] := true;
    }
  }

  function Below(s: set<nat>, n: nat): set<nat> { set c | c in s && c < n }

  lemma BelowStep(s: set<nat>, n: nat)
    ensures |Below(s, n + 1)| == |Below(s, n)| + if n in s then 1 else 0
  {
    assert Below(s, n + 1) == if n in s then Below(s, n) + {n} else Below(s, n);
  }

  method GridJaccard(leftRecords: seq<u8>, leftCount: nat, rightRecords: seq<u8>, rightCount: nat) returns (q: nat)
    requires RECORD_BYTES * leftCount <= |leftRecords| && RECORD_BYTES * rightCount <= |rightRecords|
    ensures q == GridSimilarity(Cells(leftRecords, leftCount), Cells(rightRecords, rightCount))
  {
    var left, right := new bool[GRID_CELLS], new bool[GRID_CELLS];
    BuildRecordGrid(leftRecords, leftCount, left);
    BuildRecordGrid(rightRecords, rightCount, right);
    q := CountCells(left, right, Cells(leftRecords, leftCount), Cells(rightRecords, rightCount));
  }

  method CountCells(left: array<bool>, right: array<bool>, ghost a: set<nat>, ghost b: set<nat>) returns (q: nat)
    requires left.Length == right.Length == GRID_CELLS
    requires forall c :: 0 <= c < GRID_CELLS ==> (left[c] <==> c in a) && (right[c] <==> c in b)
    requires forall c :: c in a + b ==> c < GRID_CELLS
    ensures q == GridSimilarity(a, b)
  {
    var intersection, union := 0, 0;
    for index := 0 to GRID_CELLS
      invariant intersection == |Below(a * b, index)| && union == |Below(a + b, index)|
    {
      BelowStep(a * b, index);
      BelowStep(a + b, index);
      if left[index] && right[index] { intersection := intersection + 1; }
      if left[index] || right[index] { union := union + 1; }
    }
    assert Below(a * b, GRID_CELLS) == a * b && Below(a + b, GRID_CELLS) == a + b;
    if union == 0 {
      return Q16_ONE;
    }
    q := intersection * Q16_ONE / union;
  }

  method MeasureSimilarity(sample: Sample, view: Sample) returns (q: u32)
    requires Comparable(sample, view)
    ensures q == CaptureSimilarity(sample, view)
  {
    var packed := BitsetJaccard(sample.packedMap, view.packedMap, |view.packedMap|);
    var grid := GridJaccard(sample.records, sample.recordCount, view.records, view.recordCount);
    q := (grid * 3 + packed) / 4;
  }

  // ---------- what the blend weighs ----------

  // Grid three quarters, maps one quarter: with equal grids and maps that share
  // no bit, and the other way round.
  lemma BlendWeights(a: Sample, b: Sample)
    requires Comparable(a, b)
    ensures var ga, gb := Cells(a.records, a.recordCount), Cells(b.records, b.recordCount);
            var both := BothIn(a.packedMap, b.packedMap, |a.packedMap|);
            var either := EitherIn(a.packedMap, b.packedMap, |a.packedMap|);
            && (ga == gb && both == 0 && either > 0 ==> CaptureSimilarity(a, b) == 49152)
            && (ga * gb == {} && ga + gb != {} && both == either ==> CaptureSimilarity(a, b) == 16384)
  {
    var ga, gb := Cells(a.records, a.recordCount), Cells(b.records, b.recordCount);
    MapEnds(a.packedMap, b.packedMap);
    GridEnds(ga, gb);
  }

  lemma MapEnds(a: seq<u8>, b: seq<u8>)
    requires |a| == |b|
    ensures BothIn(a, b, |a|) == 0 && EitherIn(a, b, |a|) > 0 ==> MapSimilarity(a, b) == 0
    ensures BothIn(a, b, |a|) == EitherIn(a, b, |a|) ==> MapSimilarity(a, b) == Q16_ONE
  {
    MapCounts(a, b, |a|);
  }

  lemma GridEnds(ga: set<nat>, gb: set<nat>)
    ensures ga == gb ==> GridSimilarity(ga, gb) == Q16_ONE
    ensures ga * gb == {} && ga + gb != {} ==> GridSimilarity(ga, gb) == 0
  {
    if ga == gb { assert ga * gb == ga && ga + gb == ga; }
    if ga + gb != {} {
      var c :| c in ga + gb;
      assert |ga + gb| > 0;
    }
  }

  // Cells are 8 pixels wide and high, ten to a row; the column comes from bytes
  // 2 and 3 of a record, the row from bytes 4 and 5.
  lemma CellOfPixel(records: seq<u8>, i: nat, x: nat, y: nat, fx: u8, fy: u8)
    requires RECORD_BYTES * i + 6 <= |records| && x < 80 && y < 64
    requires records[RECORD_BYTES * i + 2] == fx && records[RECORD_BYTES * i + 3] == x
    requires records[RECORD_BYTES * i + 4] == fy && records[RECORD_BYTES * i + 5] == y
    ensures CellOf(records, i) == y / 8 * 10 + x / 8
  {
    WholePixel(fx, x, 80);
    WholePixel(fy, y, 64);
  }

  lemma WholePixel(low: u8, high: u8, limit: int)
    requires high < limit <= 128
    ensures Pixel(low, high, limit) == high
  {
    var v := low as int + 0x100 * high as int;
    assert v / 256 == high;
    NotNegative(v);
  }

  lemma NotNegative(v: nat)
    requires v < 0x8000
    ensures WrapI16(v) as int == v
  {
  }
}
