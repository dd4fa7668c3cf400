// The orientation histogram: 36 bins of 32-bit counters filled from a window,
// smoothed around the circle, and searched for the first maximum.
module Orientation {
  import opened Words
  import opened Arithmetic

  const BINS: nat := 36
  const HALF: nat := 18
  const ANGLE_PERIOD: int := 0x6488
  const ANGLE_HALF: int := 0x3244
  const MAX_ANGLE: int := 13940

  // ---------- gaussian weights ----------

  const CUTOFF: nat := 0x6_ee76

  function Squared(x: u32): u32 { WrapU32(x * x) }
  function TermA(scaled: u32): u32 { WrapU32(scaled / 5 + 0x1_0000) / 0x100 }
  function TermB(scaled: u32): u32 { WrapU32(scaled / 6 + 0x8000) / 0x100 }
  function Fourth(square: u32): u32 { Squared(square / 0x100) / 0x100 }
  function PartA(fourth: u32, termA: u32): u32 { WrapU32(fourth * termA) / 0x0c00 }
  function PartB(square: u32, termB: u32): u32 { WrapU32(termB * square) / 0x8000 }

  function Polynomial(scaled: u32): u32 {
    var square := Squared(scaled / 0x100);
    WrapU32(PartA(Fourth(square), TermA(scaled)) as int + 0x200 + PartB(square, TermB(scaled)) as int + scaled / 0x80)
  }

  lemma NoWrap(x: nat)
    requires x < 0x1_0000_0000
    ensures WrapU32(x) as int == x
  {
  }

  lemma SquaredAtMost(x: u32, m: nat)
    requires x <= m <= 0xffff
    ensures Squared(x) as int == x * x <= m * m
  {
    ProductAtMost(x, x, m, m);
    ProductAtMost(m, m, 0xffff, 0xffff);
    NoWrap(x * x);
  }

  lemma PartsAtMost(square: u32, termA: u32, termB: u32)
    requires square <= 1774 * 1774 && termA <= 610 && termB <= 423
    ensures PartA(Fourth(square), termA) <= 120_000 && PartB(square, termB) <= 41_000
  {
    SquaredAtMost(square / 0x100, 12293);
    ProductAtMost(Fourth(square), termA, 590_304, 610);
    NoWrap(Fourth(square) * termA);
    ProductAtMost(termB, square, 423, 1774 * 1774);
    NoWrap(termB * square);
  }

  lemma TermsAtMost(scaled: u32)
    requires scaled < CUTOFF
    ensures TermA(scaled) <= 610 && TermB(scaled) <= 423
  {
    NoWrap(scaled / 5 + 0x1_0000);
    NoWrap(scaled / 6 + 0x8000);
  }

  lemma SumInRange(a: u32, b: u32, c: nat)
    requires a <= 120_000 && b <= 41_000 && c <= 4_000
    ensures 0x200 <= WrapU32(a as int + 0x200 + b as int + c) < 0x2_9000
  {
    NoWrap(a + 0x200 + b + c);
  }

  // Below the cutoff the divisor neither wraps nor gets small.
  lemma PolynomialInRange(scaled: u32)
    requires scaled < CUTOFF
    ensures 0x200 <= Polynomial(scaled) < 0x2_9000
  {
    var square, termA, termB := Squared(scaled / 0x100), TermA(scaled), TermB(scaled);
    SquaredAtMost(scaled / 0x100, 1774);
    TermsAtMost(scaled);
    PartsAtMost(square, termA, termB);
    SumInRange(PartA(Fourth(square), termA), PartB(square, termB), scaled / 0x80);
  }

  function Weight(scaled: u32): u32 {
    if scaled < CUTOFF then
      PolynomialInRange(scaled);
      WeightFits(Polynomial(scaled));
      (Polynomial(scaled) / 2 + 0x4_0000) / Polynomial(scaled)
    else 0
  }

  lemma WeightFits(p: nat)
    requires p >= 0x200
    ensures 0 <= (p / 2 + 0x4_0000) / p <= 512
  {
    var x := p / 2 + 0x4_0000;
    var q := x / p;
    assert p * q <= x;
    assert p * 513 > x;
    assert q >= 513 ==> p * (q - 513) >= 0;
  }

  // A weight is at most 512: a sample never counts more than twice.
  lemma WeightAtMost(scaled: u32)
    ensures Weight(scaled) <= 512
  {
    if scaled < CUTOFF {
      PolynomialInRange(scaled);
      WeightFits(Polynomial(scaled));
    }
  }

  function WeightAt(row: nat, column: nat, coefficient: u32): u32 {
    Weight(WrapU32(WrapU32(row * row + column * column) as int * coefficient as int))
  }

  lemma WeightSymmetric(row: nat, column: nat, coefficient: u32)
    ensures WeightAt(row, column, coefficient) == WeightAt(column, row, coefficient)
  {
  }

  // Cells whose smaller index is below `row`, or is `row` with the other one
  // below `column`.
  ghost predicate MirroredTo(weights: array2<u32>, coefficient: u32, row: nat, column: nat)
    reads weights
  {
    forall i: nat, j: nat :: i < weights.Length0 && j < weights.Length1
      && (Min(i, j) < row || (Min(i, j) == row && Max(i, j) < column))
      ==> weights[i, j] == WeightAt(i, j, coefficient)
  }

  // Fills the upper triangle and mirrors it.
  method GaussianWeights(weights: array2<u32>, coefficient: u32)
    requires weights.Length0 == weights.Length1
    modifies weights
    ensures forall i, j :: 0 <= i < weights.Length0 && 0 <= j < weights.Length1 ==>
              weights[i, j] == WeightAt(i, j, coefficient)
  {
    for row := 0 to weights.Length0
      invariant MirroredTo(weights, coefficient, row, row)
    {
      for column := row to weights.Length0
        invariant MirroredTo(weights, coefficient, row, column)
      {
        PutWeight(weights, coefficient, row, column);
      }
    }
  }

  // One weight, in both places.
  method PutWeight(weights: array2<u32>, coefficient: u32, row: nat, column: nat)
    requires weights.Length0 == weights.Length1 && row <= column < weights.Length0
    requires MirroredTo(weights, coefficient, row, column)
    modifies weights
    ensures MirroredTo(weights, coefficient, row, column + 1)
  {
    WeightSymmetric(row, column, coefficient);
    var value := WeightAt(row, column, coefficient);
    weights[row, column] := value;
    weights[column, row] := value;
  }

  // ---------- bins ----------

  function BinOf(angle: int): int {
    var bin := TruncDiv(angle * -36 + 0x7_43d4, ANGLE_PERIOD);
    if bin >= BINS then 0 else bin
  }

  // The index is in range exactly up to angle 13940, hence for all normalised
  // angles.
  lemma BinInRange(angle: i16)
    ensures 0 <= BinOf(angle) < BINS <==> angle <= MAX_ANGLE
    ensures -ANGLE_HALF <= angle <= ANGLE_HALF ==> 0 <= BinOf(angle) < BINS
  {
  }

  datatype Vote = Vote(bin: nat, weight: u32)

  function Turn(bin: nat, offset: nat): (b: nat)
    ensures b < BINS
  {
    (bin + offset) % BINS
  }

  lemma TurnIs(bin: nat, offset: nat)
    requires bin < BINS && offset < BINS
    ensures Turn(bin, offset) == if bin + offset < BINS then bin + offset else bin + offset - BINS
  {
  }

  function Opposite(bin: nat): nat { Turn(bin, HALF) }

  // What a vote adds to a bin.
  function Share(v: Vote, duplicate: bool, bin: nat): int {
    (if v.bin == bin then v.weight as int else 0) + (if duplicate && Opposite(v.bin) == bin then v.weight as int else 0)
  }

  function Tally(votes: seq<Vote>, duplicate: bool, bin: nat): int {
    if votes == [] then 0
    else Tally(votes[..|votes| - 1], duplicate, bin) + Share(votes[|votes| - 1], duplicate, bin)
  }

  ghost predicate InBins(votes: seq<Vote>) { forall v :: v in votes ==> v.bin < BINS }

  lemma OppositeTwice(bin: nat)
    requires bin < BINS
    ensures Opposite(Opposite(bin)) == bin
  {
    TurnIs(bin, HALF);
    TurnIs(Opposite(bin), HALF);
  }

  lemma ShareSymmetric(v: Vote, bin: nat)
    requires v.bin < BINS && bin < BINS
    ensures Share(v, true, bin) == Share(v, true, Opposite(bin))
  {
    OppositeTwice(bin);
    OppositeTwice(v.bin);
  }

  // With duplication opposite bins hold the same, whatever the votes.
  lemma {:induction false} TallySymmetric(votes: seq<Vote>, bin: nat)
    requires InBins(votes) && bin < BINS
    ensures Tally(votes, true, bin) == Tally(votes, true, Opposite(bin))
    decreases |votes|
  {
    if votes != [] {
      assert votes[|votes| - 1] in votes;
      TallySymmetric(votes[..|votes| - 1], bin);
      ShareSymmetric(votes[|votes| - 1], bin);
    }
  }

  // ---------- smoothing and the maximum ----------

  type Bins = s: seq<u32> | |s| == BINS witness seq(BINS, _ => 0)

  function Around(raw: Bins, bin: nat, offset: nat): int { raw[Turn(bin, offset)] as int }

  function SmoothedAt(raw: Bins, bin: nat): u32 {
    WrapU32(Around(raw, bin, 34) + Around(raw, bin, 35) * 4 + Around(raw, bin, 0) * 6
            + Around(raw, bin, 1) * 4 + Around(raw, bin, 2)) / 16
  }

  ghost predicate Symmetric(s: Bins) { forall bin: nat :: bin < BINS ==> s[bin] == s[Opposite(bin)] }

  lemma OppositeShift(bin: nat, offset: nat)
    requires bin < BINS && offset < BINS
    ensures Turn(Opposite(bin), offset) == Opposite(Turn(bin, offset))
  {
    TurnIs(bin, HALF);
    TurnIs(bin, offset);
    TurnIs(Opposite(bin), offset);
    TurnIs(Turn(bin, offset), HALF);
  }

  lemma AroundSymmetric(raw: Bins, bin: nat, offset: nat)
    requires Symmetric(raw) && bin < BINS && offset < BINS
    ensures Around(raw, bin, offset) == Around(raw, Opposite(bin), offset)
  {
    OppositeShift(bin, offset);
  }

  lemma SmoothedSymmetric(raw: Bins, bin: nat)
    requires Symmetric(raw) && bin < BINS
    ensures SmoothedAt(raw, bin) == SmoothedAt(raw, Opposite(bin))
  {
    AroundSymmetric(raw, bin, 34);
    AroundSymmetric(raw, bin, 35);
    AroundSymmetric(raw, bin, 0);
    AroundSymmetric(raw, bin, 1);
    AroundSymmetric(raw, bin, 2);
  }

  // The first position of the largest value.
  ghost predicate IsFirstMaximum(s: Bins, index: nat) {
    && index < BINS
    && (forall i: nat :: i < BINS ==> s[i] <= s[index])
    && (forall i: nat :: i < index ==> s[i] < s[index])
  }

  lemma FirstMaximumInFirstHalf(s: Bins, index: nat)
    requires Symmetric(s) && IsFirstMaximum(s, index)
    ensures index < HALF
  {
    TurnIs(index, HALF);
    assert s[index] == s[Opposite(index)];
  }

  // ---------- the window ----------

  // Angle and magnitude by position; magnitudes are read as unsigned words.
  datatype Maps = Maps(width: nat, height: nat, angle: (int, int) -> i16, magnitude: (int, int) -> u32) {
    predicate HasInterior() { width > 2 && height > 2 }

    // The angles whose bin index is in range; all angles within half a turn are.
    ghost predicate BinsInRange() { forall x, y :: angle(x, y) <= MAX_ANGLE }
  }

  function RoundedQuarter(product: i32): int {
    var quarter := product as int / 4;
    var magnitude := Abs(quarter);
    var rounded := magnitude / 0x1_0000 + magnitude / 0x8000 % 2;
    if quarter < 0 then -rounded else rounded
  }

  function Radius(scale: i32): (r: nat)
    ensures r <= 32
  {
    Min(Abs(RoundedQuarter(WrapI32(scale * 18))), 32)
  }

  function Coefficient(scale: i32): u32 {
    var sigma := WrapI32(scale * 6) as int / 4;
    if sigma == 0 then 0 else WrapU32(SquareQuotient(sigma))
  }

  function SquareQuotient(sigma: int): int
    requires sigma != 0
  {
    SquarePositive(sigma);
    0x8000_0000_0000 / (sigma * sigma)
  }

  lemma SquarePositive(x: int)
    requires x != 0
    ensures x * x > 0
  {
  }

  // The centre of the window and the weight by distance in rows and columns.
  datatype Place = Place(x: int, y: int, weight: (nat, nat) -> u32)

  function VoteAt(m: Maps, at: Place, dx: int, dy: int): (v: Vote)
    requires m.BinsInRange()
    ensures v.bin < BINS
  {
    var angle := m.angle(at.x + dx, at.y + dy);
    assert angle <= MAX_ANGLE;
    BinInRange(angle);
    Vote(BinOf(angle), Weighted(m.magnitude(at.x + dx, at.y + dy), at.weight(Abs(dy), Abs(dx))))
  }

  // The window of a candidate at a given scale.
  function AtScale(x: int, y: int, scale: i32): Place {
    Place(x, y, (row: nat, column: nat) => WeightAt(row, column, Coefficient(scale)))
  }

  // The table of the weights up to the radius.
  ghost predicate Tabulates(weights: array2<u32>, at: Place, radius: nat)
    reads weights
  {
    && weights.Length0 == weights.Length1 == radius + 1
    && forall i, j :: 0 <= i <= radius && 0 <= j <= radius ==> weights[i, j] == at.weight(i, j)
  }

  function Weighted(magnitude: u32, weight: u32): u32 { WrapU32(magnitude * weight) / 0x100 }

  // With magnitudes below 2^23 no product wraps, and no sample counts more than
  // twice.
  lemma WeightedDoesNotWrap(magnitude: u32, scaled: u32)
    requires magnitude < 0x80_0000
    ensures Weighted(magnitude, Weight(scaled)) as int == magnitude * Weight(scaled) / 0x100 <= 2 * magnitude
  {
    WeightAtMost(scaled);
    ProductAtMost(magnitude, Weight(scaled), magnitude, 512);
    NoWrap(magnitude * Weight(scaled));
  }

  // The votes of one row up to dx - 1, and of all rows up to dy - 1.
  function RowVotes(m: Maps, at: Place, first: int, dx: int, dy: int): (votes: seq<Vote>)
    requires m.BinsInRange()
    ensures InBins(votes)
    decreases dx - first
  {
    if dx <= first then [] else
      RowVotes(m, at, first, dx - 1, dy) + [VoteAt(m, at, dx - 1, dy)]
  }

  function WindowVotes(m: Maps, at: Place, firstX: int, endX: int, firstY: int, dy: int): (votes: seq<Vote>)
    requires m.BinsInRange()
    ensures InBins(votes)
    decreases dy - firstY
  {
    if dy <= firstY then []
    else WindowVotes(m, at, firstX, endX, firstY, dy - 1) + RowVotes(m, at, firstX, endX, dy - 1)
  }

  // All pixels within the radius that are not on the border of the map.
  function Votes(m: Maps, at: Place, radius: nat): (votes: seq<Vote>)
    requires m.BinsInRange()
    ensures InBins(votes)
  {
    WindowVotes(m, at, Max(-(radius as int), 1 - at.x), Min(radius, m.width - at.x - 2) + 1,
                Max(-(radius as int), 1 - at.y), Min(radius, m.height - at.y - 2) + 1)
  }

  // ---------- the histogram ----------

  ghost predicate RawHolds(raw: array<u32>, votes: seq<Vote>, duplicate: bool)
    reads raw
  {
    raw.Length == BINS && forall b: nat :: b < BINS ==> raw[b] == WrapU32(Tally(votes, duplicate, b))
  }

  lemma {:induction false} TallyMore(votes: seq<Vote>, v: Vote, duplicate: bool, b: nat)
    ensures Tally(votes + [v], duplicate, b) == Tally(votes, duplicate, b) + Share(v, duplicate, b)
  {
    assert (votes + [v])[..|votes|] == votes;
  }

  lemma RawMore(raw: Bins, raw': Bins, v: Vote, duplicate: bool, votes: seq<Vote>)
    requires forall b: nat :: b < BINS ==> raw[b] == WrapU32(Tally(votes, duplicate, b))
    requires forall b: nat :: b < BINS ==> raw'[b] == WrapU32(raw[b] as int + Share(v, duplicate, b))
    ensures forall b: nat :: b < BINS ==> raw'[b] == WrapU32(Tally(votes + [v], duplicate, b))
  {
    forall b: nat | b < BINS ensures raw'[b] == WrapU32(Tally(votes + [v], duplicate, b)) {
      TallyMore(votes, v, duplicate, b);
      WrapAdd(Tally(votes, duplicate, b), Share(v, duplicate, b));
    }
  }

  method AddVote(raw: array<u32>, v: Vote, duplicate: bool, ghost votes: seq<Vote>)
    requires RawHolds(raw, votes, duplicate) && v.bin < BINS
    modifies raw
    ensures RawHolds(raw, votes + [v], duplicate)
  {
    ghost var before := raw[..];
    AddToBins(raw, v, duplicate);
    RawMore(before, raw[..], v, duplicate, votes);
    assert forall b: nat :: b < BINS ==> raw[b] == raw[..][b];
  }

  method AddToBins(raw: array<u32>, v: Vote, duplicate: bool)
    requires raw.Length == BINS && v.bin < BINS
    modifies raw
    ensures forall b: nat :: b < BINS ==> raw[b] == WrapU32(old(raw[b]) as int + Share(v, duplicate, b))
  {
    TurnIs(v.bin, HALF);
    raw[v.bin] := WrapU32(raw[v.bin] as int + v.weight as int);
    if duplicate {
      raw[Opposite(v.bin)] := WrapU32(raw[Opposite(v.bin)] as int + v.weight as int);
    }
  }

  // One pixel, with its weight from the table.
  method ReadVote(m: Maps, weights: array2<u32>, x: int, y: int, dx: int, dy: int, ghost at: Place, ghost radius: nat)
    returns (v: Vote)
    requires m.BinsInRange() && Tabulates(weights, at, radius) && at.x == x && at.y == y
    requires Abs(dx) <= radius && Abs(dy) <= radius
    ensures v == VoteAt(m, at, dx, dy)
  {
    var angle := m.angle(x + dx, y + dy);
    assert angle <= MAX_ANGLE;
    BinInRange(angle);
    v := Vote(BinOf(angle), Weighted(m.magnitude(x + dx, y + dy), weights[Abs(dy), Abs(dx)]));
  }

  method CollectVotes(raw: array<u32>, m: Maps, weights: array2<u32>, at: Place, radius: nat, duplicate: bool)
    requires Tabulates(weights, at, radius) && weights as object != raw
    requires m.BinsInRange() && raw.Length == BINS && forall b :: 0 <= b < BINS ==> raw[b] == 0
    modifies raw
    ensures RawHolds(raw, Votes(m, at, radius), duplicate)
  {
    var minY, maxY := Max(-(radius as int), 1 - at.y), Min(radius, m.height - at.y - 2);
    var minX, maxX := Max(-(radius as int), 1 - at.x), Min(radius, m.width - at.x - 2);
    CollectRows(raw, m, weights, at, radius, minX, maxX, minY, maxY, duplicate);
  }

  method CollectRows(raw: array<u32>, m: Maps, weights: array2<u32>, at: Place, ghost radius: nat,
                     minX: int, maxX: int, minY: int, maxY: int, duplicate: bool)
    requires Tabulates(weights, at, radius) && weights as object != raw
    requires -(radius as int) <= minX && maxX <= radius && -(radius as int) <= minY && maxY <= radius
    requires m.BinsInRange() && RawHolds(raw, [], duplicate)
    modifies raw
    ensures RawHolds(raw, WindowVotes(m, at, minX, maxX + 1, minY, maxY + 1), duplicate)
  {
    var dy := minY;
    while dy <= maxY
      invariant RawHolds(raw, WindowVotes(m, at, minX, maxX + 1, minY, dy), duplicate)
      invariant minY <= dy <= Max(maxY + 1, minY) && Tabulates(weights, at, radius)
    {
      CollectRow(raw, m, weights, at, radius, minX, maxX, dy, duplicate, WindowVotes(m, at, minX, maxX + 1, minY, dy));
      dy := dy + 1;
    }
  }

  method CollectRow(raw: array<u32>, m: Maps, weights: array2<u32>, at: Place, ghost radius: nat,
                    minX: int, maxX: int, dy: int, duplicate: bool, ghost before: seq<Vote>)
    requires Tabulates(weights, at, radius) && weights as object != raw
    requires -(radius as int) <= minX && maxX <= radius && Abs(dy) <= radius
    requires m.BinsInRange() && RawHolds(raw, before, duplicate)
    modifies raw
    ensures RawHolds(raw, before + RowVotes(m, at, minX, maxX + 1, dy), duplicate)
  {
    assert before + RowVotes(m, at, minX, minX, dy) == before;
    assert maxX < minX ==> before + RowVotes(m, at, minX, maxX + 1, dy) == before;
    var dx := minX;
    while dx <= maxX
      invariant RawHolds(raw, before + RowVotes(m, at, minX, dx, dy), duplicate)
      invariant minX <= dx <= Max(maxX + 1, minX) && Tabulates(weights, at, radius)
    {
      ghost var row := RowVotes(m, at, minX, dx, dy);
      var v := ReadVote(m, weights, at.x, at.y, dx, dy, at, radius);
      Assoc(before, row, [v]);
      AddVote(raw, v, duplicate, before + row);
      dx := dx + 1;
    }
  }

  // ---------- peak ----------

  method Smooth(raw: Bins, histogram: array<u32>)
    requires histogram.Length == BINS
    modifies histogram
    ensures forall b: nat :: b < BINS ==> histogram[b] == SmoothedAt(raw, b)
  {
    for bin := 0 to BINS
      invariant forall b: nat :: b < bin ==> histogram[b] == SmoothedAt(raw, b)
    {
      histogram[bin] := SmoothedAt(raw, bin);
    }
  }

  method FindMaximum(histogram: array<u32>) returns (maximum: u32, index: nat)
    requires histogram.Length == BINS
    ensures IsFirstMaximum(histogram[..], index) && maximum == histogram[index]
  {
    maximum, index := histogram[0], 0;
    for bin := 1 to BINS
      invariant index < bin && maximum == histogram[index]
      invariant forall i: nat :: i < bin ==> histogram[i] <= maximum
      invariant forall i: nat :: i < index ==> histogram[i] < maximum
    {
      if maximum < histogram[bin] {
        maximum, index := histogram[bin], bin;
      }
    }
  }

  ghost predicate RawSeqHolds(raw: Bins, votes: seq<Vote>, duplicate: bool) {
    forall b: nat :: b < BINS ==> raw[b] == WrapU32(Tally(votes, duplicate, b))
  }

  lemma HistogramSymmetric(raw: Bins, votes: seq<Vote>, s: Bins)
    requires InBins(votes) && RawSeqHolds(raw, votes, true)
    requires forall b: nat :: b < BINS ==> s[b] == SmoothedAt(raw, b)
    ensures Symmetric(raw) && Symmetric(s)
  {
    forall b: nat | b < BINS ensures raw[b] == raw[Opposite(b)] { TallySymmetric(votes, b); }
    forall b: nat | b < BINS ensures s[b] == s[Opposite(b)] { SmoothedSymmetric(raw, b); }
  }

  method PeakOf(histogram: array<u32>, duplicate: bool) returns (maximum: u32, peak: nat)
    requires histogram.Length == BINS && (duplicate ==> Symmetric(histogram[..]))
    ensures duplicate ==> HALF <= peak < BINS && IsFirstMaximum(histogram[..], peak - HALF)
    ensures !duplicate ==> IsFirstMaximum(histogram[..], peak)
    ensures maximum == histogram[peak]
  {
    maximum, peak := FindMaximum(histogram);
    if duplicate {
      ghost var s: Bins := histogram[..];
      FirstMaximumInFirstHalf(s, peak);
      TurnIs(peak, HALF);
      assert s[peak] == s[Opposite(peak)];
      peak := peak + HALF;
    }
  }

  method SmoothAll(raw: Bins, histogram: array<u32>, duplicate: bool, ghost votes: seq<Vote>)
    requires histogram.Length == BINS && InBins(votes) && RawSeqHolds(raw, votes, duplicate)
    modifies histogram
    ensures forall b: nat :: b < BINS ==> histogram[b] == SmoothedAt(raw, b)
    ensures duplicate ==> Symmetric(raw) && Symmetric(histogram[..])
  {
    Smooth(raw, histogram);
    if duplicate {
      assert forall b: nat :: b < BINS ==> histogram[..][b] == histogram[b];
      HistogramSymmetric(raw, votes, histogram[..]);
    }
  }

  // Raw bins are the vote tallies modulo 2^32, the histogram is their
  // smoothing; in duplicating mode both repeat after half a turn, and the peak
  // is the first maximum moved to the second half. Maps without an interior
  // are refused. Radius and weights follow from the scale.
  method Histogram(m: Maps, x: int, y: int, scale: i32, duplicate: bool, histogram: array<u32>)
    returns (maximum: u32, peak: nat, ghost raw: Bins)
    requires m.BinsInRange() && histogram.Length == BINS
    modifies histogram
    ensures !m.HasInterior() ==> maximum == 0 && histogram[..] == old(histogram[..])
    ensures m.HasInterior() ==> RawSeqHolds(raw, Votes(m, AtScale(x, y, scale), Radius(scale)), duplicate)
    ensures m.HasInterior() ==> forall b: nat :: b < BINS ==> histogram[b] == SmoothedAt(raw, b)
    ensures m.HasInterior() && duplicate ==>
      Symmetric(raw) && Symmetric(histogram[..]) && HALF <= peak < BINS && IsFirstMaximum(histogram[..], peak - HALF)
    ensures m.HasInterior() && !duplicate ==> IsFirstMaximum(histogram[..], peak)
    ensures m.HasInterior() ==> maximum == histogram[peak]
  {
    var bins := new u32[BINS](_ => 0);
    raw := bins[..];
    if !m.HasInterior() { return 0, 0, raw; }
    var radius := Radius(scale);
    var weights := new u32[radius + 1, radius + 1]((_, _) => 0);
    GaussianWeights(weights, Coefficient(scale));
    CollectVotes(bins, m, weights, AtScale(x, y, scale), radius, duplicate);
    var filled: Bins := bins[..];
    raw := filled;
    SmoothAll(filled, histogram, duplicate, Votes(m, AtScale(x, y, scale), radius));
    maximum, peak := PeakOf(histogram, duplicate);
  }
}
