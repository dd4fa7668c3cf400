// What the parts of the orientation histogram compute: the nearest bin, a
// binomial smoothing, a window that covers its pixels once, and votes that are
// conserved.
module OrientationLaws {
  import opened Words
  import opened Arithmetic
  import opened Orientation

  // ---------- bins ----------

  // The bin is the one nearest to half a turn minus the angle, bins being a
  // thirty-sixth of a turn wide and counted modulo a turn.
  lemma BinIsNearest(angle: i16) returns (turns: nat)
    requires -ANGLE_HALF <= angle <= ANGLE_HALF
    ensures 2 * Abs(36 * (ANGLE_HALF - angle) - (BinOf(angle) + 36 * turns) * ANGLE_PERIOD) <= ANGLE_PERIOD
    ensures turns <= 1
  {
    var bin := (angle * -36 + 0x7_43d4) / ANGLE_PERIOD;
    turns := if bin == BINS then 1 else 0;
  }

  // Turning by a quarter moves the bin down by nine.
  lemma BinTurns(angle: i16)
    requires -ANGLE_HALF <= angle && angle + 6434 <= ANGLE_HALF
    ensures BinOf(angle + 6434) == (BinOf(angle) + 27) % 36
  {
    var v := angle * -36 + 0x7_43d4;
    assert v - 9 * ANGLE_PERIOD == (angle + 6434) * -36 + 0x7_43d4;
    QuotientIs(v - 9 * ANGLE_PERIOD, ANGLE_PERIOD, v / ANGLE_PERIOD - 9, v % ANGLE_PERIOD);
  }

  // ---------- votes ----------

  function SumTo(f: nat -> int, n: nat): int { if n == 0 then 0 else SumTo(f, n - 1) + f(n - 1) }

  lemma {:induction false} SumAdds(f: nat -> int, g: nat -> int, h: nat -> int, n: nat)
    requires forall k: nat :: k < n ==> h(k) == f(k) + g(k)
    ensures SumTo(h, n) == SumTo(f, n) + SumTo(g, n)
  {
    if n > 0 { SumAdds(f, g, h, n - 1); }
  }

  lemma {:induction false} SumOfOne(f: nat -> int, at: nat, n: nat)
    requires forall k: nat :: k < n && k != at ==> f(k) == 0
    ensures SumTo(f, n) == if at < n then f(at) else 0
  {
    if n > 0 { SumOfOne(f, at, n - 1); }
  }

  function WeightOf(votes: seq<Vote>): int {
    if votes == [] then 0 else WeightOf(votes[..|votes| - 1]) + votes[|votes| - 1].weight as int
  }

  function Direct(v: Vote): nat -> int { (bin: nat) => if v.bin == bin then v.weight as int else 0 }

  function Reflected(v: Vote): nat -> int { (bin: nat) => if Opposite(v.bin) == bin then v.weight as int else 0 }

  function ShareOf(v: Vote, duplicate: bool): nat -> int { (bin: nat) => Share(v, duplicate, bin) }

  function TallyOf(votes: seq<Vote>, duplicate: bool): nat -> int { (bin: nat) => Tally(votes, duplicate, bin) }

  function Times(duplicate: bool, n: int): int { if duplicate then n + n else n }

  lemma {:induction false} ShareConserved(v: Vote, duplicate: bool, n: nat)
    requires v.bin < n && Opposite(v.bin) < n
    ensures SumTo(ShareOf(v, duplicate), n) == Times(duplicate, v.weight)
  {
    SumOfOne(Direct(v), v.bin, n);
    if duplicate {
      SumOfOne(Reflected(v), Opposite(v.bin), n);
      SumAdds(Direct(v), Reflected(v), ShareOf(v, duplicate), n);
    } else {
      SumOfOne(ShareOf(v, duplicate), v.bin, n);
    }
  }

  // Every vote is counted once, or twice with duplication: the bins add up to
  // the weights cast.
  lemma {:induction false} VotesConserved(votes: seq<Vote>, duplicate: bool, n: nat)
    requires InBins(votes) && n >= BINS
    ensures SumTo(TallyOf(votes, duplicate), n) == Times(duplicate, WeightOf(votes))
    decreases |votes|
  {
    if votes == [] {
      SumOfOne(TallyOf(votes, duplicate), n, n);
    } else {
      var last := votes[|votes| - 1];
      assert last in votes;
      VotesConserved(votes[..|votes| - 1], duplicate, n);
      ShareConserved(last, duplicate, n);
      SumAdds(TallyOf(votes[..|votes| - 1], duplicate), ShareOf(last, duplicate), TallyOf(votes, duplicate), n);
    }
  }

  // ---------- smoothing ----------

  // A single filled bin spreads as 1, 4, 6, 4, 1 sixteenths over the five bins
  // around it.
  function Spread(distance: int): nat {
    if distance == 0 then 6
    else if distance == 1 || distance == 35 then 4
    else if distance == 2 || distance == 34 then 1
    else 0
  }

  lemma SmoothedImpulse(raw: Bins, at: nat, v: nat, bin: nat)
    requires at < BINS && bin < BINS && v <= 0x200_0000
    requires forall k: nat :: k < BINS ==> raw[k] as int == if k == at then 16 * v else 0
    ensures SmoothedAt(raw, bin) as int == v * Spread(Abs(bin - at))
  {
    TurnIs(bin, 34);
    TurnIs(bin, 35);
    TurnIs(bin, 0);
    TurnIs(bin, 1);
    TurnIs(bin, 2);
    SixteenthOf(v * Spread(Abs(bin - at)));
  }

  lemma SixteenthOf(n: nat)
    requires n < 0x1000_0000
    ensures WrapU32(16 * n) / 16 == n
  {
  }

  // Equal bins stay as they are.
  lemma SmoothedConstant(raw: Bins, v: nat, bin: nat)
    requires bin < BINS && v < 0x1000_0000 && forall k: nat :: k < BINS ==> raw[k] as int == v
    ensures SmoothedAt(raw, bin) as int == v
  {
    SixteenthOf(v);
  }

  // ---------- the window ----------

  // An offset is in the window exactly when it is within the radius and its
  // pixel lies off the border.
  ghost predicate InWindow(m: Maps, at: Place, radius: nat, dx: int, dy: int) {
    && -(radius as int) <= dx <= radius && -(radius as int) <= dy <= radius
    && 0 < at.x + dx < m.width - 1 && 0 < at.y + dy < m.height - 1
  }

  lemma {:induction false} RowVotesAre(m: Maps, at: Place, first: int, end: int, dy: int, dx: int)
    requires m.BinsInRange() && first <= dx < end
    ensures |RowVotes(m, at, first, end, dy)| == end - first
    ensures RowVotes(m, at, first, end, dy)[dx - first] == VoteAt(m, at, dx, dy)
    decreases end - first
  {
    if dx < end - 1 {
      RowVotesAre(m, at, first, end - 1, dy, dx);
    } else if first < end - 1 {
      RowVotesAre(m, at, first, end - 1, dy, first);
    }
  }

  lemma RowIndex(row: nat, n: nat, column: nat, rows: nat)
    requires row < rows && column < n
    ensures row * n + column < rows * n
  {
    ProductAtMost(row + 1, n, rows, n);
  }

  lemma OneMoreRow(rows: nat, n: nat)
    requires rows > 0
    ensures rows * n == (rows - 1) * n + n
  {
  }

  lemma {:induction false} WindowSize(m: Maps, at: Place, firstX: int, endX: int, firstY: int, endY: int)
    requires m.BinsInRange() && firstX < endX && firstY <= endY
    ensures |WindowVotes(m, at, firstX, endX, firstY, endY)| == (endY - firstY) * (endX - firstX)
    decreases endY - firstY
  {
    if firstY < endY {
      WindowSize(m, at, firstX, endX, firstY, endY - 1);
      RowVotesAre(m, at, firstX, endX, endY - 1, firstX);
      OneMoreRow(endY - firstY, endX - firstX);
    }
  }

  lemma {:induction false} WindowVotesAre(m: Maps, at: Place, firstX: int, endX: int, firstY: int, endY: int,
                                          dx: int, dy: int, i: int)
    requires m.BinsInRange() && firstX <= dx < endX && firstY <= dy < endY
    requires i == (dy - firstY) * (endX - firstX) + (dx - firstX)
    ensures 0 <= i < |WindowVotes(m, at, firstX, endX, firstY, endY)|
    ensures WindowVotes(m, at, firstX, endX, firstY, endY)[i] == VoteAt(m, at, dx, dy)
    decreases endY - firstY
  {
    WindowSize(m, at, firstX, endX, firstY, endY);
    WindowSize(m, at, firstX, endX, firstY, endY - 1);
    RowIndex(dy - firstY, endX - firstX, dx - firstX, endY - firstY);
    if dy < endY - 1 {
      WindowVotesAre(m, at, firstX, endX, firstY, endY - 1, dx, dy, i);
    } else {
      RowVotesAre(m, at, firstX, endX, dy, dx);
    }
  }

  // The sides of the window, the far ones excluded.
  lemma WindowSides(m: Maps, at: Place, radius: nat) returns (left: int, endX: int, top: int, endY: int)
    requires m.BinsInRange()
    ensures Votes(m, at, radius) == WindowVotes(m, at, left, endX, top, endY)
    ensures forall x, y :: InWindow(m, at, radius, x, y) <==> left <= x < endX && top <= y < endY
  {
    left, top := Max(-(radius as int), 1 - at.x), Max(-(radius as int), 1 - at.y);
    endX, endY := Min(radius, m.width - at.x - 2) + 1, Min(radius, m.height - at.y - 2) + 1;
  }

  // The votes are those of the pixels in the window, row by row, each once.
  lemma VotesAre(m: Maps, at: Place, radius: nat, dx: int, dy: int)
    returns (left: int, endX: int, top: int, endY: int)
    requires m.BinsInRange() && InWindow(m, at, radius, dx, dy)
    ensures forall x, y :: InWindow(m, at, radius, x, y) <==> left <= x < endX && top <= y < endY
    ensures |Votes(m, at, radius)| == (endY - top) * (endX - left)
    ensures 0 <= (dy - top) * (endX - left) + (dx - left) < |Votes(m, at, radius)|
    ensures Votes(m, at, radius)[(dy - top) * (endX - left) + (dx - left)] == VoteAt(m, at, dx, dy)
  {
    left, endX, top, endY := WindowSides(m, at, radius);
    assert left <= dx < endX && top <= dy < endY;
    WindowSize(m, at, left, endX, top, endY);
    WindowVotesAre(m, at, left, endX, top, endY, dx, dy, (dy - top) * (endX - left) + (dx - left));
  }

  lemma RoundedHalfUp(quarter: nat)
    ensures quarter / 0x1_0000 + quarter / 0x8000 % 2 == (quarter + 0x8000) / 0x1_0000
  {
    var h := quarter / 0x8000;
    assert (quarter + 0x8000) / 0x8000 == h + 1;
  }

  lemma RoundedQuarterIs(product: i32)
    requires product >= 0
    ensures RoundedQuarter(product) == (product / 4 + 0x8000) / 0x1_0000
  {
    RoundedHalfUp(product / 4);
  }

  lemma RadiusIs(scale: i32)
    requires 0 <= scale && 18 * scale < 0x8000_0000
    ensures Radius(scale) == Min((18 * scale / 4 + 0x8000) / 0x1_0000, 32)
  {
    assert WrapI32(scale * 18) as int == 18 * scale;
    RoundedQuarterIs(WrapI32(scale * 18));
  }

  // The radius is four and a half scales, rounded and cut off at 32.
  lemma RadiusIsRounded(scale: i32)
    requires 0 <= scale && 18 * scale < 0x8000_0000
    ensures var r := Radius(scale);
            && 0x2_0000 * r - 0x1_0000 <= 9 * scale
            && (r < 32 ==> 9 * scale <= 0x2_0000 * r + 0x1_0000)
  {
    RadiusIs(scale);
  }
}
