// Filling small gaps by a table over the eight neighbours, along rows and then
// along columns, until nothing changes.
module PatternFill {
  import opened Words
  import opened Components

  // The table of the program, sixteen rows of sixteen.
  const ROW0: seq<u8> := [0, 0, 1, 1, 0, 0, 1, 1, 1, 1, 0, 1, 1, 1, 0, 1]
  const ROW1: seq<u8> := [1, 1, 0, 0, 1, 1, 1, 1, 0, 0, 0, 0, 0, 0, 0, 1]
  const ROW2: seq<u8> := [0, 0, 1, 1, 0, 0, 1, 1, 1, 1, 0, 1, 1, 1, 0, 1]
  const ROW3: seq<u8> := [1, 1, 0, 0, 1, 1, 1, 1, 0, 0, 0, 0, 0, 0, 0, 1]
  const ROW4: seq<u8> := [1, 1, 0, 0, 1, 1, 0, 0, 0, 0, 0, 0, 0, 0, 0, 0]
  const ROW5: seq<u8> := [0, 0, 0, 0, 0, 0, 0, 0, 0, 0, 0, 0, 0, 0, 0, 0]
  const ROW6: seq<u8> := [1, 1, 0, 0, 1, 1, 0, 0, 1, 1, 0, 1, 1, 1, 0, 1]
  const ROW7: seq<u8> := [0, 0, 0, 0, 0, 0, 0, 0, 0, 0, 0, 0, 0, 0, 0, 0]
  const ROW8: seq<u8> := [0, 0, 1, 1, 0, 0, 1, 1, 1, 1, 0, 1, 1, 1, 0, 1]
  const ROW9: seq<u8> := [1, 1, 0, 0, 1, 1, 1, 1, 0, 0, 0, 0, 0, 0, 0, 1]
  const ROW10: seq<u8> := [0, 0, 1, 1, 0, 0, 1, 1, 1, 1, 0, 1, 1, 1, 0, 1]
  const ROW11: seq<u8> := [1, 1, 0, 0, 1, 1, 1, 1, 0, 0, 0, 0, 0, 0, 0, 0]
  const ROW12: seq<u8> := [1, 1, 0, 0, 1, 1, 0, 0, 0, 0, 0, 0, 0, 0, 0, 0]
  const ROW13: seq<u8> := [1, 1, 0, 0, 1, 1, 1, 1, 0, 0, 0, 0, 0, 0, 0, 0]
  const ROW14: seq<u8> := [1, 1, 0, 0, 1, 1, 0, 0, 1, 1, 0, 1, 1, 1, 0, 0]
  const ROW15: seq<u8> := [1, 1, 0, 0, 1, 1, 1, 0, 1, 1, 0, 0, 1, 0, 0, 0]

  const ROWS: seq<seq<u8>> := [ROW0, ROW1, ROW2, ROW3, ROW4, ROW5, ROW6, ROW7, ROW8, ROW9, ROW10, ROW11, ROW12, ROW13,
                               ROW14, ROW15]

  function Table(): (t: seq<u8>)
    ensures |t| == 256
  {
    RowLengths();
    seq(256, n requires 0 <= n < 256 => ROWS[n / 16][n % 16])
  }

  lemma RowLengths()
    ensures |ROWS| == 16 && forall h :: 0 <= h < 16 ==> |ROWS[h]| == 16
  {
  }

  const MAX_PIXELS: nat := 19600

  type Image = (int, int) -> u8

  type Digit = n: nat | n <= 1
  type Digits = (int, int) -> Digit

  function Bit(v: u8): Digit { v % 2 }

  // The lowest bits of the pixels.
  function Parity(img: Image): Digits { (i: int, j: int) => Bit(img(i, j)) }

  // The eight neighbours as a number, bottom left in the lowest bit.
  function NeighbourIndex(bits: Digits, x: int, y: int): (n: nat)
    ensures n < 256
  {
    Nibble(bits(x - 1, y + 1), bits(x, y + 1), bits(x + 1, y + 1), bits(x - 1, y))
    + 16 * Nibble(bits(x + 1, y), bits(x - 1, y - 1), bits(x, y - 1), bits(x + 1, y - 1))
  }

  function Nibble(a: Digit, b: Digit, c: Digit, d: Digit): (n: nat)
    ensures n < 16
  {
    a + 2 * b + 4 * c + 8 * d
  }

  datatype Direction = AlongRow | AlongColumn

  // A table and the size of the images it is applied to.
  datatype Rule = Rule(table: seq<u8>, width: nat, height: nat) {
    predicate Sized() { |table| == 256 && width >= 3 && height >= 3 }

    predicate Inside(x: int, y: int) { 1 <= x < width - 1 && 1 <= y < height - 1 }

    // A scan along rows or columns would fill this pixel now.
    predicate Fillable(img: Image, x: int, y: int, d: Direction)
      requires Sized()
    {
      && img(x, y) == 0
      && (if d.AlongRow? then img(x - 1, y) == 1 || img(x + 1, y) == 1 else img(x, y - 1) == 1 || img(x, y + 1) == 1)
      && table[NeighbourIndex(Parity(img), x, y)] == 1
    }
  }

  // What the program applies.
  function Gaps(width: nat, height: nat): (r: Rule)
    ensures |r.table| == 256 && (r.Sized() <==> width >= 3 && height >= 3)
  {
    Rule(Table(), width, height)
  }

  // An image after some pixels were set.
  function Painted(p: Image, fills: seq<Cell>): Image { (x: int, y: int) => if Cell(x, y) in fills then 1 else p(x, y) }

  // Every fill was allowed when it was made, by one scan or the other.
  ghost predicate Legal(r: Rule, p: Image, fills: seq<Cell>)
    requires r.Sized()
  {
    forall i :: 0 <= i < |fills| ==> LegalAt(r, p, fills, i)
  }

  ghost predicate LegalAt(r: Rule, p: Image, fills: seq<Cell>, i: nat)
    requires r.Sized() && i < |fills|
  {
    && r.Inside(fills[i].x, fills[i].y)
    && (r.Fillable(Painted(p, fills[..i]), fills[i].x, fills[i].y, AlongRow)
        || r.Fillable(Painted(p, fills[..i]), fills[i].x, fills[i].y, AlongColumn))
  }

  // Nothing inside is left for either scan.
  ghost predicate Finished(r: Rule, img: Image)
    requires r.Sized()
  {
    forall x, y :: r.Inside(x, y) ==> !r.Fillable(img, x, y, AlongRow) && !r.Fillable(img, x, y, AlongColumn)
  }

  // A legal fill sets only pixels that were 0, each once, and none on the border.
  lemma LegalFills(r: Rule, p: Image, fills: seq<Cell>)
    requires r.Sized() && Legal(r, p, fills)
    ensures forall c :: c in fills ==> r.Inside(c.x, c.y) && p(c.x, c.y) == 0
    ensures forall i, j :: 0 <= i < j < |fills| ==> fills[i] != fills[j]
  {
    forall c | c in fills ensures r.Inside(c.x, c.y) && p(c.x, c.y) == 0 {
      var i :| 0 <= i < |fills| && fills[i] == c;
      assert LegalAt(r, p, fills, i);
      assert Painted(p, fills[..i])(c.x, c.y) == 0;
    }
    forall i, j | 0 <= i < j < |fills| ensures fills[i] != fills[j] {
      assert LegalAt(r, p, fills, j);
      assert Painted(p, fills[..j])(fills[j].x, fills[j].y) == 0;
      assert fills[..j][i] == fills[i];
    }
  }

  // The result holds every pixel of the input and keeps the border.
  lemma PaintedKeeps(r: Rule, p: Image, fills: seq<Cell>, x: int, y: int)
    requires r.Sized() && Legal(r, p, fills)
    ensures p(x, y) != 0 || !r.Inside(x, y) ==> Painted(p, fills)(x, y) == p(x, y)
    ensures Painted(p, fills)(x, y) == p(x, y) || (p(x, y) == 0 && Painted(p, fills)(x, y) == 1)
  {
    LegalFills(r, p, fills);
  }

  lemma LegalMore(r: Rule, p: Image, fills: seq<Cell>, c: Cell, d: Direction)
    requires r.Sized() && Legal(r, p, fills) && r.Inside(c.x, c.y) && r.Fillable(Painted(p, fills), c.x, c.y, d)
    ensures Legal(r, p, fills + [c])
  {
    var more := fills + [c];
    forall i | 0 <= i < |more| ensures LegalAt(r, p, more, i) {
      if i < |fills| {
        assert LegalAt(r, p, fills, i);
        assert more[..i] == fills[..i];
      } else {
        assert more[..i] == fills;
      }
    }
  }

  function Set(fills: seq<Cell>): set<Cell> { set c | c in fills }

  // Pixels not filled yet.
  function Left(r: Rule, fills: seq<Cell>): nat { |GridCells(r.width, r.height) - Set(fills)| }

  lemma LeftShrinks(r: Rule, p: Image, fills: seq<Cell>, c: Cell)
    requires r.Sized() && r.Inside(c.x, c.y) && c !in fills
    ensures Left(r, fills + [c]) < Left(r, fills)
  {
    var a, b := GridCells(r.width, r.height) - Set(fills), GridCells(r.width, r.height) - Set(fills + [c]);
    assert c in a && b == a - {c};
  }

  // ---------- the order of the fills ----------

  // Whether position t of a line can be filled when the given positions were.
  type Can = (seq<int>, int) -> bool

  // A position after fill k - 1 and its neighbour, and before fill k.
  predicate Between(ts: seq<int>, k: nat, t: int)
    requires k <= |ts|
  {
    (k > 0 ==> ts[k - 1] + 1 < t) && (k < |ts| ==> t < ts[k])
  }

  // Fill i was allowed when it was made, and the one before it is not its
  // neighbour.
  ghost predicate Sensible(can: Can, ts: seq<int>, i: nat)
    requires i < |ts|
  {
    can(ts[..i], ts[i]) && (i > 0 ==> ts[i - 1] + 2 <= ts[i])
  }

  ghost predicate PassedOver(can: Can, ts: seq<int>, k: nat, t: int)
    requires k <= |ts|
  {
    Between(ts, k, t) ==> !can(ts[..k], t)
  }

  // One line: the fills ascend, the position behind a fill is skipped, and every
  // other position was filled if it could be.
  ghost predicate Complete(can: Can, ts: seq<int>) {
    && (forall i :: 0 <= i < |ts| ==> Sensible(can, ts, i))
    && (forall k, t :: 0 <= k <= |ts| ==> PassedOver(can, ts, k, t))
  }

  // The same as far as a position.
  ghost predicate CompleteTo(can: Can, ts: seq<int>, end: int) {
    && (forall i :: 0 <= i < |ts| ==> Sensible(can, ts, i) && ts[i] + 2 <= end)
    && (forall k, t :: 0 <= k <= |ts| && t < end ==> PassedOver(can, ts, k, t))
  }

  lemma ScanSkips(can: Can, ts: seq<int>, end: int)
    requires CompleteTo(can, ts, end) && !can(ts, end)
    ensures CompleteTo(can, ts, end + 1)
  {
    assert ts[..|ts|] == ts;
    forall i | 0 <= i < |ts| ensures Sensible(can, ts, i) && ts[i] + 2 <= end + 1 { assert Sensible(can, ts, i); }
    forall k, t | 0 <= k <= |ts| && t < end + 1 ensures PassedOver(can, ts, k, t) {
      if t < end {
        assert PassedOver(can, ts, k, t);
      } else if k < |ts| {
        assert Sensible(can, ts, k) && ts[k] + 2 <= end;
      }
    }
  }

  lemma OldPart(can: Can, ts: seq<int>, end: int, k: nat)
    requires k <= |ts|
    ensures (ts + [end])[..k] == ts[..k]
  {
  }

  lemma ScanFills(can: Can, ts: seq<int>, end: int)
    requires CompleteTo(can, ts, end) && can(ts, end)
    ensures CompleteTo(can, ts + [end], end + 2)
  {
    var more := ts + [end];
    forall i | 0 <= i < |more| ensures Sensible(can, more, i) && more[i] + 2 <= end + 2 {
      OldPart(can, ts, end, i);
      if i < |ts| { assert Sensible(can, ts, i); } else { assert ts[..|ts|] == ts; }
      if i == |ts| && i > 0 { assert Sensible(can, ts, i - 1) && ts[i - 1] + 2 <= end; }
    }
    forall k, t | 0 <= k <= |more| && t < end + 2 ensures PassedOver(can, more, k, t) {
      if k <= |ts| {
        OldPart(can, ts, end, k);
        if t < end { assert PassedOver(can, ts, k, t); }
        if k < |ts| { assert Sensible(can, ts, k) && ts[k] + 2 <= end; }
      }
    }
  }

  lemma ScanEnds(can: Can, ts: seq<int>, end: int)
    requires CompleteTo(can, ts, end) && forall us, t :: t >= end ==> !can(us, t)
    ensures Complete(can, ts)
  {
    forall i | 0 <= i < |ts| ensures Sensible(can, ts, i) { assert Sensible(can, ts, i) && ts[i] + 2 <= end; }
    forall k, t | 0 <= k <= |ts| ensures PassedOver(can, ts, k, t) {
      if t < end { assert PassedOver(can, ts, k, t); } else { assert !can(ts[..k], t); }
    }
  }

  // Position t of a row or column.
  function At(d: Direction, line: int, t: int): Cell { if d.AlongRow? then Cell(t, line) else Cell(line, t) }

  function Cells(d: Direction, line: int, ts: seq<int>): (c: seq<Cell>)
    ensures |c| == |ts|
  {
    seq(|ts|, i requires 0 <= i < |ts| => At(d, line, ts[i]))
  }

  lemma CellsMore(d: Direction, line: int, ts: seq<int>, t: int)
    ensures Cells(d, line, ts + [t]) == Cells(d, line, ts) + [At(d, line, t)]
  {
  }

  // The line's own fills added to those made before it.
  function After(start: seq<Cell>, d: Direction, line: int, ts: seq<int>): seq<Cell> { start + Cells(d, line, ts) }

  predicate CanAt(r: Rule, p: Image, d: Direction, fills: seq<Cell>, c: Cell) {
    r.Sized() && r.Inside(c.x, c.y) && r.Fillable(Painted(p, fills), c.x, c.y, d)
  }

  function CanFill(r: Rule, p: Image, d: Direction, line: int, start: seq<Cell>): Can {
    (ts: seq<int>, t: int) => CanAt(r, p, d, After(start, d, line, ts), At(d, line, t))
  }

  ghost predicate LineDone(r: Rule, p: Image, d: Direction, line: int, start: seq<Cell>, fills: seq<Cell>) {
    exists ts :: Complete(CanFill(r, p, d, line, start), ts) && fills == After(start, d, line, ts)
  }

  // One line while it is scanned: the positions filled so far.
  ghost predicate LineTo(can: Can, d: Direction, line: int, start: seq<Cell>, fills: seq<Cell>, ts: seq<int>,
                         end: int) {
    CompleteTo(can, ts, end) && fills == After(start, d, line, ts)
  }

  lemma LineStart(can: Can, d: Direction, line: int, start: seq<Cell>)
    requires forall us, t :: t < 1 ==> !can(us, t)
    ensures LineTo(can, d, line, start, start, [], 1)
  {
    assert Cells(d, line, []) == [];
    assert start + [] == start;
  }

  lemma LineStep(can: Can, d: Direction, line: int, start: seq<Cell>, fills: seq<Cell>, fills': seq<Cell>,
                 ts: seq<int>, t: int, filled: bool)
    requires LineTo(can, d, line, start, fills, ts, t) && (filled <==> can(ts, t))
    requires fills' == if filled then fills + [At(d, line, t)] else fills
    ensures if filled then LineTo(can, d, line, start, fills', ts + [t], t + 2)
            else LineTo(can, d, line, start, fills', ts, t + 1)
  {
    if filled {
      ScanFills(can, ts, t);
      CellsMore(d, line, ts, t);
      assert start + (Cells(d, line, ts) + [At(d, line, t)]) == start + Cells(d, line, ts) + [At(d, line, t)];
    } else {
      ScanSkips(can, ts, t);
    }
  }

  function EndOf(r: Rule, d: Direction): int { if d.AlongRow? then r.width - 1 else r.height - 1 }

  // What a scan needs to know of its rule: it says what the table says, and
  // nothing outside can be filled.
  ghost predicate Speaks(can: Can, r: Rule, p: Image, d: Direction, line: int, start: seq<Cell>) {
    && (forall ts, t {:trigger CanAt(r, p, d, After(start, d, line, ts), At(d, line, t))} ::
          can(ts, t) <==> CanAt(r, p, d, After(start, d, line, ts), At(d, line, t)))
    && forall ts, t :: t < 1 || t >= EndOf(r, d) ==> !can(ts, t)
  }

  lemma OutsideCannot(r: Rule, p: Image, d: Direction, fills: seq<Cell>, line: int, t: int)
    requires t < 1 || t >= EndOf(r, d)
    ensures !CanAt(r, p, d, fills, At(d, line, t))
  {
  }

  lemma TableSpeaks(r: Rule, p: Image, d: Direction, line: int, start: seq<Cell>)
    ensures Speaks(CanFill(r, p, d, line, start), r, p, d, line, start)
  {
    var can := CanFill(r, p, d, line, start);
    forall ts, t | t < 1 || t >= EndOf(r, d) ensures !can(ts, t) {
      OutsideCannot(r, p, d, After(start, d, line, ts), line, t);
    }
  }

  // The lines of a pass: the inner rows from the top, then the inner columns
  // from the left.
  function LineCount(r: Rule): nat
    requires r.Sized()
  {
    r.height - 2 + r.width - 2
  }

  function DirectionOf(r: Rule, j: nat): Direction { if j < r.height - 2 then AlongRow else AlongColumn }

  function LineOf(r: Rule, j: nat): int { if j < r.height - 2 then 1 + j else 1 + j - (r.height - 2) }

  // What the scan of a line may do, from the fills before it to those after.
  type LineRule = (Direction, int, seq<Cell>, seq<Cell>) -> bool

  ghost function LinesOf(r: Rule, p: Image): LineRule {
    (d, line, start, fills) => LineDone(r, p, d, line, start, fills)
  }

  ghost predicate Follows(r: Rule, p: Image, lines: LineRule) {
    forall d, line, start, fills {:trigger LineDone(r, p, d, line, start, fills)} ::
      LineDone(r, p, d, line, start, fills) ==> lines(d, line, start, fills)
  }

  // The first j lines of a pass.
  ghost predicate PassTo(r: Rule, lines: LineRule, start: seq<Cell>, fills: seq<Cell>, j: nat)
    decreases j, r
  {
    if j == 0 then fills == start
    else
      var d, line, i := DirectionOf(r, j - 1), LineOf(r, j - 1), j - 1;
      exists mid :: PassTo(r, lines, start, mid, i) && lines(d, line, mid, fills)
  }

  // All fills of n whole passes.
  ghost predicate AfterPasses(r: Rule, lines: LineRule, fills: seq<Cell>, n: nat)
    requires r.Sized()
    decreases n, r
  {
    if n == 0 then fills == []
    else
      var i, count := n - 1, LineCount(r);
      exists mid :: AfterPasses(r, lines, mid, i) && PassTo(r, lines, mid, fills, count)
  }

  // ---------- the scans ----------

  ghost predicate Shows(a: array2<u8>, img: Image, r: Rule)
    reads a
  {
    && a.Length0 == r.height && a.Length1 == r.width
    && forall x, y :: 0 <= x < r.width && 0 <= y < r.height ==> a[y, x] == img(x, y)
  }

  ghost predicate BothShow(a: array2<u8>, b: array2<u8>, img: Image, r: Rule)
    reads a, b
  {
    a != b && Shows(a, img, r) && Shows(b, img, r)
  }

  method ReadIndex(a: array2<u8>, x: int, y: int, ghost img: Image, r: Rule) returns (n: nat)
    requires Shows(a, img, r) && r.Inside(x, y)
    ensures n == NeighbourIndex(Parity(img), x, y) && n < 256
  {
    n := Bit(a[y + 1, x - 1]) + 2 * Bit(a[y + 1, x]) + 4 * Bit(a[y + 1, x + 1]) + 8 * Bit(a[y, x - 1])
    + 16 * Bit(a[y, x + 1]) + 32 * Bit(a[y - 1, x - 1]) + 64 * Bit(a[y - 1, x]) + 128 * Bit(a[y - 1, x + 1]);
  }

  method IsFillable(a: array2<u8>, x: int, y: int, d: Direction, ghost img: Image, r: Rule) returns (fillable: bool)
    requires r.Sized() && Shows(a, img, r) && r.Inside(x, y)
    ensures fillable <==> r.Fillable(img, x, y, d)
  {
    fillable := false;
    if a[y, x] != 0 { return; }
    if d.AlongRow? && a[y, x - 1] != 1 && a[y, x + 1] != 1 { return; }
    if d.AlongColumn? && a[y - 1, x] != 1 && a[y + 1, x] != 1 { return; }
    var n := ReadIndex(a, x, y, img, r);
    fillable := r.table[n] == 1;
  }

  method Paint(input: array2<u8>, output: array2<u8>, x: int, y: int, ghost p: Image, ghost fills: seq<Cell>, r: Rule)
    requires r.Sized() && r.Inside(x, y) && BothShow(input, output, Painted(p, fills), r)
    modifies input, output
    ensures BothShow(input, output, Painted(p, fills + [Cell(x, y)]), r)
  {
    input[y, x] := 1;
    output[y, x] := 1;
  }

  // One position: fill it if the scan allows.
  method TryFill(input: array2<u8>, output: array2<u8>, x: int, y: int, d: Direction, r: Rule, ghost p: Image,
                 ghost fills: seq<Cell>)
    returns (filled: bool, ghost fills': seq<Cell>)
    requires r.Sized() && r.Inside(x, y) && BothShow(input, output, Painted(p, fills), r) && Legal(r, p, fills)
    modifies input, output
    ensures BothShow(input, output, Painted(p, fills'), r) && Legal(r, p, fills')
    ensures filled <==> r.Fillable(Painted(p, fills), x, y, d)
    ensures filled ==> Left(r, fills') < Left(r, fills)
    ensures fills' == if filled then fills + [Cell(x, y)] else fills
  {
    fills' := fills;
    filled := IsFillable(input, x, y, d, Painted(p, fills), r);
    if filled {
      LegalMore(r, p, fills, Cell(x, y), d);
      assert Painted(p, fills)(x, y) == 0;
      LeftShrinks(r, p, fills, Cell(x, y));
      Paint(input, output, x, y, p, fills, r);
      fills' := fills + [Cell(x, y)];
    }
  }

  // The next position of a line.
  method TryNext(input: array2<u8>, output: array2<u8>, x: int, y: int, d: Direction, ghost line: int, ghost t: int,
                 r: Rule, ghost p: Image, ghost start: seq<Cell>, ghost fills: seq<Cell>, ghost ts: seq<int>,
                 ghost can: Can)
    returns (filled: bool, ghost fills': seq<Cell>, ghost ts': seq<int>)
    requires r.Sized() && r.Inside(x, y) && Cell(x, y) == At(d, line, t)
    requires BothShow(input, output, Painted(p, fills), r) && Legal(r, p, fills)
    requires Speaks(can, r, p, d, line, start) && LineTo(can, d, line, start, fills, ts, t)
    modifies input, output
    ensures BothShow(input, output, Painted(p, fills'), r) && Legal(r, p, fills')
    ensures filled <==> r.Fillable(Painted(p, fills), x, y, d)
    ensures filled ==> Left(r, fills') < Left(r, fills)
    ensures !filled ==> fills' == fills
    ensures LineTo(can, d, line, start, fills', ts', if filled then t + 2 else t + 1)
  {
    assert can(ts, t) <==> CanAt(r, p, d, After(start, d, line, ts), At(d, line, t));
    filled, fills' := TryFill(input, output, x, y, d, r, p, fills);
    LineStep(can, d, line, start, fills, fills', ts, t, filled);
    ts' := if filled then ts + [t] else ts;
  }

  // What a stretch of a pass has done since its start.
  ghost predicate Progress(r: Rule, start: seq<Cell>, fills: seq<Cell>, changed: bool) {
    if changed then Left(r, fills) < Left(r, start) else fills == start
  }

  // The part of a row left of x (of a column above y) with nothing to fill.
  ghost predicate QuietRow(r: Rule, img: Image, y: int, x: int)
    requires r.Sized()
  {
    forall i :: r.Inside(i, y) && i < x ==> !r.Fillable(img, i, y, AlongRow)
  }

  ghost predicate QuietColumn(r: Rule, img: Image, x: int, y: int)
    requires r.Sized()
  {
    forall j :: r.Inside(x, j) && j < y ==> !r.Fillable(img, x, j, AlongColumn)
  }

  lemma RowStep(r: Rule, img: Image, y: int, x: int)
    requires r.Sized() && QuietRow(r, img, y, x)
    ensures !r.Fillable(img, x, y, AlongRow) ==> QuietRow(r, img, y, x + 1)
  {
  }

  lemma ColumnStep(r: Rule, img: Image, x: int, y: int)
    requires r.Sized() && QuietColumn(r, img, x, y)
    ensures !r.Fillable(img, x, y, AlongColumn) ==> QuietColumn(r, img, x, y + 1)
  {
  }

  method FillRow(input: array2<u8>, output: array2<u8>, y: int, r: Rule, ghost p: Image, ghost start: seq<Cell>,
                 ghost can: Can)
    returns (changed: bool, ghost fills: seq<Cell>, ghost ts: seq<int>)
    requires r.Sized() && 1 <= y < r.height - 1 && BothShow(input, output, Painted(p, start), r) && Legal(r, p, start)
    requires Speaks(can, r, p, AlongRow, y, start)
    modifies input, output
    ensures BothShow(input, output, Painted(p, fills), r) && Legal(r, p, fills) && Progress(r, start, fills, changed)
    ensures !changed ==> QuietRow(r, Painted(p, fills), y, r.width)
    ensures Complete(can, ts) && fills == After(start, AlongRow, y, ts)
  {
    changed, fills, ts := false, start, [];
    var x := 1;
    LineStart(can, AlongRow, y, start);
    while x < r.width - 1
      invariant 1 <= x
      invariant BothShow(input, output, Painted(p, fills), r) && Legal(r, p, fills)
                && Progress(r, start, fills, changed)
      invariant !changed ==> QuietRow(r, Painted(p, fills), y, x)
      invariant LineTo(can, AlongRow, y, start, fills, ts, x)
    {
      var filled: bool;
      if !changed { RowStep(r, Painted(p, fills), y, x); }
      filled, fills, ts := TryNext(input, output, x, y, AlongRow, y, x, r, p, start, fills, ts, can);
      if filled {
        changed := true;
        x := x + 1;
      }
      x := x + 1;
    }
    ScanEnds(can, ts, x);
  }

  // The same, for any rule that admits what the table says.
  method FillRowBy(input: array2<u8>, output: array2<u8>, y: int, r: Rule, ghost p: Image, ghost lines: LineRule,
                   ghost start: seq<Cell>)
    returns (changed: bool, ghost fills: seq<Cell>)
    requires r.Sized() && 1 <= y < r.height - 1 && BothShow(input, output, Painted(p, start), r)
    requires Legal(r, p, start) && Follows(r, p, lines)
    modifies input, output
    ensures BothShow(input, output, Painted(p, fills), r) && Legal(r, p, fills) && Progress(r, start, fills, changed)
    ensures !changed ==> QuietRow(r, Painted(p, fills), y, r.width)
    ensures lines(AlongRow, y, start, fills)
  {
    TableSpeaks(r, p, AlongRow, y, start);
    ghost var ts: seq<int>;
    changed, fills, ts := FillRow(input, output, y, r, p, start, CanFill(r, p, AlongRow, y, start));
    assert LineDone(r, p, AlongRow, y, start, fills);
  }

  method FillColumn(input: array2<u8>, output: array2<u8>, x: int, r: Rule, ghost p: Image, ghost start: seq<Cell>,
                    ghost can: Can)
    returns (changed: bool, ghost fills: seq<Cell>, ghost ts: seq<int>)
    requires r.Sized() && 1 <= x < r.width - 1 && BothShow(input, output, Painted(p, start), r) && Legal(r, p, start)
    requires Speaks(can, r, p, AlongColumn, x, start)
    modifies input, output
    ensures BothShow(input, output, Painted(p, fills), r) && Legal(r, p, fills) && Progress(r, start, fills, changed)
    ensures !changed ==> QuietColumn(r, Painted(p, fills), x, r.height)
    ensures Complete(can, ts) && fills == After(start, AlongColumn, x, ts)
  {
    changed, fills, ts := false, start, [];
    var y := 1;
    LineStart(can, AlongColumn, x, start);
    while y < r.height - 1
      invariant 1 <= y
      invariant BothShow(input, output, Painted(p, fills), r) && Legal(r, p, fills)
                && Progress(r, start, fills, changed)
      invariant !changed ==> QuietColumn(r, Painted(p, fills), x, y)
      invariant LineTo(can, AlongColumn, x, start, fills, ts, y)
    {
      var filled: bool;
      if !changed { ColumnStep(r, Painted(p, fills), x, y); }
      filled, fills, ts := TryNext(input, output, x, y, AlongColumn, x, y, r, p, start, fills, ts, can);
      if filled {
        changed := true;
        y := y + 1;
      }
      y := y + 1;
    }
    ScanEnds(can, ts, y);
  }

  // The same, for any rule that admits what the table says.
  method FillColumnBy(input: array2<u8>, output: array2<u8>, x: int, r: Rule, ghost p: Image, ghost lines: LineRule,
                      ghost start: seq<Cell>)
    returns (changed: bool, ghost fills: seq<Cell>)
    requires r.Sized() && 1 <= x < r.width - 1 && BothShow(input, output, Painted(p, start), r)
    requires Legal(r, p, start) && Follows(r, p, lines)
    modifies input, output
    ensures BothShow(input, output, Painted(p, fills), r) && Legal(r, p, fills) && Progress(r, start, fills, changed)
    ensures !changed ==> QuietColumn(r, Painted(p, fills), x, r.height)
    ensures lines(AlongColumn, x, start, fills)
  {
    TableSpeaks(r, p, AlongColumn, x, start);
    ghost var ts: seq<int>;
    changed, fills, ts := FillColumn(input, output, x, r, p, start, CanFill(r, p, AlongColumn, x, start));
    assert LineDone(r, p, AlongColumn, x, start, fills);
  }

  lemma ProgressMore(r: Rule, start: seq<Cell>, middle: seq<Cell>, end: seq<Cell>, first: bool, second: bool)
    requires Progress(r, start, middle, first) && Progress(r, middle, end, second)
    ensures Progress(r, start, end, first || second)
  {
  }

  // Rows above (columns left of) a position with nothing to fill.
  ghost predicate QuietAbove(r: Rule, img: Image, y: int)
    requires r.Sized()
  {
    forall i, j :: r.Inside(i, j) && j < y ==> !r.Fillable(img, i, j, AlongRow)
  }

  ghost predicate QuietLeft(r: Rule, img: Image, x: int)
    requires r.Sized()
  {
    forall i, j :: r.Inside(i, j) && i < x ==> !r.Fillable(img, i, j, AlongColumn)
  }

  lemma RowQuiet(r: Rule, img: Image, y: int)
    requires r.Sized() && QuietAbove(r, img, y) && QuietRow(r, img, y, r.width)
    ensures QuietAbove(r, img, y + 1)
  {
  }

  lemma ColumnQuiet(r: Rule, img: Image, x: int)
    requires r.Sized() && QuietLeft(r, img, x) && QuietColumn(r, img, x, r.height)
    ensures QuietLeft(r, img, x + 1)
  {
  }

  // What is known of the fills after j lines of a pass, and that one more line
  // leads on.
  type Passed = (seq<Cell>, nat) -> bool

  ghost predicate Advances(r: Rule, lines: LineRule, passed: Passed) {
    forall mid, fills, j: nat {:trigger passed(mid, j), lines(DirectionOf(r, j), LineOf(r, j), mid, fills)} ::
      passed(mid, j) && lines(DirectionOf(r, j), LineOf(r, j), mid, fills) ==> passed(fills, j + 1)
  }

  // The images and what is known of them once the rows above y, or the columns
  // left of x, were scanned in this pass.
  ghost predicate RowsScanned(input: array2<u8>, output: array2<u8>, r: Rule, p: Image, passed: Passed,
                              start: seq<Cell>, fills: seq<Cell>, changed: bool, y: int)
    requires r.Sized() && y >= 1
    reads input, output
  {
    && BothShow(input, output, Painted(p, fills), r) && Legal(r, p, fills) && Progress(r, start, fills, changed)
    && (!changed ==> QuietAbove(r, Painted(p, fills), y)) && passed(fills, y - 1)
  }

  ghost predicate ColumnsScanned(input: array2<u8>, output: array2<u8>, r: Rule, p: Image, passed: Passed,
                                 start: seq<Cell>, fills: seq<Cell>, changed: bool, x: int)
    requires r.Sized() && x >= 1
    reads input, output
  {
    && BothShow(input, output, Painted(p, fills), r) && Legal(r, p, fills) && Progress(r, start, fills, changed)
    && (!changed ==> QuietLeft(r, Painted(p, fills), x)) && passed(fills, r.height - 2 + x - 1)
  }

  method ScanRow(input: array2<u8>, output: array2<u8>, y: int, r: Rule, ghost p: Image, ghost lines: LineRule,
                 ghost passed: Passed, ghost start: seq<Cell>, ghost before: seq<Cell>, changed: bool)
    returns (changed': bool, ghost fills: seq<Cell>)
    requires r.Sized() && Follows(r, p, lines) && Advances(r, lines, passed) && 1 <= y < r.height - 1
    requires RowsScanned(input, output, r, p, passed, start, before, changed, y)
    modifies input, output
    ensures RowsScanned(input, output, r, p, passed, start, fills, changed', y + 1)
  {
    var some: bool;
    some, fills := FillRowBy(input, output, y, r, p, lines, before);
    assert DirectionOf(r, y - 1) == AlongRow && LineOf(r, y - 1) == y;
    ProgressMore(r, start, before, fills, changed, some);
    changed' := changed || some;
    if !changed' { RowQuiet(r, Painted(p, fills), y); }
  }

  method ScanRows(input: array2<u8>, output: array2<u8>, r: Rule, ghost p: Image, ghost lines: LineRule,
                  ghost passed: Passed, ghost start: seq<Cell>)
    returns (changed: bool, ghost fills: seq<Cell>)
    requires r.Sized() && Follows(r, p, lines) && Advances(r, lines, passed) && passed(start, 0)
    requires BothShow(input, output, Painted(p, start), r) && Legal(r, p, start)
    modifies input, output
    ensures BothShow(input, output, Painted(p, fills), r) && Legal(r, p, fills) && Progress(r, start, fills, changed)
    ensures !changed ==> QuietAbove(r, Painted(p, fills), r.height)
    ensures passed(fills, r.height - 2)
  {
    changed, fills := false, start;
    var y := 1;
    while y < r.height - 1
      invariant 1 <= y <= r.height - 1
      invariant RowsScanned(input, output, r, p, passed, start, fills, changed, y)
    {
      changed, fills := ScanRow(input, output, y, r, p, lines, passed, start, fills, changed);
      y := y + 1;
    }
  }

  method ScanColumn(input: array2<u8>, output: array2<u8>, x: int, r: Rule, ghost p: Image, ghost lines: LineRule,
                    ghost passed: Passed, ghost start: seq<Cell>, ghost before: seq<Cell>, changed: bool)
    returns (changed': bool, ghost fills: seq<Cell>)
    requires r.Sized() && Follows(r, p, lines) && Advances(r, lines, passed) && 1 <= x < r.width - 1
    requires ColumnsScanned(input, output, r, p, passed, start, before, changed, x)
    modifies input, output
    ensures ColumnsScanned(input, output, r, p, passed, start, fills, changed', x + 1)
  {
    var some: bool;
    some, fills := FillColumnBy(input, output, x, r, p, lines, before);
    assert DirectionOf(r, r.height - 2 + x - 1) == AlongColumn && LineOf(r, r.height - 2 + x - 1) == x;
    ProgressMore(r, start, before, fills, changed, some);
    changed' := changed || some;
    if !changed' { ColumnQuiet(r, Painted(p, fills), x); }
  }

  method ScanColumns(input: array2<u8>, output: array2<u8>, r: Rule, ghost p: Image, ghost lines: LineRule,
                     ghost passed: Passed, ghost start: seq<Cell>)
    returns (changed: bool, ghost fills: seq<Cell>)
    requires r.Sized() && Follows(r, p, lines) && Advances(r, lines, passed) && passed(start, r.height - 2)
    requires BothShow(input, output, Painted(p, start), r) && Legal(r, p, start)
    modifies input, output
    ensures BothShow(input, output, Painted(p, fills), r) && Legal(r, p, fills) && Progress(r, start, fills, changed)
    ensures !changed ==> QuietLeft(r, Painted(p, fills), r.width)
    ensures passed(fills, LineCount(r))
  {
    changed, fills := false, start;
    var x := 1;
    while x < r.width - 1
      invariant 1 <= x <= r.width - 1
      invariant ColumnsScanned(input, output, r, p, passed, start, fills, changed, x)
    {
      changed, fills := ScanColumn(input, output, x, r, p, lines, passed, start, fills, changed);
      x := x + 1;
    }
  }

  ghost function PassedFrom(r: Rule, lines: LineRule, start: seq<Cell>): Passed {
    (fills: seq<Cell>, j: nat) => PassTo(r, lines, start, fills, j)
  }

  lemma PassAdvances(r: Rule, lines: LineRule, start: seq<Cell>)
    ensures Advances(r, lines, PassedFrom(r, lines, start)) && PassedFrom(r, lines, start)(start, 0)
  {
    forall mid, fills, j: nat | PassTo(r, lines, start, mid, j) && lines(DirectionOf(r, j), LineOf(r, j), mid, fills)
      ensures PassTo(r, lines, start, fills, j + 1)
    {
      PassMore(r, lines, start, mid, fills, j);
    }
  }

  lemma PassMore(r: Rule, lines: LineRule, start: seq<Cell>, mid: seq<Cell>, fills: seq<Cell>, j: nat)
    requires PassTo(r, lines, start, mid, j) && lines(DirectionOf(r, j), LineOf(r, j), mid, fills)
    ensures PassTo(r, lines, start, fills, j + 1)
  {
  }

  lemma FinishedWhenQuiet(r: Rule, p: Image, fills: seq<Cell>)
    requires r.Sized() && QuietAbove(r, Painted(p, fills), r.height) && QuietLeft(r, Painted(p, fills), r.width)
    ensures Finished(r, Painted(p, fills))
  {
  }

  method Pass(input: array2<u8>, output: array2<u8>, r: Rule, ghost p: Image, ghost lines: LineRule,
              ghost start: seq<Cell>)
    returns (changed: bool, ghost fills: seq<Cell>)
    requires r.Sized() && Follows(r, p, lines)
    requires BothShow(input, output, Painted(p, start), r) && Legal(r, p, start)
    modifies input, output
    ensures BothShow(input, output, Painted(p, fills), r) && Legal(r, p, fills) && Progress(r, start, fills, changed)
    ensures !changed ==> Finished(r, Painted(p, fills))
    ensures PassTo(r, lines, start, fills, LineCount(r))
  {
    PassAdvances(r, lines, start);
    ghost var passed := PassedFrom(r, lines, start);
    var rows, columns: bool;
    rows, fills := ScanRows(input, output, r, p, lines, passed, start);
    ghost var middle := fills;
    columns, fills := ScanColumns(input, output, r, p, lines, passed, fills);
    ProgressMore(r, start, middle, fills, rows, columns);
    changed := rows || columns;
    if !changed { FinishedWhenQuiet(r, p, fills); }
  }

  // Fills until a whole pass changes nothing. Both images end as the input
  // with the fills of some whole passes, the last of which added nothing, and
  // neither scan could add another one.
  method Fill(input: array2<u8>, output: array2<u8>, width: nat, height: nat, ghost p: Image)
    returns (ok: bool, ghost fills: seq<Cell>, ghost passes: nat)
    requires Shows(input, p, Gaps(width, height)) && output.Length0 == height && output.Length1 == width
             && input != output
    modifies input, output
    ensures ok <==> width >= 3 && height >= 3 && width * height <= MAX_PIXELS
    ensures ok ==>
      var r := Gaps(width, height);
      && BothShow(input, output, Painted(p, fills), r) && Legal(r, p, fills) && Finished(r, Painted(p, fills))
      && AfterPasses(r, LinesOf(r, p), fills, passes) && AfterPasses(r, LinesOf(r, p), fills, passes + 1)
    ensures !ok ==> unchanged(input, output)
  {
    ok, fills, passes := width >= 3 && height >= 3 && width * height <= MAX_PIXELS, [], 0;
    if ok {
      forall i, j | 0 <= i < height && 0 <= j < width { output[i, j] := input[i, j]; }
      fills, passes := FillByRule(input, output, Gaps(width, height), p, LinesOf(Gaps(width, height), p));
    }
  }

  lemma OnePassMore(r: Rule, lines: LineRule, mid: seq<Cell>, fills: seq<Cell>, n: nat)
    requires r.Sized() && AfterPasses(r, lines, mid, n) && PassTo(r, lines, mid, fills, LineCount(r))
    ensures AfterPasses(r, lines, fills, n + 1)
  {
  }

  // The loop, for any table.
  method FillByRule(input: array2<u8>, output: array2<u8>, r: Rule, ghost p: Image, ghost lines: LineRule)
    returns (ghost fills: seq<Cell>, ghost passes: nat)
    requires r.Sized() && BothShow(input, output, p, r) && Follows(r, p, lines)
    modifies input, output
    ensures BothShow(input, output, Painted(p, fills), r) && Legal(r, p, fills) && Finished(r, Painted(p, fills))
    ensures AfterPasses(r, lines, fills, passes) && AfterPasses(r, lines, fills, passes + 1)
  {
    fills, passes := [], 0;
    var changed := true;
    while changed
      invariant BothShow(input, output, Painted(p, fills), r) && Legal(r, p, fills)
      invariant !changed ==> Finished(r, Painted(p, fills))
      invariant AfterPasses(r, lines, fills, passes) && (!changed ==> AfterPasses(r, lines, fills, passes + 1))
      decreases Left(r, fills), changed
    {
      ghost var before := fills;
      changed, fills := Pass(input, output, r, p, lines, fills);
      OnePassMore(r, lines, before, fills, passes);
      if changed { passes := passes + 1; }
    }
  }
}
