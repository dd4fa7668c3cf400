// The quality map's users of summed-area tables: the four gradient tables, the
// local classification, and the tables of the orientation kernel.
module QualityMap {
  import opened Words
  import opened Arithmetic
  import opened SummedArea

  // ---------- gradient tables ----------

  // Gradients by position; the mask is 0 where a pixel does not count.
  datatype Gradients = Gradients(x: Image, y: Image, magnitudeSquared: Image, mask: Image) {
    predicate Kept(i: nat, j: nat) { magnitudeSquared(i, j) >= 25 && mask(i, j) != 0 }

    function Masked(g: Image): Image { (i: nat, j: nat) => if Kept(i, j) then g(i, j) else 0 }

    function Product(g: Image, h: Image): Image { (i: nat, j: nat) => Masked(g)(i, j) * Masked(h)(i, j) }
  }

  // A pixel counts from a squared gradient of 25 on, a length of five, and only
  // under the mask; elsewhere all planes are zero.
  lemma KeptFromFive(g: Gradients, i: nat, j: nat, length: nat)
    requires g.magnitudeSquared(i, j) == length * length && g.mask(i, j) != 0
    ensures g.Kept(i, j) <==> length >= 5
    ensures length < 5 ==> g.Masked(g.mask)(i, j) == g.Masked(g.x)(i, j) == g.Masked(g.y)(i, j) == 0
    ensures length >= 5 ==> g.Masked(g.mask)(i, j) != 0 && g.Masked(g.x)(i, j) == g.x(i, j)
  {
    if length >= 5 { ProductAtMost(5, 5, length, length); } else { ProductAtMost(length, length, 4, 4); }
  }

  // The caller's arrays: the mask and the gradients are masked in place.
  datatype Planes = Planes(mask: array2<u8>, x: array2<i32>, y: array2<i32>, magnitudeSquared: array2<i32>) {
    ghost predicate Sized(width: int, height: int) {
      && mask.Length0 == x.Length0 == y.Length0 == magnitudeSquared.Length0 == height
      && mask.Length1 == x.Length1 == y.Length1 == magnitudeSquared.Length1 == width
      && x != y && magnitudeSquared != x && magnitudeSquared != y
      && mask as object != x && mask as object != y && mask as object != magnitudeSquared
    }
  }

  datatype Tables = Tables(mask: array2<i32>, xx: array2<i32>, yy: array2<i32>, xy: array2<i32>) {
    ghost predicate Sized(width: int, height: int) {
      && mask.Length0 == xx.Length0 == yy.Length0 == xy.Length0 == height
      && mask.Length1 == xx.Length1 == yy.Length1 == xy.Length1 == width
      && mask != xx && mask != yy && mask != xy && xx != yy && xx != xy && yy != xy
    }

    ghost predicate Apart(p: Planes) {
      Outside(mask, p) && Outside(xx, p) && Outside(yy, p) && Outside(xy, p)
    }
  }

  ghost predicate Outside(a: array2<i32>, p: Planes) {
    a != p.x && a != p.y && a != p.magnitudeSquared && a as object != p.mask
  }

  // All four tables hold their prefix sums up to a position.
  ghost predicate TablesHold(t: Tables, g: Gradients, rowsDone: nat, columnsDone: nat)
    reads t.mask, t.xx, t.yy, t.xy
  {
    && Holds(t.mask, g.Masked(g.mask), rowsDone, columnsDone)
    && Holds(t.xx, g.Product(g.x, g.x), rowsDone, columnsDone)
    && Holds(t.yy, g.Product(g.y, g.y), rowsDone, columnsDone)
    && Holds(t.xy, g.Product(g.x, g.y), rowsDone, columnsDone)
  }

  // A value before and after the masking pass has come by.
  ghost function Value(g: Gradients, f: Image, i: nat, j: nat, rowsDone: nat, columnsDone: nat): int {
    if Before(i, j, rowsDone, columnsDone) then g.Masked(f)(i, j) else f(i, j)
  }

  lemma ValueMoves(g: Gradients, f: Image, i: nat, j: nat)
    ensures Value(g, f, i, j, j, i) == f(i, j)
    ensures Value(g, f, i, j, j, i + 1) == if g.Kept(i, j) then f(i, j) else 0
    ensures forall k: nat, l: nat :: k != i || l != j ==> Value(g, f, k, l, j, i + 1) == Value(g, f, k, l, j, i)
  {
  }

  ghost predicate MaskedTo(p: Planes, g: Gradients, width: nat, height: nat, rowsDone: nat, columnsDone: nat)
    requires p.Sized(width, height)
    reads p.mask, p.x, p.y, p.magnitudeSquared
  {
    && (forall i: nat, j: nat :: i < width && j < height ==> p.magnitudeSquared[j, i] == g.magnitudeSquared(i, j))
    && (forall i: nat, j: nat :: i < width && j < height ==>
          p.mask[j, i] == Value(g, g.mask, i, j, rowsDone, columnsDone))
    && (forall i: nat, j: nat :: i < width && j < height ==> p.x[j, i] == Value(g, g.x, i, j, rowsDone, columnsDone))
    && (forall i: nat, j: nat :: i < width && j < height ==> p.y[j, i] == Value(g, g.y, i, j, rowsDone, columnsDone))
  }

  method MaskCell(p: Planes, width: nat, height: nat, i: nat, j: nat, ghost g: Gradients)
    requires p.Sized(width, height) && i < width && j < height && MaskedTo(p, g, width, height, j, i)
    modifies p.mask, p.x, p.y
    ensures MaskedTo(p, g, width, height, j, i + 1)
  {
    ValueMoves(g, g.mask, i, j);
    ValueMoves(g, g.x, i, j);
    ValueMoves(g, g.y, i, j);
    if p.magnitudeSquared[j, i] < 25 || p.mask[j, i] == 0 {
      p.x[j, i] := 0;
      p.y[j, i] := 0;
      p.mask[j, i] := 0;
    }
  }

  method MaskAll(p: Planes, width: nat, height: nat, ghost g: Gradients)
    requires p.Sized(width, height) && MaskedTo(p, g, width, height, 0, 0)
    modifies p.mask, p.x, p.y
    ensures MaskedTo(p, g, width, height, height, 0)
  {
    for j := 0 to height
      invariant MaskedTo(p, g, width, height, j, 0)
    {
      for i := 0 to width
        invariant MaskedTo(p, g, width, height, j, i)
      {
        MaskCell(p, width, height, i, j, g);
      }
    }
  }

  // One cell of the four tables.
  method FillFour(t: Tables, width: nat, height: nat, i: nat, j: nat, kept: int, x: int, y: int, ghost g: Gradients)
    requires t.Sized(width, height) && i < width && j < height && TablesHold(t, g, j, i)
    requires kept == g.Masked(g.mask)(i, j) && x == g.Masked(g.x)(i, j) && y == g.Masked(g.y)(i, j)
    modifies t.mask, t.xx, t.yy, t.xy
    ensures TablesHold(t, g, j, i + 1)
  {
    FillCell(t.mask, kept, i, j, g.Masked(g.mask));
    FillCell(t.xx, x * x, i, j, g.Product(g.x, g.x));
    FillCell(t.yy, y * y, i, j, g.Product(g.y, g.y));
    FillCell(t.xy, x * y, i, j, g.Product(g.x, g.y));
  }

  method FillAll(p: Planes, t: Tables, width: nat, height: nat, ghost g: Gradients)
    requires p.Sized(width, height) && t.Sized(width, height) && t.Apart(p) && MaskedTo(p, g, width, height, height, 0)
    modifies t.mask, t.xx, t.yy, t.xy
    ensures TablesHold(t, g, height, 0)
  {
    for j := 0 to height
      invariant MaskedTo(p, g, width, height, height, 0) && TablesHold(t, g, j, 0)
    {
      for i := 0 to width
        invariant MaskedTo(p, g, width, height, height, 0) && TablesHold(t, g, j, i)
      {
        assert Before(i, j, height, 0);
        FillFour(t, width, height, i, j, p.mask[j, i], p.x[j, i], p.y[j, i], g);
      }
    }
  }

  // Refused for an empty image; otherwise the mask and the gradients are zero
  // wherever a pixel does not count and unchanged elsewhere, and the tables
  // hold the prefix sums of the masked planes.
  method Integrals(p: Planes, t: Tables, width: int, height: int, ghost g: Gradients) returns (ok: bool)
    requires width > 0 && height > 0 ==>
               p.Sized(width, height) && t.Sized(width, height) && t.Apart(p) && MaskedTo(p, g, width, height, 0, 0)
    modifies p.mask, p.x, p.y, t.mask, t.xx, t.yy, t.xy
    ensures ok <==> width > 0 && height > 0
    ensures ok ==> MaskedTo(p, g, width, height, height, 0) && TablesHold(t, g, height, 0)
    ensures !ok ==> unchanged(p.mask, p.x, p.y, t.mask, t.xx, t.yy, t.xy)
  {
    ok := width > 0 && height > 0;
    if ok {
      Zero(t.mask);
      Zero(t.xx);
      Zero(t.yy);
      Zero(t.xy);
      MaskAll(p, width, height, g);
      FillAll(p, t, width, height, g);
    }
  }

  method Zero(t: array2<i32>)
    modifies t
    ensures forall i, j :: 0 <= i < t.Length1 && 0 <= j < t.Length0 ==> t[j, i] == 0
  {
    forall i, j | 0 <= i < t.Length1 && 0 <= j < t.Length0 { t[j, i] := 0; }
  }

  method NewTable(f: Image, width: nat, height: nat) returns (t: array2<i32>)
    ensures fresh(t) && t.Length0 == height && t.Length1 == width && Holds(t, f, height, 0)
  {
    t := new i32[height, width]((_, _) => 0);
    Fill(t, f);
  }

  // Gradients are differences of two bytes.
  ghost predicate ByteDifferences(g: Image) { forall i: nat, j: nat :: Abs(g(i, j)) <= 255 }

  // For images of at most 33025 pixels each of the four tables, of the squares
  // and products and of the mask itself, gives the exact sum over every rectangle.
  lemma {:induction false} TablesAreExact(g: Gradients, u: Image, v: Image, width: nat, height: nat, x0: nat, y0: nat,
                                          x1: nat, y1: nat)
    requires ByteDifferences(u) && ByteDifferences(v)
    requires width * height <= 33025 && x0 <= x1 <= width && y0 <= y1 <= height
    requires forall i: nat, j: nat :: 0 <= g.mask(i, j) <= 255
    ensures WrapI32(Rect(g.Product(u, v), x0, y0, x1, y1)) as int == Rect(g.Product(u, v), x0, y0, x1, y1)
    ensures WrapI32(Rect(g.Masked(g.mask), x0, y0, x1, y1)) as int == Rect(g.Masked(g.mask), x0, y0, x1, y1)
  {
    NothingWraps(g.Masked(g.mask), width, height, x0, y0, x1, y1);
    forall i: nat, j: nat ensures Abs(g.Product(u, v)(i, j)) <= 65025 {
      ProductBound(g.Masked(u)(i, j), g.Masked(v)(i, j), 255, 255);
    }
    NothingWraps(g.Product(u, v), width, height, x0, y0, x1, y1);
  }

  // ---------- local classification ----------

  datatype Window = Window(left: nat, top: nat, right: nat, bottom: nat)

  // The square of the given radius around a cell, cut at the image border.
  function Clipped(x: nat, y: nat, radius: nat, columns: nat, rows: nat): (w: Window)
    requires x < columns && y < rows
    ensures w.left <= x <= w.right < columns && w.top <= y <= w.bottom < rows
  {
    Window(Max(x - radius, 0), Max(y - radius, 0), Min(x + radius, columns - 1), Min(y + radius, rows - 1))
  }

  lemma ClippedHolds(x: nat, y: nat, radius: nat, columns: nat, rows: nat, i: nat, j: nat)
    requires x < columns && y < rows && i < columns && j < rows
    ensures var w := Clipped(x, y, radius, columns, rows);
            (w.left <= i <= w.right && w.top <= j <= w.bottom) <==> Abs(i - x) <= radius && Abs(j - y) <= radius
  {
  }

  function Area(w: Window): int { (w.right - w.left + 1) * (w.bottom - w.top + 1) }

  function WindowSum(f: Image, w: Window): int { Rect(f, w.left, w.top, w.right + 1, w.bottom + 1) }

  // The values no farther than the radius from a cell, zero elsewhere.
  function Near(f: Image, x: nat, y: nat, radius: nat): Image {
    (i: nat, j: nat) => if Abs(i - x) <= radius && Abs(j - y) <= radius then f(i, j) else 0
  }

  // A plane that is zero outside columns a to b - 1 of a row.
  lemma {:induction false} RowInside(f: Image, g: Image, a: nat, b: nat, n: nat, j: nat)
    requires a <= b <= n && forall i: nat :: i < n ==> g(i, j) == if a <= i < b then f(i, j) else 0
    ensures RowSum(g, 0, n, j) == RowSum(f, a, b, j)
    decreases n
  {
    if n > b {
      RowInside(f, g, a, b, n - 1, j);
    } else if b > a {
      RowInside(f, g, a, b - 1, n - 1, j);
    } else if n > 0 {
      RowInside(f, g, n - 1, n - 1, n - 1, j);
    }
  }

  // A plane that is zero outside a window.
  lemma {:induction false} RectInside(f: Image, g: Image, a: nat, b: nat, c: nat, d: nat, columns: nat, n: nat)
    requires a <= b <= columns
    requires forall i: nat, j: nat :: i < columns && j < n ==>
               g(i, j) == if a <= i < b && c <= j < d then f(i, j) else 0
    ensures Rect(g, 0, 0, columns, n) == Rect(f, a, c, b, Min(n, d))
    decreases n
  {
    if n > 0 {
      RectInside(f, g, a, b, c, d, columns, n - 1);
      if c <= n - 1 < d { RowInside(f, g, a, b, columns, n - 1); } else { RowInside(f, g, 0, 0, columns, n - 1); }
    }
  }

  // The window sum is the sum over all cells of the image within the radius.
  lemma {:induction false} WindowIsNeighbourhood(f: Image, columns: nat, rows: nat, radius: nat, x: nat, y: nat)
    requires x < columns && y < rows
    ensures WindowSum(f, Clipped(x, y, radius, columns, rows)) == Rect(Near(f, x, y, radius), 0, 0, columns, rows)
  {
    var w := Clipped(x, y, radius, columns, rows);
    forall i: nat, j: nat | i < columns && j < rows
      ensures Near(f, x, y, radius)(i, j)
           == if w.left <= i < w.right + 1 && w.top <= j < w.bottom + 1 then f(i, j) else 0
    {
      ClippedHolds(x, y, radius, columns, rows, i, j);
    }
    RectInside(f, Near(f, x, y, radius), w.left, w.right + 1, w.top, w.bottom + 1, columns, rows);
  }

  const NEGATIVE: u8 := 0
  const NEUTRAL: u8 := 0x80
  const POSITIVE: u8 := 0xff

  function ClassOf(average: int): u8 {
    if average < 2 then if average < -3 then NEGATIVE else NEUTRAL else POSITIVE
  }

  lemma AreaPositive(w: Window)
    requires w.left <= w.right && w.top <= w.bottom
    ensures Area(w) > 0
  {
  }

  // From 2 on positive, from -3 to 1 neutral, below negative.
  lemma ClassRanges(average: int)
    ensures ClassOf(average) == POSITIVE <==> average >= 2
    ensures ClassOf(average) == NEUTRAL <==> -3 <= average <= 1
    ensures ClassOf(average) == NEGATIVE <==> average <= -4
  {
  }

  // The class of a cell from the rounded mean of its window.
  function LocalClass(f: Image, columns: nat, rows: nat, radius: nat, x: nat, y: nat): u8
    requires x < columns && y < rows
  {
    var w := Clipped(x, y, radius, columns, rows);
    AreaPositive(w);
    ClassOf(TruncDiv(WrapI32(WindowSum(f, w)) as int + Area(w) / 2, Area(w)))
  }

  ghost predicate SignedBytes(f: Image) { forall x: nat, y: nat :: Abs(f(x, y)) <= 128 }

  // Window sums of signed bytes are exact up to 2^24 - 1 cells.
  lemma WindowSumsAreExact(f: Image, columns: nat, rows: nat, radius: nat, x: nat, y: nat)
    requires SignedBytes(f) && x < columns && y < rows && columns * rows < 0x100_0000
    ensures var w := Clipped(x, y, radius, columns, rows); WrapI32(WindowSum(f, w)) as int == WindowSum(f, w)
  {
    var w := Clipped(x, y, radius, columns, rows);
    RectBound(f, 128, w.left, w.top, w.right + 1, w.bottom + 1);
    AreaBound(w.right + 1 - w.left, w.bottom + 1 - w.top, columns, rows, 128);
    Unwrapped(WindowSum(f, w), columns * rows * 128);
  }

  // The rounded mean is the nearest one, halves upward, while the sum is at
  // least minus half the area; below that it is truncated upward.
  lemma MeanRounds(sum: int, area: nat)
    requires area > 0
    ensures var m := TruncDiv(sum + area / 2, area);
            && (sum + area / 2 >= 0 ==> area * m - area / 2 <= sum < area * m + area - area / 2)
            && (sum + area / 2 < 0 ==> area * m - area - area / 2 < sum <= area * m - area / 2)
  {
    var z := sum + area / 2;
    var q := Abs(z) / area;
    assert Abs(z) == area * q + Abs(z) % area;
    assert area * (-q) == -(area * q);
  }

  // What the rounded mean of equal values is.
  function MeanOfEqual(v: int, area: nat): int { if v >= 0 || area == 1 then v else v + 1 }

  lemma MeanOfUniform(v: int, area: nat, sum: int)
    requires area > 0 && sum == area * v
    ensures TruncDiv(sum + area / 2, area) == MeanOfEqual(v, area)
  {
    if v >= 0 {
      QuotientIs(sum + area / 2, area, v, area / 2);
    } else if area > 1 {
      assert area * (v + 1) == sum + area;
      assert area * (-v - 1) == -(area * (v + 1));
      QuotientIs(-(sum + area / 2), area, -v - 1, area - area / 2);
    }
  }

  lemma {:induction false} RowOfEqual(f: Image, v: int, x0: nat, x1: nat, y: nat)
    requires x0 <= x1 && forall i: nat :: x0 <= i < x1 ==> f(i, y) == v
    ensures RowSum(f, x0, x1, y) == v * (x1 - x0)
    decreases x1
  {
    if x0 < x1 {
      RowOfEqual(f, v, x0, x1 - 1, y);
      OneMore(x1 - x0, v);
    }
  }

  lemma {:induction false} RectOfEqual(f: Image, v: int, x0: nat, y0: nat, x1: nat, y1: nat, row: int)
    requires x0 <= x1 && y0 <= y1 && row == v * (x1 - x0)
    requires forall i: nat, j: nat :: x0 <= i < x1 && y0 <= j < y1 ==> f(i, j) == v
    ensures Rect(f, x0, y0, x1, y1) == row * (y1 - y0)
    decreases y1
  {
    if y0 < y1 {
      RectOfEqual(f, v, x0, y0, x1, y1 - 1, row);
      RowOfEqual(f, v, x0, x1, y1 - 1);
      OneMore(y1 - y0, row);
    }
  }

  lemma WindowOfEqual(f: Image, v: int, w: Window)
    requires w.left <= w.right && w.top <= w.bottom
    requires forall i: nat, j: nat :: w.left <= i <= w.right && w.top <= j <= w.bottom ==> f(i, j) == v
    ensures WindowSum(f, w) == Area(w) * v
  {
    var n, k := w.right - w.left + 1, w.bottom - w.top + 1;
    RectOfEqual(f, v, w.left, w.top, w.right + 1, w.bottom + 1, v * n);
    assert v * n * k == (n * k) * v;
  }

  // An even neighbourhood of one value is classified by it, or by the next one
  // when it is negative and there is more than one cell.
  lemma UniformClass(f: Image, columns: nat, rows: nat, radius: nat, x: nat, y: nat, v: int)
    requires SignedBytes(f) && x < columns && y < rows && columns * rows < 0x100_0000
    requires forall i: nat, j: nat :: i < columns && j < rows && Abs(i - x) <= radius && Abs(j - y) <= radius ==>
               f(i, j) == v
    ensures var several := radius > 0 && (columns > 1 || rows > 1);
            LocalClass(f, columns, rows, radius, x, y) == ClassOf(if v < 0 && several then v + 1 else v)
  {
    var w := Clipped(x, y, radius, columns, rows);
    forall i: nat, j: nat | w.left <= i <= w.right && w.top <= j <= w.bottom ensures f(i, j) == v {
      ClippedHolds(x, y, radius, columns, rows, i, j);
    }
    WindowSumsAreExact(f, columns, rows, radius, x, y);
    WindowOfEqual(f, v, w);
    AreaPositive(w);
    MeanOfUniform(v, Area(w), WindowSum(f, w));
    SingleCell(x, y, radius, columns, rows);
  }

  lemma SingleCell(x: nat, y: nat, radius: nat, columns: nat, rows: nat)
    requires x < columns && y < rows
    ensures Area(Clipped(x, y, radius, columns, rows)) == 1 <==> radius == 0 || (columns == 1 && rows == 1)
  {
    var w := Clipped(x, y, radius, columns, rows);
    var n, k := w.right - w.left + 1, w.bottom - w.top + 1;
    assert n > 1 ==> n * k > 1;
    assert k > 1 ==> n * k > 1;
  }

  method SumOfWindow(t: array2<i32>, w: Window, ghost f: Image) returns (sum: i32)
    requires Holds(t, f, t.Length0, 0)
    requires w.left <= w.right < t.Length1 && w.top <= w.bottom < t.Length0
    ensures sum == WrapI32(WindowSum(f, w))
  {
    FourCorners(f, w.left, w.top, w.right + 1, w.bottom + 1);
    WrapCorners(Prefix(f, w.right + 1, w.bottom + 1), Prefix(f, w.left, w.bottom + 1),
                Prefix(f, w.right + 1, w.top), Prefix(f, w.left, w.top));
    var corner := Neighbour(t, w.right, w.bottom, f, t.Length0, 0);
    var left := Neighbour(t, w.left - 1, w.bottom, f, t.Length0, 0);
    var above := Neighbour(t, w.right, w.top - 1, f, t.Length0, 0);
    var both := Neighbour(t, w.left - 1, w.top - 1, f, t.Length0, 0);
    sum := WrapI32(corner - left - above + both);
  }

  // How many cells of a class there are, as a sum over the image.
  function Indicator(classes: Image, value: int): Image { (x: nat, y: nat) => if classes(x, y) == value then 1 else 0 }

  function Classes(f: Image, columns: nat, rows: nat, radius: nat): Image {
    (x: nat, y: nat) => if x < columns && y < rows then LocalClass(f, columns, rows, radius, x, y) else -1
  }

  function Counted(classes: Image, value: int, columns: nat, x: nat, y: nat): int {
    Rect(Indicator(classes, value), 0, 0, columns, y) + RowSum(Indicator(classes, value), 0, x, y)
  }

  datatype Counts = Counts(negative: int, positive: int, neutral: int) {
    function Add(c: u8): Counts {
      if c == NEGATIVE then this.(negative := negative + 1)
      else if c == NEUTRAL then this.(neutral := neutral + 1)
      else this.(positive := positive + 1)
    }
  }

  function CountsOf(classes: Image, columns: nat, x: nat, y: nat): Counts {
    Counts(Counted(classes, NEGATIVE, columns, x, y), Counted(classes, POSITIVE, columns, x, y),
           Counted(classes, NEUTRAL, columns, x, y))
  }

  ghost predicate ThreeClasses(classes: Image, columns: nat, rows: nat) {
    forall x: nat, y: nat :: x < columns && y < rows ==>
      classes(x, y) == NEGATIVE || classes(x, y) == NEUTRAL || classes(x, y) == POSITIVE
  }

  lemma CountCell(classes: Image, columns: nat, rows: nat, x: nat, y: nat)
    requires ThreeClasses(classes, columns, rows) && x < columns && y < rows
    ensures 0 <= classes(x, y) < 0x100
    ensures CountsOf(classes, columns, x + 1, y) == CountsOf(classes, columns, x, y).Add(classes(x, y))
  {
  }

  lemma CountRow(classes: Image, columns: nat, y: nat)
    ensures CountsOf(classes, columns, 0, y + 1) == CountsOf(classes, columns, columns, y)
  {
  }

  lemma {:induction false} RowTotal(classes: Image, columns: nat, rows: nat, x: nat, y: nat)
    requires ThreeClasses(classes, columns, rows) && x <= columns && y < rows
    ensures RowSum(Indicator(classes, NEGATIVE), 0, x, y) + RowSum(Indicator(classes, POSITIVE), 0, x, y)
            + RowSum(Indicator(classes, NEUTRAL), 0, x, y) == x
    ensures RowSum(Indicator(classes, NEGATIVE), 0, x, y) >= 0 && RowSum(Indicator(classes, POSITIVE), 0, x, y) >= 0
    ensures RowSum(Indicator(classes, NEUTRAL), 0, x, y) >= 0
    decreases x
  {
    if x > 0 {
      RowTotal(classes, columns, rows, x - 1, y);
      var c := classes(x - 1, y);
      assert c == NEGATIVE || c == NEUTRAL || c == POSITIVE;
    }
  }

  // The three class counts add up to the number of cells.
  lemma CountsAddUp(classes: Image, columns: nat, rows: nat, y: nat)
    requires ThreeClasses(classes, columns, rows) && y <= rows
    ensures var c := CountsOf(classes, columns, 0, y);
            c.negative + c.positive + c.neutral == y * columns && c.negative >= 0 && c.positive >= 0 && c.neutral >= 0
    decreases y
  {
    if y > 0 {
      CountsAddUp(classes, columns, rows, y - 1);
      RowTotal(classes, columns, rows, columns, y - 1);
      CountRow(classes, columns, y - 1);
      OneMore(y, columns);
    }
  }

  // Percentages are truncated, so the three lose at most two points together.
  lemma PercentagesAddUp(a: nat, b: nat, c: nat, pixels: nat)
    requires pixels > 0 && a + b + c == pixels
    ensures 98 <= a * 100 / pixels + b * 100 / pixels + c * 100 / pixels <= 100
  {
    var qa, qb, qc := a * 100 / pixels, b * 100 / pixels, c * 100 / pixels;
    var s := qa + qb + qc;
    assert pixels * qa <= a * 100 < pixels * qa + pixels;
    assert pixels * qb <= b * 100 < pixels * qb + pixels;
    assert pixels * qc <= c * 100 < pixels * qc + pixels;
    assert pixels * s == pixels * qa + pixels * qb + pixels * qc;
    Between(pixels, s);
  }

  lemma Between(p: nat, s: int)
    requires p > 0 && p * s <= p * 100 < p * s + 3 * p
    ensures 98 <= s <= 100
  {
    assert s >= 101 ==> p * (s - 101) >= 0;
    assert s <= 97 ==> p * (97 - s) >= 0;
  }

  ghost predicate Classified(output: array2<u8>, classes: Image, rowsDone: nat, columnsDone: nat)
    reads output
  {
    forall x: nat, y: nat :: x < output.Length1 && y < output.Length0 && Before(x, y, rowsDone, columnsDone) ==>
      output[y, x] == classes(x, y)
  }

  method ClassifyCell(t: array2<i32>, x: nat, y: nat, radius: nat, ghost f: Image) returns (c: u8)
    requires Holds(t, f, t.Length0, 0) && x < t.Length1 && y < t.Length0
    ensures c == LocalClass(f, t.Length1, t.Length0, radius, x, y)
  {
    var w := Clipped(x, y, radius, t.Length1, t.Length0);
    var sum := SumOfWindow(t, w, f);
    AreaPositive(w);
    c := ClassOf(TruncDiv(sum as int + Area(w) / 2, Area(w)));
  }

  lemma ClassesAreThree(f: Image, columns: nat, rows: nat, radius: nat)
    ensures ThreeClasses(Classes(f, columns, rows, radius), columns, rows)
  {
  }

  method PutClass(output: array2<u8>, counts: Counts, c: u8, x: nat, y: nat, ghost classes: Image)
    returns (counts': Counts)
    requires x < output.Length1 && y < output.Length0 && ThreeClasses(classes, output.Length1, output.Length0)
    requires c as int == classes(x, y)
    requires Classified(output, classes, y, x) && counts == CountsOf(classes, output.Length1, x, y)
    modifies output
    ensures Classified(output, classes, y, x + 1) && counts' == CountsOf(classes, output.Length1, x + 1, y)
  {
    output[y, x] := c;
    CountCell(classes, output.Length1, output.Length0, x, y);
    counts' := counts.Add(c);
  }

  method ClassifyAll(t: array2<i32>, output: array2<u8>, radius: nat, ghost f: Image, ghost classes: Image)
    returns (counts: Counts)
    requires Holds(t, f, t.Length0, 0) && output.Length0 == t.Length0 && output.Length1 == t.Length1
             && output as object != t
    requires classes == Classes(f, t.Length1, t.Length0, radius) && ThreeClasses(classes, t.Length1, t.Length0)
    modifies output
    ensures Classified(output, classes, t.Length0, 0) && counts == CountsOf(classes, t.Length1, 0, t.Length0)
  {
    counts := Counts(0, 0, 0);
    for y := 0 to t.Length0
      invariant Holds(t, f, t.Length0, 0)
      invariant Classified(output, classes, y, 0) && counts == CountsOf(classes, t.Length1, 0, y)
    {
      for x := 0 to t.Length1
        invariant Holds(t, f, t.Length0, 0)
        invariant Classified(output, classes, y, x) && counts == CountsOf(classes, t.Length1, x, y)
      {
        var c := ClassifyCell(t, x, y, radius, f);
        assert c as int == classes(x, y);
        counts := PutClass(output, counts, c, x, y, classes);
      }
      CountRow(classes, t.Length1, y);
    }
  }

  datatype Stats = Stats(negative: int, positive: int, neutral: int)

  // Every cell is classified by the mean of its clipped window; the counts are
  // those of the classes and add up to the number of cells.
  method ClassifyImage(f: Image, rows: nat, columns: nat, radius: nat, output: array2<u8>)
    returns (stats: Stats, counts: Counts)
    requires rows > 0 && columns > 0 && output.Length0 == rows && output.Length1 == columns
    modifies output
    ensures forall x: nat, y: nat :: x < columns && y < rows ==>
              output[y, x] == LocalClass(f, columns, rows, radius, x, y)
    ensures counts == CountsOf(Classes(f, columns, rows, radius), columns, 0, rows)
    ensures counts.negative + counts.positive + counts.neutral == rows * columns
    ensures 98 <= stats.negative + stats.positive + stats.neutral <= 100
    ensures IsPercentage(stats, counts, rows * columns)
  {
    ghost var classes := Classes(f, columns, rows, radius);
    var t := NewTable(f, columns, rows);
    ClassesAreThree(f, columns, rows, radius);
    counts := ClassifyAll(t, output, radius, f, classes);
    CountsAddUp(classes, columns, rows, rows);
    var pixels := rows * columns;
    PixelsPositive(rows, columns);
    stats := Stats(counts.negative * 100 / pixels, counts.positive * 100 / pixels, counts.neutral * 100 / pixels);
    PercentagesAddUp(counts.negative, counts.positive, counts.neutral, pixels);
    assert forall x: nat, y: nat :: x < columns && y < rows ==> output[y, x] == classes(x, y);
  }

  ghost predicate IsPercentage(stats: Stats, counts: Counts, pixels: int) {
    && pixels > 0
    && stats == Stats(counts.negative * 100 / pixels, counts.positive * 100 / pixels, counts.neutral * 100 / pixels)
  }

  // The result of a classification, or nothing for an empty image or a negative
  // radius.
  method ClassifyLocal(f: Image, rows: int, columns: int, radius: int, output: array2<u8>)
    returns (ok: bool, stats: Stats, ghost counts: Counts)
    requires rows > 0 && columns > 0 ==> output.Length0 == rows && output.Length1 == columns
    modifies output
    ensures ok <==> rows > 0 && columns > 0 && radius >= 0
    ensures ok ==> forall x: nat, y: nat :: x < columns && y < rows ==>
              output[y, x] == LocalClass(f, columns, rows, radius, x, y)
    ensures ok ==> counts == CountsOf(Classes(f, columns, rows, radius), columns, 0, rows)
    ensures ok ==> counts.negative + counts.positive + counts.neutral == rows * columns
    ensures ok ==>
              IsPercentage(stats, counts, rows * columns)
                && 98 <= stats.negative + stats.positive + stats.neutral <= 100
  {
    ok, stats, counts := rows > 0 && columns > 0 && radius >= 0, Stats(0, 0, 0), Counts(0, 0, 0);
    if ok {
      var c: Counts;
      stats, c := ClassifyImage(f, rows, columns, radius, output);
      counts := c;
    }
  }

  lemma PixelsPositive(a: nat, b: nat)
    requires a > 0 && b > 0
    ensures a * b > 0
  {
  }

  // ---------- the orientation kernel ----------

  // Its tables leave out row 0 and column 0.
  function Interior(f: Image): Image { (x: nat, y: nat) => if x == 0 || y == 0 then 0 else f(x, y) }

  lemma ZeroColumn(f: Image, y: nat)
    ensures Prefix(Interior(f), 1, y) == 0
    decreases y
  {
    if y > 0 {
      ZeroColumn(f, y - 1);
      assert RowSum(Interior(f), 0, 1, y - 1) == RowSum(Interior(f), 0, 0, y - 1) + Interior(f)(0, y - 1);
    }
  }

  lemma ZeroRow(f: Image, x: nat)
    ensures Prefix(Interior(f), x, 1) == 0
    decreases x
  {
    assert Prefix(Interior(f), x, 0) == 0;
    ZeroRowSum(f, x);
  }

  lemma {:induction false} ZeroRowSum(f: Image, x: nat)
    ensures RowSum(Interior(f), 0, x, 0) == 0
    decreases x
  {
    if x > 0 { ZeroRowSum(f, x - 1); }
  }

  method FillInterior(t: array2<i32>, f: Image)
    requires forall x: nat, y: nat :: x < t.Length1 && y < t.Length0 && (x == 0 || y == 0) ==> t[y, x] == 0
    modifies t
    ensures Holds(t, Interior(f), t.Length0, 0)
  {
    forall x: nat ensures Prefix(Interior(f), x, 1) == 0 { ZeroRow(f, x); }
    var y := 1;
    while y < t.Length0
      invariant 1 <= y && Holds(t, Interior(f), y, 0)
      invariant forall k: nat :: k < t.Length0 && t.Length1 > 0 ==> t[k, 0] == 0
    {
      FillInteriorRow(t, f, y);
      y := y + 1;
    }
  }

  method FillInteriorRow(t: array2<i32>, f: Image, y: nat)
    requires 1 <= y < t.Length0 && Holds(t, Interior(f), y, 0)
    requires forall k: nat :: k < t.Length0 && t.Length1 > 0 ==> t[k, 0] == 0
    modifies t
    ensures Holds(t, Interior(f), y + 1, 0)
    ensures forall k: nat :: k < t.Length0 && t.Length1 > 0 ==> t[k, 0] == 0
  {
    ZeroColumn(f, y + 1);
    var x := 1;
    while x < t.Length1
      invariant 1 <= x && Holds(t, Interior(f), y, x)
      invariant forall k: nat :: k < t.Length0 && t.Length1 > 0 ==> t[k, 0] == 0
    {
      FillInteriorCell(t, Interior(f), x, y);
      x := x + 1;
    }
  }

  method FillInteriorCell(t: array2<i32>, g: Image, x: nat, y: nat)
    requires 1 <= x < t.Length1 && 1 <= y < t.Length0 && Holds(t, g, y, x)
    modifies t
    ensures Holds(t, g, y, x + 1)
    ensures forall k: nat :: k < t.Length0 ==> t[k, 0] == old(t[k, 0])
  {
    assert Before(x - 1, y, y, x) && Before(x, y - 1, y, x) && Before(x - 1, y - 1, y, x);
    PrefixStep(g, x, y);
    WrapStep(g(x, y), Prefix(g, x, y + 1), Prefix(g, x + 1, y), Prefix(g, x, y));
    t[y, x] := WrapI32(g(x, y) + t[y, x - 1] as int + t[y - 1, x] as int - t[y - 1, x - 1] as int);
  }

  lemma {:induction false} SameRow(f: Image, g: Image, x0: nat, x1: nat, y: nat)
    requires forall x: nat :: x0 <= x ==> f(x, y) == g(x, y)
    ensures RowSum(f, x0, x1, y) == RowSum(g, x0, x1, y)
    decreases x1
  {
    if x0 < x1 { SameRow(f, g, x0, x1 - 1, y); }
  }

  lemma {:induction false} InteriorRect(f: Image, x0: nat, y0: nat, x1: nat, y1: nat)
    requires 1 <= x0 && 1 <= y0
    ensures Rect(Interior(f), x0, y0, x1, y1) == Rect(f, x0, y0, x1, y1)
    decreases y1
  {
    if y0 < y1 {
      InteriorRect(f, x0, y0, x1, y1 - 1);
      SameRow(Interior(f), f, x0, x1, y1 - 1);
    }
  }

  // The rectangle sum of the orientation kernel agrees with direct summation
  // modulo 2^32 for every rectangle away from row 0 and column 0.
  method InteriorRectangle(t: array2<i32>, x0: nat, y0: nat, x1: nat, y1: nat, ghost f: Image) returns (sum: i32)
    requires Holds(t, Interior(f), t.Length0, 0)
    requires 1 <= x0 <= x1 < t.Length1 && 1 <= y0 <= y1 < t.Length0
    ensures sum == WrapI32(Rect(f, x0, y0, x1 + 1, y1 + 1))
  {
    InteriorRect(f, x0, y0, x1 + 1, y1 + 1);
    sum := SumOfWindow(t, Window(x0, y0, x1, y1), Interior(f));
  }
}
