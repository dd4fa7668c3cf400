// Summed-area tables: what they hold in wrapping 32-bit arithmetic, and how
// four corners give the sum over a rectangle.
module SummedArea {
  import opened Words
  import opened Arithmetic

  // Values by column and row.
  type Image = (nat, nat) -> int

  // Sum over columns x0 to x1 - 1 of a row, and over a rectangle of rows.
  function RowSum(f: Image, x0: nat, x1: nat, y: nat): int
    decreases x1, f
  {
    if x1 <= x0 then 0 else RowSum(f, x0, x1 - 1, y) + f(x1 - 1, y)
  }

  function Rect(f: Image, x0: nat, y0: nat, x1: nat, y1: nat): int
    decreases y1, f
  {
    if y1 <= y0 then 0 else Rect(f, x0, y0, x1, y1 - 1) + RowSum(f, x0, x1, y1 - 1)
  }

  // Sum over everything above and left of a point.
  function Prefix(f: Image, x: nat, y: nat): int { Rect(f, 0, 0, x, y) }

  lemma {:induction false} RowSplits(f: Image, a: nat, b: nat, c: nat, y: nat)
    requires a <= b <= c
    ensures RowSum(f, a, c, y) == RowSum(f, a, b, y) + RowSum(f, b, c, y)
    decreases c
  {
    if b < c { RowSplits(f, a, b, c - 1, y); }
  }

  lemma {:induction false} ColumnsSplit(f: Image, a: nat, b: nat, c: nat, y0: nat, y1: nat)
    requires a <= b <= c
    ensures Rect(f, a, y0, c, y1) == Rect(f, a, y0, b, y1) + Rect(f, b, y0, c, y1)
    decreases y1
  {
    if y0 < y1 {
      ColumnsSplit(f, a, b, c, y0, y1 - 1);
      RowSplits(f, a, b, c, y1 - 1);
    }
  }

  lemma {:induction false} RowsSplit(f: Image, x0: nat, x1: nat, a: nat, b: nat, c: nat)
    requires a <= b <= c
    ensures Rect(f, x0, a, x1, c) == Rect(f, x0, a, x1, b) + Rect(f, x0, b, x1, c)
    decreases c
  {
    if b < c { RowsSplit(f, x0, x1, a, b, c - 1); }
  }

  // The sum over a rectangle from its four corners.
  lemma {:induction false} FourCorners(f: Image, x0: nat, y0: nat, x1: nat, y1: nat)
    requires x0 <= x1 && y0 <= y1
    ensures Rect(f, x0, y0, x1, y1) == Prefix(f, x1, y1) - Prefix(f, x0, y1) - Prefix(f, x1, y0) + Prefix(f, x0, y0)
  {
    ColumnsSplit(f, 0, x0, x1, 0, y1);
    ColumnsSplit(f, 0, x0, x1, 0, y0);
    RowsSplit(f, x0, x1, 0, y0, y1);
  }

  // The step of the table builders.
  lemma PrefixStep(f: Image, x: nat, y: nat)
    ensures Prefix(f, x + 1, y + 1) == f(x, y) + Prefix(f, x, y + 1) + Prefix(f, x + 1, y) - Prefix(f, x, y)
    ensures Prefix(f, 0, y) == 0 && Prefix(f, x, 0) == 0
  {
    FourCorners(f, x, y, x + 1, y + 1);
    assert Rect(f, x, y, x + 1, y) == 0;
    assert RowSum(f, x, x + 1, y) == RowSum(f, x, x, y) + f(x, y);
    NoWidth(f, 0, 0, y);
  }

  lemma {:induction false} RowBound(f: Image, bound: nat, x0: nat, x1: nat, y: nat)
    requires x0 <= x1 && forall x: nat, y: nat :: Abs(f(x, y)) <= bound
    ensures Abs(RowSum(f, x0, x1, y)) <= (x1 - x0) * bound
    decreases x1
  {
    if x0 < x1 {
      RowBound(f, bound, x0, x1 - 1, y);
      assert (x1 - x0) * bound == (x1 - 1 - x0) * bound + bound;
    }
  }

  lemma {:induction false} RectBound(f: Image, bound: nat, x0: nat, y0: nat, x1: nat, y1: nat)
    requires x0 <= x1 && y0 <= y1 && forall x: nat, y: nat :: Abs(f(x, y)) <= bound
    ensures Abs(Rect(f, x0, y0, x1, y1)) <= (y1 - y0) * ((x1 - x0) * bound)
    decreases y1
  {
    if y0 < y1 {
      RectBound(f, bound, x0, y0, x1, y1 - 1);
      RowBound(f, bound, x0, x1, y1 - 1);
      OneMore(y1 - y0, (x1 - x0) * bound);
    }
  }

  // ---------- tables ----------

  // Cells done so far, row by row.
  ghost predicate Before(x: nat, y: nat, rowsDone: nat, columnsDone: nat) {
    y < rowsDone || (y == rowsDone && x < columnsDone)
  }

  ghost predicate Holds(t: array2<i32>, f: Image, rowsDone: nat, columnsDone: nat)
    reads t
  {
    forall x: nat, y: nat :: x < t.Length1 && y < t.Length0 && Before(x, y, rowsDone, columnsDone) ==>
      t[y, x] == WrapI32(Prefix(f, x + 1, y + 1))
  }

  lemma WrapStep(value: int, left: int, up: int, diagonal: int)
    ensures WrapI32(value + WrapI32(left) as int + WrapI32(up) as int - WrapI32(diagonal) as int)
         == WrapI32(value + left + up - diagonal)
  {
    var kl := WrapMoves(left);
    var ku := WrapMoves(up);
    var kd := WrapMoves(diagonal);
    WrapSame(value + left + up - diagonal, kl + ku - kd);
  }

  // What a neighbour outside the table contributes is zero.
  method Neighbour(t: array2<i32>, x: int, y: int, ghost f: Image, ghost rowsDone: nat, ghost columnsDone: nat)
    returns (v: int)
    requires -1 <= x < t.Length1 && -1 <= y < t.Length0 && Holds(t, f, rowsDone, columnsDone)
    requires x >= 0 && y >= 0 ==> Before(x, y, rowsDone, columnsDone)
    ensures v == WrapI32(Prefix(f, x + 1, y + 1))
  {
    PrefixStep(f, x + 1, y + 1);
    if x >= 0 && y >= 0 { v := t[y, x]; } else { v := 0; }
  }

  method FillCell(t: array2<i32>, value: int, x: nat, y: nat, ghost f: Image)
    requires x < t.Length1 && y < t.Length0 && Holds(t, f, y, x) && value == f(x, y)
    modifies t
    ensures Holds(t, f, y, x + 1)
  {
    var left := Neighbour(t, x - 1, y, f, y, x);
    var up := Neighbour(t, x, y - 1, f, y, x);
    var diagonal := Neighbour(t, x - 1, y - 1, f, y, x);
    PrefixStep(f, x, y);
    WrapStep(value, Prefix(f, x, y + 1), Prefix(f, x + 1, y), Prefix(f, x, y));
    t[y, x] := WrapI32(value + left + up - diagonal);
  }

  // The finished table: every cell is the sum of the rectangle that ends
  // there, modulo 2^32, whatever the values.
  method Fill(t: array2<i32>, f: Image)
    modifies t
    ensures Holds(t, f, t.Length0, 0)
  {
    for y := 0 to t.Length0
      invariant Holds(t, f, y, 0)
    {
      for x := 0 to t.Length1
        invariant Holds(t, f, y, x)
      {
        FillCell(t, f(x, y), x, y, f);
      }
    }
  }

  // ---------- sums over rectangles ----------

  lemma WrapCorners(a: int, b: int, c: int, d: int)
    ensures WrapI32(WrapI32(a) as int - WrapI32(b) as int - WrapI32(c) as int + WrapI32(d) as int)
         == WrapI32(a - b - c + d)
  {
    var ka := WrapMoves(a);
    var kb := WrapMoves(b);
    var kc := WrapMoves(c);
    var kd := WrapMoves(d);
    WrapSame(a - b - c + d, ka - kb - kc + kd);
  }

  // Four prefix sums combined; for an ordered rectangle this is its sum.
  function Corners(f: Image, x0: nat, y0: nat, x1: nat, y1: nat): int {
    Prefix(f, x1, y1) - Prefix(f, x0, y1) - Prefix(f, x1, y0) + Prefix(f, x0, y0)
  }

  predicate InImage(t: array2<i32>, left: int, top: int, right: int, bottom: int) {
    0 <= left && 0 <= top && right < t.Length1 && bottom < t.Length0
  }

  // The rectangle sum of the quality map. The column before `left` and the row
  // before `top` are clamped to 0, so at the border column 0 or row 0 is lost.
  method RectSum(t: array2<i32>, left: int, top: int, right: int, bottom: int, ghost f: Image) returns (sum: i32)
    requires Holds(t, f, t.Length0, 0)
    requires InImage(t, left, top, right, bottom) ==> right >= 0 && bottom >= 0 && left <= t.Length1 && top <= t.Length0
    ensures !InImage(t, left, top, right, bottom) ==> sum == 0
    ensures InImage(t, left, top, right, bottom) ==>
              sum == WrapI32(Corners(f, Max(left, 1), Max(top, 1), Max(right, 0) + 1, Max(bottom, 0) + 1))
    ensures InImage(t, left, top, right, bottom) && left <= right && top <= bottom ==>
              sum == WrapI32(Rect(f, Max(left, 1), Max(top, 1), Max(right, 0) + 1, Max(bottom, 0) + 1))
  {
    if left < 0 || right >= t.Length1 || top < 0 || bottom >= t.Length0 {
      return 0;
    }
    var leftBefore, topBefore := Max(left - 1, 0), Max(top - 1, 0);
    if left <= right && top <= bottom { FourCorners(f, leftBefore + 1, topBefore + 1, right + 1, bottom + 1); }
    sum := FourCells(t, leftBefore, topBefore, right, bottom, f);
  }

  method FourCells(t: array2<i32>, x0: nat, y0: nat, x1: nat, y1: nat, ghost f: Image) returns (sum: i32)
    requires Holds(t, f, t.Length0, 0)
    requires x0 < t.Length1 && y0 < t.Length0 && x1 < t.Length1 && y1 < t.Length0
    ensures sum == WrapI32(Corners(f, x0 + 1, y0 + 1, x1 + 1, y1 + 1))
  {
    WrapCorners(Prefix(f, x1 + 1, y1 + 1), Prefix(f, x0 + 1, y1 + 1), Prefix(f, x1 + 1, y0 + 1),
                Prefix(f, x0 + 1, y0 + 1));
    assert Before(x1, y1, t.Length0, 0) && Before(x0, y1, t.Length0, 0);
    assert Before(x1, y0, t.Length0, 0) && Before(x0, y0, t.Length0, 0);
    var result := t[y0, x0] as int - t[y1, x0] as int - t[y0, x1] as int + t[y1, x1] as int;
    sum := WrapI32(result);
  }

  // What the clamping loses, for any rectangle that touches the border.
  lemma {:induction false} BorderLost(f: Image, left: nat, top: nat, x1: nat, y1: nat)
    requires left < x1 && top < y1
    ensures Rect(f, left, top, x1, y1) == Rect(f, Max(left, 1), Max(top, 1), x1, y1)
              + (if left == 0 then Rect(f, 0, top, 1, y1) else 0)
              + (if top == 0 then Rect(f, Max(left, 1), 0, x1, 1) else 0)
  {
    var a, b := Max(left, 1), Max(top, 1);
    ColumnsSplit(f, left, a, x1, top, y1);
    RowsSplit(f, a, x1, top, b, y1);
    if left > 0 { NoWidth(f, left, top, y1); }
  }

  // So the clamping is harmless for every image exactly when the rectangle
  // starts at 1 or later in both directions.
  lemma ClampingIsHarmless(left: nat, top: nat, x1: nat, y1: nat)
    requires left < x1 && top < y1
    ensures (forall f :: Rect(f, Max(left, 1), Max(top, 1), x1, y1) == Rect(f, left, top, x1, y1))
       <==> left >= 1 && top >= 1
  {
    if left == 0 || top == 0 { OnePixelLost(left, top, x1, y1); }
  }

  // The failing input: an image whose only pixel that is not zero lies in the
  // first cell of the rectangle.
  function OnePixel(left: nat, top: nat): Image { (x: nat, y: nat) => if x == left && y == top then 1 else 0 }

  lemma {:induction false} OnePixelLost(left: nat, top: nat, x1: nat, y1: nat)
    requires left < x1 && top < y1 && (left == 0 || top == 0)
    ensures Rect(OnePixel(left, top), Max(left, 1), Max(top, 1), x1, y1) < Rect(OnePixel(left, top), left, top, x1, y1)
  {
    var f := OnePixel(left, top);
    BorderLost(f, left, top, x1, y1);
    NotNegative(f, 0, top, 1, y1);
    NotNegative(f, Max(left, 1), 0, x1, 1);
    if left == 0 {
      CellCounts(f, 0, top, 1, y1);
    } else {
      CellCounts(f, left, 0, x1, 1);
    }
  }

  lemma {:induction false} RowNotNegative(f: Image, x0: nat, x1: nat, y: nat)
    requires forall x: nat, y: nat :: f(x, y) >= 0
    ensures RowSum(f, x0, x1, y) >= 0
    decreases x1
  {
    if x0 < x1 { RowNotNegative(f, x0, x1 - 1, y); }
  }

  lemma {:induction false} NotNegative(f: Image, x0: nat, y0: nat, x1: nat, y1: nat)
    requires forall x: nat, y: nat :: f(x, y) >= 0
    ensures Rect(f, x0, y0, x1, y1) >= 0
    decreases y1
  {
    if y0 < y1 {
      NotNegative(f, x0, y0, x1, y1 - 1);
      RowNotNegative(f, x0, x1, y1 - 1);
    }
  }

  // A sum without negative values is at least its first cell.
  lemma {:induction false} CellCounts(f: Image, x0: nat, y0: nat, x1: nat, y1: nat)
    requires x0 < x1 && y0 < y1 && forall x: nat, y: nat :: f(x, y) >= 0
    ensures Rect(f, x0, y0, x1, y1) >= f(x0, y0)
  {
    RowsSplit(f, x0, x1, y0, y0 + 1, y1);
    NotNegative(f, x0, y0 + 1, x1, y1);
    RowSplits(f, x0, x0 + 1, x1, y0);
    RowNotNegative(f, x0 + 1, x1, y0);
    FirstCell(f, x0, y0, x1);
  }

  lemma FirstCell(f: Image, x0: nat, y0: nat, x1: nat)
    ensures Rect(f, x0, y0, x1, y0 + 1) == RowSum(f, x0, x1, y0)
    ensures RowSum(f, x0, x0 + 1, y0) == f(x0, y0)
  {
    assert Rect(f, x0, y0, x1, y0) == 0;
    assert RowSum(f, x0, x0, y0) == 0;
  }

  lemma {:induction false} NoWidth(f: Image, x: nat, y0: nat, y1: nat)
    ensures Rect(f, x, y0, x, y1) == 0
    decreases y1
  {
    if y0 < y1 { NoWidth(f, x, y0, y1 - 1); }
  }

  // With values of at most 255 * 255 and at most 33025 pixels nothing wraps.
  lemma {:induction false} NothingWraps(f: Image, width: nat, height: nat, x0: nat, y0: nat, x1: nat, y1: nat)
    requires forall x: nat, y: nat :: Abs(f(x, y)) <= 65025
    requires width * height <= 33025 && x0 <= x1 <= width && y0 <= y1 <= height
    ensures WrapI32(Rect(f, x0, y0, x1, y1)) as int == Rect(f, x0, y0, x1, y1)
  {
    RectBound(f, 65025, x0, y0, x1, y1);
    AreaBound(x1 - x0, y1 - y0, width, height, 65025);
    Unwrapped(Rect(f, x0, y0, x1, y1), 33025 * 65025);
  }

  lemma AreaBound(w: nat, h: nat, width: nat, height: nat, bound: nat)
    requires w <= width && h <= height
    ensures h * (w * bound) <= (width * height) * bound
  {
    assert w * bound <= width * bound;
    assert h * (w * bound) <= height * (w * bound) <= height * (width * bound);
    assert height * (width * bound) == (width * height) * bound;
  }

  lemma Unwrapped(x: int, bound: nat)
    requires Abs(x) <= bound < 0x8000_0000
    ensures WrapI32(x) as int == x
  {
  }

  // One pixel more can wrap.
  lemma PixelBoundIsTight(f: Image, width: nat)
    requires width == 33026 && forall x: nat, y: nat :: f(x, y) == 65025
    ensures WrapI32(Prefix(f, width, 1)) as int != Prefix(f, width, 1)
  {
    ConstantRow(f, 65025, width);
    assert Prefix(f, width, 0) == 0;
  }

  lemma {:induction false} ConstantRow(f: Image, value: nat, n: nat)
    requires forall x: nat, y: nat :: f(x, y) == value
    ensures RowSum(f, 0, n, 0) == value * n
    decreases n
  {
    if n > 0 { ConstantRow(f, value, n - 1); }
  }
}
